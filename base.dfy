/** Values shared by every part of the model: scene-graph nodes, ray hits and
    the read-only `worldVisible` walk over a node's ancestors. */
module Base {

  datatype Option<T> = None | Some(value: T)

  /** A scene-graph node (a THREE.Object3D), identified by its index. */
  type Node = nat
  /** An event name such as "click"; user code may pass any string. */
  type EventName = string
  /** The identity of a user callback; the callbacks themselves are opaque. */
  type CallbackId = nat
  /** The `identifier` of a native touch point. */
  type TouchId = int
  /** The identity of a pointer-state record (a THREE.InteractionData). */
  type RecordId = nat

  /** THREE.InteractionManager.noop, bound implicitly for hover tracking. */
  const Noop: CallbackId := 0
  /** The manager's own `mouse` record, used whenever no record is passed. */
  const MouseRecord: RecordId := 0

  /** One element of the list the ray caster returns: a hit on an object, with
      its geometric details kept opaque, or the synthetic `{ object: scene }`
      hit the manager appends when a scene is registered. */
  datatype Hit = RayHit(obj: Node, detail: nat) | SceneHit(obj: Node)

  /** The host scene graph, which the manager only reads: each node's parent
      (a root has none), the nodes whose `visible` flag is false, and the nodes
      that are THREE.Scene instances. A parent always has a smaller index than
      its child, so every parent chain ends. */
  datatype Graph = Graph(parent: map<Node, Node>, hidden: set<Node>, scenes: set<Node>) {
    predicate Valid() {
      forall n :: n in parent ==> parent[n] < n
    }
  }

  /** The chain of nodes from `n` up to its root, `n` first. */
  function Chain(g: Graph, n: Node): (c: seq<Node>)
    requires g.Valid()
    decreases n
    ensures |c| > 0 && c[0] == n && c[|c| - 1] !in g.parent
    ensures forall i :: 0 <= i < |c| - 1 ==> c[i] in g.parent && c[i + 1] == g.parent[c[i]]
    ensures forall i :: 0 <= i < |c| ==> c[i] <= n
  {
    if n in g.parent then [n] + Chain(g, g.parent[n]) else [n]
  }

  /** The `worldVisible` getter: walks from the node to the root and fails on
      the first node whose `visible` flag is false. */
  function WorldVisible(g: Graph, n: Node): (r: bool)
    requires g.Valid()
    decreases n
    ensures r <==> forall i :: 0 <= i < |Chain(g, n)| ==> Chain(g, n)[i] !in g.hidden
  {
    if n in g.hidden then assert Chain(g, n)[0] in g.hidden; false
    else if n in g.parent then
      var c, up := Chain(g, n), Chain(g, g.parent[n]);
      assert forall i :: 0 <= i < |up| ==> up[i] == c[i + 1];
      WorldVisible(g, g.parent[n])
    else true
  }

  /** The getter's `do { ... } while (item)` loop. */
  method IsWorldVisible(g: Graph, n: Node) returns (r: bool)
    requires g.Valid()
    ensures r == WorldVisible(g, n)
  {
    var item := n;
    while true
      invariant WorldVisible(g, item) == WorldVisible(g, n)
      decreases item
    {
      if item in g.hidden {
        return false;
      }
      if item !in g.parent {
        return true;
      }
      item := g.parent[item];
    }
  }

  /** `intersect` with the ray casting abstracted away: `hits` is what the ray
      caster returned for the candidate items, nearest first; a registered
      scene adds one trailing hit on the scene itself. */
  function Intersect(scene: Option<Node>, hits: seq<Hit>): (xs: seq<Hit>)
    ensures |xs| == if scene.Some? then |hits| + 1 else |hits|
    ensures xs[..|hits|] == hits
    ensures scene.Some? ==> xs[|hits|] == SceneHit(scene.value)
  {
    if scene.Some? then hits + [SceneHit(scene.value)] else hits
  }

  /** The objects of a list of hits, as a set. */
  function Objects(xs: seq<Hit>): set<Node>
  {
    set i | 0 <= i < |xs| :: xs[i].obj
  }
}
