/** The listener registry of THREE.InteractionManager as values: each node's
    `events` object (event name to an ordered list of handlers), the
    `interactiveItems` index (event name to the nodes bound for it) and the
    registered `scene`; `bind`, `unbind`, `removeEvents` and `bound` as
    functions on them. */
module Registry {
  import opened Base
  import opened Text

  /** One entry `{callback, useCapture, namespace}` of a handler list. */
  datatype Handler = Handler(callback: CallbackId, useCapture: bool, namespace: Option<string>)

  /** A node's `events` object. */
  type Listeners = map<EventName, seq<Handler>>

  /** A node is absent from `events` when it has no `events` object. */
  datatype Registry = Registry(events: map<Node, Listeners>, items: map<EventName, seq<Node>>, scene: Option<Node>)

  /** THREE.InteractionManager.eventNames. */
  const EventNames: seq<EventName> := [
    "click", "dblclick", "mouseover", "mouseout", "mousemove", "touchmove",
    "mousedown", "touchstart", "mouseup", "touchend", "mouseupoutside",
    "touchendoutside", "contextmenu", "rightup", "rightclick",
    "rightupoutside", "rightdown"]

  /** THREE.InteractionManager.eventNamesString. */
  const EventNamesString: string := Join(EventNames, ' ')

  /** The entry `bind(node, 'mousemove', noop)` stores. */
  const NoopHandler: Handler := Handler(Noop, false, None)

  const EmptyRegistry: Registry := Registry(map[], map[], None)

  /** `bound(eventName, object3d)`: the node's handler list for the event,
      if the node has an `events` object holding that name. */
  function Bound(events: map<Node, Listeners>, e: EventName, n: Node): Option<seq<Handler>>
  {
    if n in events && e in events[n] then Some(events[n][e]) else None
  }

  /** The handler list, with a missing one read as empty. */
  function Listening(events: map<Node, Listeners>, e: EventName, n: Node): seq<Handler>
  {
    match Bound(events, e, n)
    case Some(hs) => hs
    case None => []
  }

  /** `bound && bound.length`: the node has at least one handler for `e`. */
  predicate HasHandlers(events: map<Node, Listeners>, e: EventName, n: Node)
  {
    |Listening(events, e, n)| > 0
  }

  /** `interactiveItems[e]`, with a missing list read as empty. */
  function Items(r: Registry, e: EventName): seq<Node>
  {
    if e in r.items then r.items[e] else []
  }

  /** `items && items.length`. */
  predicate HasItems(r: Registry, e: EventName)
  {
    |Items(r, e)| > 0
  }

  // ---------------------------------------------------------------- bind

  /** The body of `bind` once the name is resolved (lines 261-291): append the
      handler to the node's list, register a scene, index the node once. */
  function Register(r: Registry, scenes: set<Node>, n: Node, e: EventName, h: Handler): Registry
  {
    var listeners := if n in r.events then r.events[n] else map[];
    var list := if e in listeners then listeners[e] else [];
    var index := Items(r, e);
    Registry(
      r.events[n := listeners[e := list + [h]]],
      r.items[e := if IndexOf(index, n) == -1 then index + [n] else index],
      if n in scenes && r.scene.None? then Some(n) else r.scene)
  }

  /** `bind` for a resolved name and namespace (lines 261-301): register the
      handler and, for "mouseover"/"mouseout" on a node without "mousemove"
      handlers, the no-op "mousemove" handler too. */
  function BindResolved(r: Registry, scenes: set<Node>, n: Node, e: EventName, ns: Option<string>,
                        cb: CallbackId, capture: bool): Registry
  {
    var r1 := Register(r, scenes, n, e, Handler(cb, capture, ns));
    if (e == "mouseover" || e == "mouseout") && !HasHandlers(r1.events, "mousemove", n)
    then Register(r1, scenes, n, "mousemove", NoopHandler)
    else r1
  }

  /** `bind` for a name without a space. */
  function BindOne(r: Registry, scenes: set<Node>, n: Node, name: string, cb: CallbackId, capture: bool): Registry
  {
    var k := ParseName(name);
    BindResolved(r, scenes, n, k.name, k.namespace, cb, capture)
  }

  /** `bind` applied to each name in turn. */
  function BindAll(r: Registry, scenes: set<Node>, n: Node, names: seq<string>, cb: CallbackId, capture: bool): Registry
    decreases |names|
  {
    if names == [] then r
    else BindAll(BindOne(r, scenes, n, names[0], cb, capture), scenes, n, names[1..], cb, capture)
  }

  /** `bind(object3d, eventName, callback, useCapture)`; `capture` is the
      truth value `!!useCapture`. */
  function Bind(r: Registry, scenes: set<Node>, n: Node, name: string, cb: CallbackId, capture: bool): Registry
  {
    if ' ' in name then BindAll(r, scenes, n, PopTokens(Split(name, ' ')), cb, capture)
    else BindOne(r, scenes, n, name, cb, capture)
  }

  // -------------------------------------------------------------- unbind

  /** What `unbind` was given: the namespace parsed from the name, and the
      callback and capture flag when they were not `undefined`. */
  datatype Query = Query(namespace: Option<string>, callback: Option<CallbackId>, useCapture: Option<bool>)

  /** The three matching rules of `unbind` (lines 343-363). With no callback,
      a missing or empty namespace (`!namespace`) matches every entry. */
  predicate Matches(h: Handler, q: Query)
  {
    if q.callback.None? then
      q.namespace.None? || q.namespace == Some("") || h.namespace == q.namespace
    else if q.useCapture.None? then
      h.callback == q.callback.value && h.namespace == q.namespace
    else
      h.callback == q.callback.value && h.useCapture == q.useCapture.value && h.namespace == q.namespace
  }

  /** The entries that do not match, in their original order. */
  function Survivors(hs: seq<Handler>, q: Query): (rs: seq<Handler>)
    decreases |hs|
  {
    if hs == [] then []
    else (if Matches(hs[0], q) then [] else [hs[0]]) + Survivors(hs[1..], q)
  }

  /** Lines 387-397: when a scene node is unbound and the registered scene's
      lists are all empty, the scene is forgotten. */
  function SceneCleanup(r: Registry, scenes: set<Node>, n: Node): Registry
  {
    if n in scenes && r.scene.Some? && r.scene.value in r.events
       && !(exists k :: k in r.events[r.scene.value] && |r.events[r.scene.value][k]| > 0)
    then r.(scene := None)
    else r
  }

  /** Lines 337-373: drop the matching entries from the node's list and,
      when the list is left empty, the node from the index. */
  function DropMatching(r: Registry, n: Node, e: EventName, q: Query): Registry
    requires Bound(r.events, e, n).Some?
  {
    var hs := Survivors(r.events[n][e], q);
    var r1 := r.(events := r.events[n := r.events[n][e := hs]]);
    if |hs| == 0 && e in r1.items && IndexOf(r1.items[e], n) != -1
    then r1.(items := r1.items[e := RemoveAt(r1.items[e], IndexOf(r1.items[e], n))])
    else r1
  }

  /** `unbind` for a resolved name (lines 332-397). */
  function UnbindResolved(r: Registry, scenes: set<Node>, n: Node, e: EventName, q: Query): Registry
    decreases if e == "mouseover" || e == "mouseout" then 1 else 0
  {
    if Bound(r.events, e, n).None? then r
    else
      var r2 := DropMatching(r, n, e, q);
      // As written at line 379: both lookups read "mouseout".
      var boundOut := HasHandlers(r2.events, "mouseout", n);
      var boundOver := HasHandlers(r2.events, "mouseout", n);
      var r3 :=
        if (e == "mouseover" || e == "mouseout") && !boundOut && !boundOver
        then UnbindResolved(r2, scenes, n, "mousemove", Query(None, Some(Noop), None))
        else r2;
      SceneCleanup(r3, scenes, n)
  }

  /** `unbind` for a name without a space. */
  function UnbindOne(r: Registry, scenes: set<Node>, n: Node, name: string,
                     cb: Option<CallbackId>, capture: Option<bool>): Registry
  {
    var k := ParseName(name);
    UnbindResolved(r, scenes, n, k.name, Query(k.namespace, cb, capture))
  }

  /** `unbind` applied to each name in turn. */
  function UnbindAll(r: Registry, scenes: set<Node>, n: Node, names: seq<string>,
                     cb: Option<CallbackId>, capture: Option<bool>): Registry
    decreases |names|
  {
    if names == [] then r
    else UnbindAll(UnbindOne(r, scenes, n, names[0], cb, capture), scenes, n, names[1..], cb, capture)
  }

  /** `unbind(object3d, eventName, callback, useCapture)`. */
  function Unbind(r: Registry, scenes: set<Node>, n: Node, name: string,
                  cb: Option<CallbackId>, capture: Option<bool>): Registry
  {
    if ' ' in name then UnbindAll(r, scenes, n, PopTokens(Split(name, ' ')), cb, capture)
    else UnbindOne(r, scenes, n, name, cb, capture)
  }

  /** `removeEvents(object3d)`: unbind every known event name, then delete
      the node's `events` object. */
  function RemoveEvents(r: Registry, scenes: set<Node>, n: Node): Registry
  {
    var r1 := Unbind(r, scenes, n, EventNamesString, None, None);
    r1.(events := r1.events - {n})
  }
}

/** Invariants of the registry and what `bind`, `unbind` and `removeEvents`
    promise about the lists and the index. */
module RegistryFacts {
  import opened Base
  import opened Text
  import opened Registry

  /** The index is exact for `e`: it lists each node at most once, and
      exactly the nodes that have at least one handler for `e`. */
  ghost predicate IndexedOn(r: Registry, e: EventName)
  {
    && NoDup(Items(r, e))
    && forall m :: m in Items(r, e) <==> HasHandlers(r.events, e, m)
  }

  /** The index is exact for every known event name. */
  ghost predicate Indexed(r: Registry)
  {
    forall e :: e in EventNames ==> IndexedOn(r, e)
  }

  lemma EmptyIndexed()
    ensures Indexed(EmptyRegistry)
  {
  }

  /** Registering appends `h` to the node's list for `e`, leaves every other
      list alone and indexes the node under `e` without duplicating it. */
  lemma RegisterEffect(r: Registry, scenes: set<Node>, n: Node, e: EventName, h: Handler)
    ensures var r' := Register(r, scenes, n, e, h);
      && Listening(r'.events, e, n) == Listening(r.events, e, n) + [h]
      && (forall m, k :: m != n || k != e ==> Bound(r'.events, k, m) == Bound(r.events, k, m))
      && n in Items(r', e)
      && (forall m :: m != n ==> (m in Items(r', e) <==> m in Items(r, e)))
      && (forall k :: k != e ==> Items(r', k) == Items(r, k))
      && (NoDup(Items(r, e)) ==> NoDup(Items(r', e)))
  {
    var r' := Register(r, scenes, n, e, h);
    var index := Items(r, e);
    if IndexOf(index, n) == -1 {
      assert Items(r', e) == index + [n];
      if NoDup(index) {
        forall i, j | 0 <= i < j < |index + [n]| ensures (index + [n])[i] != (index + [n])[j] {
          if j == |index| { assert index[i] in index; }
        }
      }
    }
  }

  /** After resolving the
      alias and namespace, `bind` appends exactly `{cb, !!capture, ns}` to the
      end of the node's list, changes no other node and no other name but
      "mousemove", and the node then occurs exactly once in the index. */
  lemma BindAppendsOnce(r: Registry, scenes: set<Node>, n: Node, name: string, cb: CallbackId, capture: bool)
    requires NoDup(Items(r, ParseName(name).name))
    ensures var k := ParseName(name);
      var r' := BindOne(r, scenes, n, name, cb, capture);
      && Listening(r'.events, k.name, n) == Listening(r.events, k.name, n) + [Handler(cb, capture, k.namespace)]
      && (forall m, e :: m != n ==> Bound(r'.events, e, m) == Bound(r.events, e, m))
      && (forall e :: e != k.name && e != "mousemove" ==> Bound(r'.events, e, n) == Bound(r.events, e, n))
      && NoDup(Items(r', k.name))
      && multiset(Items(r', k.name))[n] == 1
  {
    var k := ParseName(name);
    var h := Handler(cb, capture, k.namespace);
    var r1 := Register(r, scenes, n, k.name, h);
    RegisterEffect(r, scenes, n, k.name, h);
    var r' := BindOne(r, scenes, n, name, cb, capture);
    if r' != r1 {
      RegisterEffect(r1, scenes, n, "mousemove", NoopHandler);
    }
    NoDupOnce(Items(r', k.name), n);
  }

  /** Binding "mouseover" or
      "mouseout" on a node with no "mousemove" handler adds exactly one no-op
      "mousemove" handler; otherwise the "mousemove" list is left alone. */
  lemma ImplicitMousemove(r: Registry, scenes: set<Node>, n: Node, name: string, cb: CallbackId, capture: bool)
    requires ParseName(name).name != "mousemove"
    ensures var k := ParseName(name);
      var r' := BindOne(r, scenes, n, name, cb, capture);
      Listening(r'.events, "mousemove", n) ==
        if (k.name == "mouseover" || k.name == "mouseout") && !HasHandlers(r.events, "mousemove", n)
        then [NoopHandler]
        else Listening(r.events, "mousemove", n)
  {
    var k := ParseName(name);
    var r1 := Register(r, scenes, n, k.name, Handler(cb, capture, k.namespace));
    RegisterEffect(r, scenes, n, k.name, Handler(cb, capture, k.namespace));
    assert Bound(r1.events, "mousemove", n) == Bound(r.events, "mousemove", n);
    if (k.name == "mouseover" || k.name == "mouseout") && !HasHandlers(r.events, "mousemove", n) {
      RegisterEffect(r1, scenes, n, "mousemove", NoopHandler);
    }
  }

  /** The survivors are exactly the entries that do not match. */
  lemma {:induction false} SurvivorsMembers(hs: seq<Handler>, q: Query)
    decreases |hs|
    ensures |Survivors(hs, q)| <= |hs|
    ensures forall h :: h in Survivors(hs, q) <==> h in hs && !Matches(h, q)
  {
    if hs != [] {
      SurvivorsMembers(hs[1..], q);
      assert hs == [hs[0]] + hs[1..];
    }
  }

  /** Filtering works piecewise, so surviving entries keep their relative
      order. */
  lemma {:induction false} SurvivorsConcat(a: seq<Handler>, b: seq<Handler>, q: Query)
    decreases |a|
    ensures Survivors(a + b, q) == Survivors(a, q) + Survivors(b, q)
  {
    if a != [] {
      assert (a + b)[0] == a[0];
      assert (a + b)[1..] == a[1..] + b;
      SurvivorsConcat(a[1..], b, q);
    } else {
      assert a + b == b;
    }
  }

  /** `unbind` with neither callback nor namespace empties the list. */
  lemma SurvivorsOfUnqualified(hs: seq<Handler>, ns: Option<string>, capture: Option<bool>)
    requires ns.None? || ns == Some("")
    ensures Survivors(hs, Query(ns, None, capture)) == []
  {
    var q := Query(ns, None, capture);
    SurvivorsMembers(hs, q);
  }

  /** The node's list for `e`
      becomes the non-matching entries in their original order, other nodes
      and other names (but "mousemove") are untouched, and a list left empty
      takes the node out of the index. */
  lemma DropMatchingEffect(r: Registry, n: Node, e: EventName, q: Query)
    requires Bound(r.events, e, n).Some?
    ensures var r' := DropMatching(r, n, e, q);
      && Listening(r'.events, e, n) == Survivors(r.events[n][e], q)
      && (forall m, k :: m != n || k != e ==> Bound(r'.events, k, m) == Bound(r.events, k, m))
      && (forall k :: k != e ==> Items(r', k) == Items(r, k))
      && r'.scene == r.scene
      && (NoDup(Items(r, e)) && Survivors(r.events[n][e], q) == [] ==> n !in Items(r', e))
  {
    var hs := Survivors(r.events[n][e], q);
    if |hs| == 0 && NoDup(Items(r, e)) && n in Items(r, e) {
      RemoveFirstNoDup(Items(r, e), n);
    }
  }

  lemma UnbindEffect(r: Registry, scenes: set<Node>, n: Node, e: EventName, q: Query)
    requires Bound(r.events, e, n).Some?
    decreases if e == "mouseover" || e == "mouseout" then 1 else 0
    ensures var r' := UnbindResolved(r, scenes, n, e, q);
      && Listening(r'.events, e, n) == Survivors(r.events[n][e], q)
      && (forall m, k :: m != n ==> Bound(r'.events, k, m) == Bound(r.events, k, m))
      && (forall k :: k != e && k != "mousemove" ==> Bound(r'.events, k, n) == Bound(r.events, k, n))
      && (forall k :: k != e && k != "mousemove" ==> Items(r', k) == Items(r, k))
      && (NoDup(Items(r, e)) && Survivors(r.events[n][e], q) == [] ==> n !in Items(r', e))
  {
    var r2 := DropMatching(r, n, e, q);
    DropMatchingEffect(r, n, e, q);
    var hover := (e == "mouseover" || e == "mouseout") && !HasHandlers(r2.events, "mouseout", n);
    var r3 := if hover then UnbindResolved(r2, scenes, n, "mousemove", Query(None, Some(Noop), None)) else r2;
    SceneCleanupKeepsLists(r3, scenes, n);
    assert UnbindResolved(r, scenes, n, e, q) == SceneCleanup(r3, scenes, n);
    if hover && Bound(r2.events, "mousemove", n).Some? {
      UnbindEffect(r2, scenes, n, "mousemove", Query(None, Some(Noop), None));
    }
  }

  /** The scene cleanup touches neither the lists nor the index. */
  lemma SceneCleanupKeepsLists(r: Registry, scenes: set<Node>, n: Node)
    ensures SceneCleanup(r, scenes, n).events == r.events
    ensures SceneCleanup(r, scenes, n).items == r.items
  {
  }

  /** Line 379 as written: unbinding "mouseover" or "mouseout" drops the
      no-op "mousemove" entries exactly when no "mouseout" handler is left;
      remaining "mouseover" handlers are not consulted, so a node that keeps
      only "mouseover" handlers loses its hover tracking. */
  lemma HoverTrackingRemoval(r: Registry, scenes: set<Node>, n: Node, e: EventName, q: Query)
    requires e == "mouseover" || e == "mouseout"
    requires Bound(r.events, e, n).Some?
    ensures var outLeft :=
        if e == "mouseout" then Survivors(r.events[n][e], q) else Listening(r.events, "mouseout", n);
      Listening(UnbindResolved(r, scenes, n, e, q).events, "mousemove", n) ==
        if |outLeft| > 0 then Listening(r.events, "mousemove", n)
        else Survivors(Listening(r.events, "mousemove", n), Query(None, Some(Noop), None))
  {
    var r2 := DropMatching(r, n, e, q);
    DropMatchingEffect(r, n, e, q);
    if !HasHandlers(r2.events, "mouseout", n) && Bound(r2.events, "mousemove", n).Some? {
      UnbindEffect(r2, scenes, n, "mousemove", Query(None, Some(Noop), None));
    }
  }

  // ---------------------------------------------------- the registered scene

  /** The registered scene, when there is one, is a scene node. */
  ghost predicate SceneIsScene(r: Registry, scenes: set<Node>)
  {
    r.scene.Some? ==> r.scene.value in scenes
  }

  /** The node has an `events` table and every list in it is empty (the
      test of lines 389-395). */
  ghost predicate EmptyLists(events: map<Node, Listeners>, s: Node)
  {
    s in events && forall k :: k in events[s] ==> |events[s][k]| == 0
  }

  /** Binding one name on a scene node registers it as the scene when none
      is registered yet; a registered scene is never replaced, and binding on
      any other node leaves the scene alone. */
  lemma BindOneScene(r: Registry, scenes: set<Node>, n: Node, name: string, cb: CallbackId, capture: bool)
    ensures BindOne(r, scenes, n, name, cb, capture).scene ==
      if n in scenes && r.scene.None? then Some(n) else r.scene
  {
  }

  lemma {:induction false} BindAllScene(r: Registry, scenes: set<Node>, n: Node, names: seq<string>,
                                        cb: CallbackId, capture: bool)
    decreases |names|
    ensures BindAll(r, scenes, n, names, cb, capture).scene ==
      if n in scenes && r.scene.None? && names != [] then Some(n) else r.scene
  {
    if names != [] {
      BindOneScene(r, scenes, n, names[0], cb, capture);
      BindAllScene(BindOne(r, scenes, n, names[0], cb, capture), scenes, n, names[1..], cb, capture);
    }
  }

  /** `bind` (lines 277-281): a scene node becomes the registered scene when
      none is registered and at least one name is bound; otherwise the scene
      is unchanged. The scene therefore stays a scene node. */
  lemma BindScene(r: Registry, scenes: set<Node>, n: Node, name: string, cb: CallbackId, capture: bool)
    ensures var r' := Bind(r, scenes, n, name, cb, capture);
      r'.scene ==
        if n in scenes && r.scene.None? && (' ' !in name || PopTokens(Split(name, ' ')) != [])
        then Some(n) else r.scene
    ensures SceneIsScene(r, scenes) ==> SceneIsScene(Bind(r, scenes, n, name, cb, capture), scenes)
  {
    if ' ' in name {
      BindAllScene(r, scenes, n, PopTokens(Split(name, ' ')), cb, capture);
    } else {
      BindOneScene(r, scenes, n, name, cb, capture);
    }
  }

  /** `unbind` for a resolved name (lines 386-397): when the node had a list
      for the name, is a scene node, and the registered scene is left with an
      `events` table of empty lists, the scene is forgotten; in every other
      case it is unchanged. */
  lemma {:induction false} UnbindResolvedScene(r: Registry, scenes: set<Node>, n: Node, e: EventName, q: Query)
    decreases if e == "mouseover" || e == "mouseout" then 1 else 0
    ensures var r' := UnbindResolved(r, scenes, n, e, q);
      r'.scene ==
        if Bound(r.events, e, n).Some? && n in scenes && r.scene.Some? && EmptyLists(r'.events, r.scene.value)
        then None else r.scene
  {
    if Bound(r.events, e, n).Some? {
      var r2 := DropMatching(r, n, e, q);
      DropMatchingEffect(r, n, e, q);
      var hover := (e == "mouseover" || e == "mouseout") && !HasHandlers(r2.events, "mouseout", n);
      var r3 := if hover then UnbindResolved(r2, scenes, n, "mousemove", Query(None, Some(Noop), None)) else r2;
      if hover {
        UnbindResolvedScene(r2, scenes, n, "mousemove", Query(None, Some(Noop), None));
      }
      SceneCleanupKeepsLists(r3, scenes, n);
      assert UnbindResolved(r, scenes, n, e, q) == SceneCleanup(r3, scenes, n);
    }
  }

  lemma {:induction false} UnbindAllScene(r: Registry, scenes: set<Node>, n: Node, names: seq<string>,
                                          cb: Option<CallbackId>, capture: Option<bool>)
    decreases |names|
    ensures var r' := UnbindAll(r, scenes, n, names, cb, capture);
      r'.scene == r.scene || (n in scenes && r'.scene.None?)
  {
    if names != [] {
      var k := ParseName(names[0]);
      UnbindResolvedScene(r, scenes, n, k.name, Query(k.namespace, cb, capture));
      UnbindAllScene(UnbindOne(r, scenes, n, names[0], cb, capture), scenes, n, names[1..], cb, capture);
    }
  }

  /** `unbind` only ever forgets the scene, and only when a scene node is
      unbound; for one name it forgets it exactly as `UnbindResolvedScene`
      says. The scene therefore stays a scene node. */
  lemma UnbindScene(r: Registry, scenes: set<Node>, n: Node, name: string,
                    cb: Option<CallbackId>, capture: Option<bool>)
    ensures var r' := Unbind(r, scenes, n, name, cb, capture);
      r'.scene == r.scene || (n in scenes && r'.scene.None?)
    ensures var r' := Unbind(r, scenes, n, name, cb, capture);
      ' ' !in name ==>
        r'.scene ==
          if Bound(r.events, ParseName(name).name, n).Some? && n in scenes && r.scene.Some?
             && EmptyLists(r'.events, r.scene.value)
          then None else r.scene
    ensures SceneIsScene(r, scenes) ==> SceneIsScene(Unbind(r, scenes, n, name, cb, capture), scenes)
  {
    if ' ' in name {
      UnbindAllScene(r, scenes, n, PopTokens(Split(name, ' ')), cb, capture);
    } else {
      var k := ParseName(name);
      UnbindResolvedScene(r, scenes, n, k.name, Query(k.namespace, cb, capture));
    }
  }

  /** `removeEvents` forgets the scene at most, and only for a scene node. */
  lemma RemoveEventsScene(r: Registry, scenes: set<Node>, n: Node)
    ensures var r' := RemoveEvents(r, scenes, n);
      r'.scene == r.scene || (n in scenes && r'.scene.None?)
    ensures SceneIsScene(r, scenes) ==> SceneIsScene(RemoveEvents(r, scenes, n), scenes)
  {
    UnbindScene(r, scenes, n, EventNamesString, None, None);
  }

  // ------------------------------------------------ the index invariant

  lemma RegisterIndexed(r: Registry, scenes: set<Node>, n: Node, e0: EventName, h: Handler, e: EventName)
    requires IndexedOn(r, e)
    ensures IndexedOn(Register(r, scenes, n, e0, h), e)
  {
    RegisterEffect(r, scenes, n, e0, h);
  }

  lemma BindOneIndexed(r: Registry, scenes: set<Node>, n: Node, name: string, cb: CallbackId, capture: bool, e: EventName)
    requires IndexedOn(r, e)
    ensures IndexedOn(BindOne(r, scenes, n, name, cb, capture), e)
  {
    var k := ParseName(name);
    var r1 := Register(r, scenes, n, k.name, Handler(cb, capture, k.namespace));
    RegisterIndexed(r, scenes, n, k.name, Handler(cb, capture, k.namespace), e);
    RegisterIndexed(r1, scenes, n, "mousemove", NoopHandler, e);
  }

  lemma {:induction false} BindAllIndexed(r: Registry, scenes: set<Node>, n: Node, names: seq<string>,
                                          cb: CallbackId, capture: bool, e: EventName)
    requires IndexedOn(r, e)
    decreases |names|
    ensures IndexedOn(BindAll(r, scenes, n, names, cb, capture), e)
  {
    if names != [] {
      BindOneIndexed(r, scenes, n, names[0], cb, capture, e);
      BindAllIndexed(BindOne(r, scenes, n, names[0], cb, capture), scenes, n, names[1..], cb, capture, e);
    }
  }

  /** `bind` keeps the index exact for every name. */
  lemma BindIndexed(r: Registry, scenes: set<Node>, n: Node, name: string, cb: CallbackId, capture: bool)
    ensures forall e :: IndexedOn(r, e) ==> IndexedOn(Bind(r, scenes, n, name, cb, capture), e)
  {
    forall e | IndexedOn(r, e) ensures IndexedOn(Bind(r, scenes, n, name, cb, capture), e) {
      if ' ' in name {
        BindAllIndexed(r, scenes, n, PopTokens(Split(name, ' ')), cb, capture, e);
      } else {
        BindOneIndexed(r, scenes, n, name, cb, capture, e);
      }
    }
  }

  lemma DropMatchingIndexed(r: Registry, n: Node, e0: EventName, q: Query, e: EventName)
    requires Bound(r.events, e0, n).Some?
    requires IndexedOn(r, e)
    ensures IndexedOn(DropMatching(r, n, e0, q), e)
  {
    var hs := Survivors(r.events[n][e0], q);
    SurvivorsMembers(r.events[n][e0], q);
    DropMatchingEffect(r, n, e0, q);
    var r' := DropMatching(r, n, e0, q);
    if e == e0 {
      if |hs| == 0 && n in Items(r, e) {
        RemoveFirstNoDup(Items(r, e), n);
      }
      forall m ensures m in Items(r', e) <==> HasHandlers(r'.events, e, m) {
        if m == n && |hs| > 0 {
          assert n in Items(r, e);
        }
      }
    }
  }

  lemma UnbindResolvedIndexed(r: Registry, scenes: set<Node>, n: Node, e0: EventName, q: Query, e: EventName)
    requires IndexedOn(r, e)
    decreases if e0 == "mouseover" || e0 == "mouseout" then 1 else 0
    ensures IndexedOn(UnbindResolved(r, scenes, n, e0, q), e)
  {
    if Bound(r.events, e0, n).Some? {
      var r2 := DropMatching(r, n, e0, q);
      DropMatchingIndexed(r, n, e0, q, e);
      if (e0 == "mouseover" || e0 == "mouseout") && !HasHandlers(r2.events, "mouseout", n) {
        UnbindResolvedIndexed(r2, scenes, n, "mousemove", Query(None, Some(Noop), None), e);
      }
    }
  }

  lemma {:induction false} UnbindAllIndexed(r: Registry, scenes: set<Node>, n: Node, names: seq<string>,
                                            cb: Option<CallbackId>, capture: Option<bool>, e: EventName)
    requires IndexedOn(r, e)
    decreases |names|
    ensures IndexedOn(UnbindAll(r, scenes, n, names, cb, capture), e)
  {
    if names != [] {
      var k := ParseName(names[0]);
      UnbindResolvedIndexed(r, scenes, n, k.name, Query(k.namespace, cb, capture), e);
      UnbindAllIndexed(UnbindOne(r, scenes, n, names[0], cb, capture), scenes, n, names[1..], cb, capture, e);
    }
  }

  /** `unbind` keeps the index exact for every name. */
  lemma UnbindIndexed(r: Registry, scenes: set<Node>, n: Node, name: string,
                      cb: Option<CallbackId>, capture: Option<bool>)
    ensures forall e :: IndexedOn(r, e) ==> IndexedOn(Unbind(r, scenes, n, name, cb, capture), e)
  {
    forall e | IndexedOn(r, e) ensures IndexedOn(Unbind(r, scenes, n, name, cb, capture), e) {
      if ' ' in name {
        UnbindAllIndexed(r, scenes, n, PopTokens(Split(name, ' ')), cb, capture, e);
      } else {
        var k := ParseName(name);
        UnbindResolvedIndexed(r, scenes, n, k.name, Query(k.namespace, cb, capture), e);
      }
    }
  }

  // ------------------------------------------------------ removeEvents

  /** Unbinding never gives a node a handler it did not have. */
  lemma UnbindResolvedKeepsCleared(r: Registry, scenes: set<Node>, n: Node, e0: EventName, q: Query,
                                   m: Node, k: EventName)
    requires !HasHandlers(r.events, k, m)
    decreases if e0 == "mouseover" || e0 == "mouseout" then 1 else 0
    ensures !HasHandlers(UnbindResolved(r, scenes, n, e0, q).events, k, m)
  {
    if Bound(r.events, e0, n).Some? {
      var r2 := DropMatching(r, n, e0, q);
      DropMatchingEffect(r, n, e0, q);
      SurvivorsMembers(r.events[n][e0], q);
      assert !HasHandlers(r2.events, k, m);
      if (e0 == "mouseover" || e0 == "mouseout") && !HasHandlers(r2.events, "mouseout", n) {
        UnbindResolvedKeepsCleared(r2, scenes, n, "mousemove", Query(None, Some(Noop), None), m, k);
      }
    }
  }

  lemma {:induction false} UnbindAllKeepsCleared(r: Registry, scenes: set<Node>, n: Node, names: seq<string>,
                                                 cb: Option<CallbackId>, capture: Option<bool>, m: Node, k: EventName)
    requires !HasHandlers(r.events, k, m)
    decreases |names|
    ensures !HasHandlers(UnbindAll(r, scenes, n, names, cb, capture).events, k, m)
  {
    if names != [] {
      var key := ParseName(names[0]);
      UnbindResolvedKeepsCleared(r, scenes, n, key.name, Query(key.namespace, cb, capture), m, k);
      UnbindAllKeepsCleared(UnbindOne(r, scenes, n, names[0], cb, capture), scenes, n, names[1..], cb, capture, m, k);
    }
  }

  /** Unbinding plain names with no callback clears each of them. */
  lemma {:induction false} UnbindAllClears(r: Registry, scenes: set<Node>, n: Node, names: seq<string>)
    requires forall i :: 0 <= i < |names| ==> '.' !in names[i] && Resolve(names[i]) == names[i]
    decreases |names|
    ensures forall i :: 0 <= i < |names| ==> !HasHandlers(UnbindAll(r, scenes, n, names, None, None).events, names[i], n)
  {
    if names != [] {
      var e := names[0];
      var q := Query(None, None, None);
      var r1 := UnbindOne(r, scenes, n, e, None, None);
      assert r1 == UnbindResolved(r, scenes, n, e, q);
      if Bound(r.events, e, n).Some? {
        UnbindEffect(r, scenes, n, e, q);
        SurvivorsOfUnqualified(r.events[n][e], None, None);
      }
      assert !HasHandlers(r1.events, e, n);
      UnbindAllClears(r1, scenes, n, names[1..]);
      UnbindAllKeepsCleared(r1, scenes, n, names[1..], None, None, n, e);
      forall i | 0 < i < |names|
        ensures !HasHandlers(UnbindAll(r, scenes, n, names, None, None).events, names[i], n)
      {
        assert names[i] == names[1..][i - 1];
      }
    }
  }

  /** Every known event name is a plain lower-case word and no alias. */
  lemma EventNamesPlain()
    ensures forall i :: 0 <= i < |EventNames| ==>
      && EventNames[i] != "" && ' ' !in EventNames[i] && '.' !in EventNames[i]
      && Resolve(EventNames[i]) == EventNames[i]
  {
    forall i | 0 <= i < |EventNames|
      ensures EventNames[i] != "" && ' ' !in EventNames[i] && '.' !in EventNames[i]
      ensures Resolve(EventNames[i]) == EventNames[i]
    {
      assert forall c :: c in EventNames[i] ==> 'a' <= c <= 'z';
      assert EventNames[i] != "tap" && EventNames[i] != "dbltap";
    }
  }

  /** Splitting a join of plain names and popping the parts visits every
      name. */
  lemma PopTokensOfJoin(names: seq<string>)
    requires |names| > 1
    requires forall i :: 0 <= i < |names| ==> names[i] != "" && ' ' !in names[i]
    ensures ' ' in Join(names, ' ')
    ensures forall e :: e in names ==> e in PopTokens(Split(Join(names, ' '), ' '))
    ensures forall t :: t in PopTokens(Split(Join(names, ' '), ' ')) ==> t in names
  {
    JoinHasSeparator(names, ' ');
    SplitJoin(names, ' ');
    var toks := PopTokens(names);
    assert |toks| == |names|;
    forall e | e in names ensures e in toks {
      var i :| 0 <= i < |names| && names[i] == e;
      assert toks[|names| - 1 - i] == e;
    }
  }

  /** `unbind(node, eventNamesString)` visits every known event name. */
  lemma EventNamesVisited()
    ensures ' ' in EventNamesString
    ensures forall e :: e in EventNames ==> e in PopTokens(Split(EventNamesString, ' '))
    ensures forall t :: t in PopTokens(Split(EventNamesString, ' ')) ==> '.' !in t && Resolve(t) == t
  {
    EventNamesPlain();
    PopTokensOfJoin(EventNames);
  }

  /** `unbind(node, eventNamesString)` clears the node's list for every known
      name and keeps the index exact for each of them. */
  lemma UnbindEventNames(r: Registry, scenes: set<Node>, n: Node)
    ensures var r1 := Unbind(r, scenes, n, EventNamesString, None, None);
      forall e :: e in EventNames ==> !HasHandlers(r1.events, e, n) && (IndexedOn(r, e) ==> IndexedOn(r1, e))
  {
    EventNamesVisited();
    var toks := PopTokens(Split(EventNamesString, ' '));
    var r1 := UnbindAll(r, scenes, n, toks, None, None);
    assert Unbind(r, scenes, n, EventNamesString, None, None) == r1;
    UnbindAllClears(r, scenes, n, toks);
    forall e | e in EventNames
      ensures !HasHandlers(r1.events, e, n) && (IndexedOn(r, e) ==> IndexedOn(r1, e))
    {
      if IndexedOn(r, e) {
        UnbindAllIndexed(r, scenes, n, toks, None, None, e);
      }
      var i :| 0 <= i < |toks| && toks[i] == e;
    }
  }

  lemma RemoveEventsThroughUnbind(r: Registry, scenes: set<Node>, n: Node, r1: Registry)
    requires r1 == Unbind(r, scenes, n, EventNamesString, None, None)
    ensures RemoveEvents(r, scenes, n) == r1.(events := r1.events - {n})
  {
  }

  /** For
      `removeEvents`: the node is left with no `events` object and, when the
      index was exact, it is listed under no known event name and the index
      stays exact for every known name. */
  lemma RemoveEventsClears(r: Registry, scenes: set<Node>, n: Node)
    ensures n !in RemoveEvents(r, scenes, n).events
    ensures forall e :: e in EventNames && IndexedOn(r, e) ==>
      IndexedOn(RemoveEvents(r, scenes, n), e) && n !in Items(RemoveEvents(r, scenes, n), e)
  {
    var r1 := Unbind(r, scenes, n, EventNamesString, None, None);
    RemoveEventsThroughUnbind(r, scenes, n, r1);
    UnbindEventNames(r, scenes, n);
    forall e | e in EventNames && IndexedOn(r, e)
      ensures IndexedOn(RemoveEvents(r, scenes, n), e) && n !in Items(RemoveEvents(r, scenes, n), e)
    {
      DropNodeIndexed(r1, n, e);
    }
  }

  /** Deleting the `events` object of a node that has no handler for `e`
      keeps the index exact for `e` and leaves the node out of it. */
  lemma DropNodeIndexed(r: Registry, n: Node, e: EventName)
    requires IndexedOn(r, e) && !HasHandlers(r.events, e, n)
    ensures IndexedOn(r.(events := r.events - {n}), e)
    ensures n !in Items(r.(events := r.events - {n}), e)
  {
  }

  /** `removeEvents` keeps the index exact. */
  lemma RemoveEventsIndexed(r: Registry, scenes: set<Node>, n: Node)
    requires Indexed(r)
    ensures Indexed(RemoveEvents(r, scenes, n))
  {
    RemoveEventsClears(r, scenes, n);
  }

  /** The two steps of `removeEvents` keep the index exact. */
  lemma RemoveEventsSteps(r: Registry, scenes: set<Node>, n: Node, r1: Registry)
    requires r1 == Unbind(r, scenes, n, EventNamesString, None, None)
    requires Indexed(r)
    ensures RemoveEvents(r, scenes, n) == r1.(events := r1.events - {n})
    ensures Indexed(r1.(events := r1.events - {n}))
  {
    RemoveEventsThroughUnbind(r, scenes, n, r1);
    RemoveEventsIndexed(r, scenes, n);
  }

  /** `bound` after `bind` reads the node's earlier list with the new entry
      at its end; after `removeEvents` it reads nothing, for every name. */
  lemma BoundAfterBindAndRemove(r: Registry, scenes: set<Node>, n: Node, name: string, cb: CallbackId, capture: bool)
    ensures var k := ParseName(name);
      Bound(BindOne(r, scenes, n, name, cb, capture).events, k.name, n) ==
        Some(Listening(r.events, k.name, n) + [Handler(cb, capture, k.namespace)])
    ensures forall e :: Bound(RemoveEvents(r, scenes, n).events, e, n) == None
  {
    var k := ParseName(name);
    var h := Handler(cb, capture, k.namespace);
    var r1 := Register(r, scenes, n, k.name, h);
    RegisterEffect(r, scenes, n, k.name, h);
    if BindOne(r, scenes, n, name, cb, capture) != r1 {
      RegisterEffect(r1, scenes, n, "mousemove", NoopHandler);
    }
  }
}
