/** The input handlers `onMouseMove`, `onMouseDown`, `onMouseUp`, `onClick`,
    `onDblClick`, `onContextmenu`, `onTouchStart`, `onTouchMove` and
    `onTouchEnd` as functions: from the pointer state, the registry and what
    the ray caster returned, to the new pointer state and the dispatch calls
    made, in order. */
module Pointer {
  import opened Base
  import opened Registry
  import opened Dispatch

  /** One of `event.changedTouches`: its identifier and the hits the ray
      caster returned for its position. */
  datatype TouchPoint = TouchPoint(id: TouchId, hits: seq<Hit>)

  /** The manager's pointer state: the hover target `selected`, the record of
      each active touch (`touches`), the `pool` of released records (an entry
      is None where `undefined` or `null` was pushed), the next fresh record,
      and the per-node `__isDown`, `__isRightDown` and `__touchData` fields
      kept as side tables. */
  datatype Pointers = Pointers(
    selected: Option<Node>,
    touches: map<TouchId, RecordId>,
    pool: seq<Option<RecordId>>,
    nextRecord: RecordId,
    isDown: set<Node>,
    isRightDown: set<Node>,
    touchData: map<(Node, TouchId), RecordId>)

  const InitialPointers: Pointers := Pointers(None, map[], [], MouseRecord + 1, {}, {}, map[])

  /** What a handler did: the new state, its dispatch calls in order, and
      whether it ended in a TypeError (state changes made before it stay). */
  datatype Step = Step(ptr: Pointers, emitted: seq<Emission>, threw: bool)

  /** `for (i = xs.length - 1; i >= 0; i--) dispatch(e, xs[i].object, xs[i], data)`. */
  function EachHit(e: EventName, xs: seq<Hit>, data: Option<RecordId>): (ems: seq<Emission>)
    decreases |xs|
    ensures |ems| == |xs|
    ensures forall k :: 0 <= k < |xs| ==>
      ems[k] == Emission(e, xs[|xs| - 1 - k].obj, Some(xs[|xs| - 1 - k]), data)
  {
    if xs == [] then []
    else [Emission(e, xs[|xs| - 1].obj, Some(xs[|xs| - 1]), data)] + EachHit(e, xs[..|xs| - 1], data)
  }

  // ---------------------------------------------------------------- mouse

  /** Lines 643-654: the old target is left and the nearest hit entered,
      when they differ. */
  function HoverChange(selected: Option<Node>, x: Hit): seq<Emission>
  {
    var out := if selected.Some? && selected.value != x.obj
               then [Emission("mouseout", selected.value, None, None)] else [];
    var over := if selected != Some(x.obj) then [Emission("mouseover", x.obj, Some(x), None)] else [];
    out + over
  }

  /** `onMouseMove` (lines 606-663). */
  function MouseMove(p: Pointers, r: Registry, enabled: bool, hits: seq<Hit>): Step
  {
    if !enabled || !HasItems(r, "mousemove") then Step(p, [], false)
    else
      var xs := Intersect(r.scene, hits);
      if |xs| > 0 then
        Step(p.(selected := Some(xs[0].obj)), EachHit("mousemove", xs, None) + HoverChange(p.selected, xs[0]), false)
      else
        var out := if p.selected.Some? then [Emission("mouseout", p.selected.value, None, None)] else [];
        Step(p.(selected := None), out, false)
  }

  /** `event.button === 2 || event.which === 3`. */
  predicate IsRightButton(button: int, which: int)
  {
    button == 2 || which == 3
  }

  /** `onMouseDown` (lines 665-701): the down flag of the button is set on
      every hit object. */
  function MouseDown(p: Pointers, r: Registry, enabled: bool, right: bool, hits: seq<Hit>): Step
  {
    var down := if right then "rightdown" else "mousedown";
    if !enabled || !HasItems(r, down) then Step(p, [], false)
    else
      var xs := Intersect(r.scene, hits);
      var p' := if right then p.(isRightDown := p.isRightDown + Objects(xs))
                else p.(isDown := p.isDown + Objects(xs));
      Step(p', EachHit(down, xs, None), false)
  }

  /** The result of the up-outside sweep. */
  datatype Sweep = Sweep(flags: set<Node>, emitted: seq<Emission>)

  /** Lines 743-751: walk the registered nodes from the last; each one still
      flagged gets the up-outside event and loses its flag. */
  function UpSweep(flags: set<Node>, items: seq<Node>, e: EventName): Sweep
    decreases |items|
  {
    if items == [] then Sweep(flags, [])
    else
      var n := items[|items| - 1];
      if n in flags then
        var rest := UpSweep(flags - {n}, items[..|items| - 1], e);
        Sweep(rest.flags, [Emission(e, n, None, None)] + rest.emitted)
      else UpSweep(flags, items[..|items| - 1], e)
  }

  /** `onMouseUp` (lines 703-753). */
  function MouseUp(p: Pointers, r: Registry, enabled: bool, right: bool, hits: seq<Hit>): Step
  {
    if !enabled then Step(p, [], false)
    else
      var up := if right then "rightup" else "mouseup";
      var outside := if right then "rightupoutside" else "mouseupoutside";
      var flags := if right then p.isRightDown else p.isDown;
      var xs := if HasItems(r, up) then Intersect(r.scene, hits) else [];
      var sweep := UpSweep(flags - Objects(xs), Items(r, outside), outside);
      var p' := if right then p.(isRightDown := sweep.flags) else p.(isDown := sweep.flags);
      Step(p', EachHit(up, xs, None) + sweep.emitted, false)
  }

  /** The body shared by `onClick`, `onDblClick` and `onContextmenu`. */
  function Broadcast(r: Registry, enabled: bool, e: EventName, hits: seq<Hit>): seq<Emission>
  {
    if !enabled || !HasItems(r, e) then [] else EachHit(e, Intersect(r.scene, hits), None)
  }

  // ---------------------------------------------------------------- touch

  datatype Acquired = Acquired(ptr: Pointers, rec: RecordId)

  /** `this.pool.pop() || new THREE.InteractionData()`. */
  function Acquire(p: Pointers): Acquired
  {
    var popped := if |p.pool| > 0 then p.pool[|p.pool| - 1] else None;
    var p1 := if |p.pool| > 0 then p.(pool := p.pool[..|p.pool| - 1]) else p;
    if popped.Some? then Acquired(p1, popped.value)
    else Acquired(p1.(nextRecord := p1.nextRecord + 1), p1.nextRecord)
  }

  /** Lines 940-947, for one touch and its hits from the last. */
  function StartHits(p: Pointers, id: TouchId, rec: RecordId, xs: seq<Hit>): Step
    decreases |xs|
  {
    if xs == [] then Step(p, [], false)
    else
      var x := xs[|xs| - 1];
      var p1 := p.(touchData := p.touchData[(x.obj, id) := rec], isDown := p.isDown + {x.obj});
      var rest := StartHits(p1, id, rec, xs[..|xs| - 1]);
      Step(rest.ptr, [Emission("touchstart", x.obj, Some(x), Some(rec))] + rest.emitted, false)
  }

  /** Lines 931-948, one changed touch: it takes a record, is tracked under
      its identifier and starts on what it hits. */
  function StartTouch(p: Pointers, scene: Option<Node>, t: TouchPoint): Step
  {
    var a := Acquire(p);
    var p2 := a.ptr.(touches := a.ptr.touches[t.id := a.rec]);
    StartHits(p2, t.id, a.rec, Intersect(scene, t.hits))
  }

  /** Lines 929-949: each changed touch in order. */
  function TouchStartEach(p: Pointers, scene: Option<Node>, ts: seq<TouchPoint>): Step
    decreases |ts|
  {
    if ts == [] then Step(p, [], false)
    else
      var s1 := StartTouch(p, scene, ts[0]);
      var s2 := TouchStartEach(s1.ptr, scene, ts[1..]);
      Step(s2.ptr, s1.emitted + s2.emitted, false)
  }

  /** `onTouchStart` (lines 902-950). */
  function TouchStart(p: Pointers, r: Registry, enabled: bool, ts: seq<TouchPoint>): Step
  {
    if !enabled || !HasItems(r, "touchstart") then Step(p, [], false)
    else TouchStartEach(p, r.scene, ts)
  }

  /** Lines 890-897: hits from the last; only objects holding a record for
      this touch get "touchmove", with that record. */
  function MoveHits(p: Pointers, id: TouchId, xs: seq<Hit>): seq<Emission>
    decreases |xs|
  {
    if xs == [] then []
    else
      var x := xs[|xs| - 1];
      var here := if (x.obj, id) in p.touchData
                  then [Emission("touchmove", x.obj, Some(x), Some(p.touchData[(x.obj, id)]))] else [];
      here + MoveHits(p, id, xs[..|xs| - 1])
  }

  /** Lines 884-898, one tracked changed touch. */
  function MoveTouch(p: Pointers, scene: Option<Node>, t: TouchPoint): seq<Emission>
  {
    MoveHits(p, t.id, Intersect(scene, t.hits))
  }

  /** Lines 882-899. `intersect` writes into `this.touches[identifier]`, so a
      touch with no live record ends the handler with a TypeError. */
  function TouchMoveEach(p: Pointers, scene: Option<Node>, ts: seq<TouchPoint>): Step
    decreases |ts|
  {
    if ts == [] then Step(p, [], false)
    else if ts[0].id !in p.touches then Step(p, [], true)
    else
      var here := MoveTouch(p, scene, ts[0]);
      var rest := TouchMoveEach(p, scene, ts[1..]);
      Step(p, here + rest.emitted, rest.threw)
  }

  /** `onTouchMove` (lines 854-900). */
  function TouchMove(p: Pointers, r: Registry, enabled: bool, ts: seq<TouchPoint>): Step
  {
    if !enabled || !HasItems(r, "touchmove") then Step(p, [], false)
    else TouchMoveEach(p, r.scene, ts)
  }

  /** Lines 988-997: hits from the last; an object holding a record for this
      touch gets "touchend" and loses its down flag and that record. */
  function EndHits(p: Pointers, id: TouchId, xs: seq<Hit>): Step
    decreases |xs|
  {
    if xs == [] then Step(p, [], false)
    else
      var x := xs[|xs| - 1];
      if (x.obj, id) in p.touchData then
        var em := Emission("touchend", x.obj, Some(x), Some(p.touchData[(x.obj, id)]));
        var p1 := p.(isDown := p.isDown - {x.obj}, touchData := p.touchData - {(x.obj, id)});
        var rest := EndHits(p1, id, xs[..|xs| - 1]);
        Step(rest.ptr, [em] + rest.emitted, false)
      else EndHits(p, id, xs[..|xs| - 1])
  }

  /** Lines 1000-1011: registered nodes from the last; one still down and
      holding a record for this touch gets "touchendoutside" and loses its
      down flag (its record is kept). */
  function EndOutside(p: Pointers, id: TouchId, items: seq<Node>): Step
    decreases |items|
  {
    if items == [] then Step(p, [], false)
    else
      var n := items[|items| - 1];
      if n in p.isDown && (n, id) in p.touchData then
        var em := Emission("touchendoutside", n, None, Some(p.touchData[(n, id)]));
        var rest := EndOutside(p.(isDown := p.isDown - {n}), id, items[..|items| - 1]);
        Step(rest.ptr, [em] + rest.emitted, false)
      else EndOutside(p, id, items[..|items| - 1])
  }

  /** Lines 984-1011, one tracked changed touch with "touchend" items
      registered: the hits, then the nodes released outside. */
  function EndTouch(p: Pointers, r: Registry, t: TouchPoint): Step
  {
    var s1 := EndHits(p, t.id, Intersect(r.scene, t.hits));
    var s2 := EndOutside(s1.ptr, t.id, Items(r, "touchend"));
    Step(s2.ptr, s1.emitted + s2.emitted, false)
  }

  /** Lines 976-1013: each changed touch in order. */
  function TouchEndEach(p: Pointers, r: Registry, ts: seq<TouchPoint>): Step
    decreases |ts|
  {
    if ts == [] then Step(p, [], false)
    else if !HasItems(r, "touchend") then TouchEndEach(p, r, ts[1..])
    else if ts[0].id !in p.touches then Step(p, [], true)
    else
      var s := EndTouch(p, r, ts[0]);
      var s3 := TouchEndEach(s.ptr, r, ts[1..]);
      Step(s3.ptr, s.emitted + s3.emitted, s3.threw)
  }

  /** `onTouchEnd` (lines 952-1018). After the loop only the last touch's
      record goes back to the pool and only its slot is cleared
      (lines 1016-1017); with no changed touch, `undefined` is pushed and
      reading `touchEvent.identifier` throws. */
  function TouchEnd(p: Pointers, r: Registry, enabled: bool, ts: seq<TouchPoint>): Step
  {
    if !enabled then Step(p, [], false)
    else
      var s := TouchEndEach(p, r, ts);
      if s.threw then s
      else if ts == [] then Step(s.ptr.(pool := s.ptr.pool + [None]), s.emitted, true)
      else
        var last := ts[|ts| - 1].id;
        var released := if last in s.ptr.touches then Some(s.ptr.touches[last]) else None;
        Step(s.ptr.(pool := s.ptr.pool + [released], touches := s.ptr.touches - {last}), s.emitted, false)
  }
}

/** What the input handlers promise. */
module PointerFacts {
  import opened Base
  import opened Text
  import opened Registry
  import opened Dispatch
  import opened Pointer

  // ---------------------------------------------------------------- hover

  /** The hover state machine of `onMouseMove`: the nearest hit becomes
      `selected` (nothing hit clears it), every hit gets "mousemove",
      farthest first, and then the old target gets "mouseout" and the new one
      "mouseover" exactly when the target changed. */
  lemma HoverTransition(p: Pointers, r: Registry, hits: seq<Hit>)
    requires HasItems(r, "mousemove")
    ensures var s := MouseMove(p, r, true, hits);
            var xs := Intersect(r.scene, hits);
            && !s.threw
            && s.ptr.selected == (if |xs| > 0 then Some(xs[0].obj) else None)
            && s.ptr == p.(selected := s.ptr.selected)
            && |xs| <= |s.emitted| <= |xs| + 2
            && (forall k :: 0 <= k < |xs| ==>
                  s.emitted[k] == Emission("mousemove", xs[|xs| - 1 - k].obj, Some(xs[|xs| - 1 - k]), None))
            && (forall k :: |xs| <= k < |s.emitted| ==>
                  s.emitted[k].eventName == "mouseout" || s.emitted[k].eventName == "mouseover")
            && (forall n: Node :: Emission("mouseout", n, None, None) in s.emitted <==>
                  p.selected == Some(n) && s.ptr.selected != Some(n))
            && (forall n: Node, h :: Emission("mouseover", n, h, None) in s.emitted <==>
                  |xs| > 0 && s.ptr.selected == Some(n) && p.selected != Some(n) && h == Some(xs[0]))
            && (forall i, j ::
                  (0 <= i < |s.emitted| && 0 <= j < |s.emitted| &&
                   s.emitted[i].eventName == "mouseout" && s.emitted[j].eventName == "mouseover") ==> i < j)
  {
    var xs := Intersect(r.scene, hits);
    var moves := EachHit("mousemove", xs, None);
    forall em | em in moves ensures em.eventName == "mousemove" {
      var k :| 0 <= k < |moves| && moves[k] == em;
    }
  }

  /** The pointer enters a, moves straight onto b, then leaves everything. */
  lemma HoverWalk(r: Registry, a: Node, b: Node, da: nat, db: nat)
    requires HasItems(r, "mousemove") && r.scene.None? && a != b
    ensures var s1 := MouseMove(InitialPointers, r, true, [RayHit(a, da)]);
            var s2 := MouseMove(s1.ptr, r, true, [RayHit(b, db)]);
            var s3 := MouseMove(s2.ptr, r, true, []);
            && s1.emitted == [Emission("mousemove", a, Some(RayHit(a, da)), None),
                              Emission("mouseover", a, Some(RayHit(a, da)), None)]
            && s2.emitted == [Emission("mousemove", b, Some(RayHit(b, db)), None),
                              Emission("mouseout", a, None, None),
                              Emission("mouseover", b, Some(RayHit(b, db)), None)]
            && s3.emitted == [Emission("mouseout", b, None, None)]
            && s3.ptr == InitialPointers
  {
    assert Intersect(r.scene, [RayHit(a, da)]) == [RayHit(a, da)];
    assert Intersect(r.scene, [RayHit(b, db)]) == [RayHit(b, db)];
  }

  /** With a scene set, the scene is always hit last, so `selected` is never
      cleared; with no object hit the scene itself is selected. */
  lemma SceneKeepsSelection(p: Pointers, r: Registry, hits: seq<Hit>)
    requires HasItems(r, "mousemove") && r.scene.Some?
    ensures MouseMove(p, r, true, hits).ptr.selected.Some?
    ensures hits == [] ==> MouseMove(p, r, true, hits).ptr.selected == r.scene
  {
  }

  /** The loops `for (i = xs.length - 1; i >= 0; i--)` after one more step. */
  lemma EachHitStep(e: EventName, xs: seq<Hit>, i: nat, data: Option<RecordId>)
    requires 0 < i <= |xs|
    ensures EachHit(e, xs[i - 1..], data) ==
            EachHit(e, xs[i..], data) + [Emission(e, xs[i - 1].obj, Some(xs[i - 1]), data)]
  {
    var a, b := EachHit(e, xs[i - 1..], data), EachHit(e, xs[i..], data);
    assert |a| == |b| + 1;
    forall k | 0 <= k < |b| ensures a[k] == b[k] {
      assert xs[i - 1..][|xs[i - 1..]| - 1 - k] == xs[i..][|xs[i..]| - 1 - k];
    }
  }

  /** `StartHits` over the first `j` hits, after its step on hit `j - 1`. */
  lemma StartHitsStep(p: Pointers, id: TouchId, rec: RecordId, xs: seq<Hit>, j: nat)
    requires 0 < j <= |xs|
    ensures var x := xs[j - 1];
            var rest := StartHits(p.(touchData := p.touchData[(x.obj, id) := rec], isDown := p.isDown + {x.obj}),
                                  id, rec, xs[..j - 1]);
            StartHits(p, id, rec, xs[..j]) == Step(rest.ptr, [Emission("touchstart", x.obj, Some(x), Some(rec))] + rest.emitted, false)
  {
    assert xs[..j][..j - 1] == xs[..j - 1];
  }

  /** `goal` is what `StartHits` does from state `p` on the first `j` hits,
      after the calls `emitted` made for the hits after them. */
  ghost predicate StartHitsFrom(goal: Step, p: Pointers, id: TouchId, rec: RecordId, xs: seq<Hit>, j: nat, emitted: seq<Emission>)
    requires j <= |xs|
  {
    var rest := StartHits(p, id, rec, xs[..j]);
    goal.ptr == rest.ptr && goal.emitted == emitted + rest.emitted
  }

  lemma StartHitsFromStart(p: Pointers, id: TouchId, rec: RecordId, xs: seq<Hit>)
    ensures StartHitsFrom(StartHits(p, id, rec, xs), p, id, rec, xs, |xs|, [])
  {
    assert xs[..|xs|] == xs;
  }

  /** The hit loop of `onTouchStart` after one more hit. */
  lemma StartHitsFromStep(goal: Step, p: Pointers, id: TouchId, rec: RecordId, xs: seq<Hit>, j: nat, emitted: seq<Emission>)
    requires 0 < j <= |xs| && StartHitsFrom(goal, p, id, rec, xs, j, emitted)
    ensures var x := xs[j - 1];
            StartHitsFrom(goal, p.(touchData := p.touchData[(x.obj, id) := rec], isDown := p.isDown + {x.obj}),
                          id, rec, xs, j - 1, emitted + [Emission("touchstart", x.obj, Some(x), Some(rec))])
  {
    StartHitsStep(p, id, rec, xs, j);
    var x := xs[j - 1];
    var em := Emission("touchstart", x.obj, Some(x), Some(rec));
    var rest := StartHits(p.(touchData := p.touchData[(x.obj, id) := rec], isDown := p.isDown + {x.obj}), id, rec, xs[..j - 1]);
    assert emitted + ([em] + rest.emitted) == emitted + [em] + rest.emitted;
  }

  lemma StartHitsFromDone(goal: Step, p: Pointers, id: TouchId, rec: RecordId, xs: seq<Hit>, emitted: seq<Emission>)
    requires StartHitsFrom(goal, p, id, rec, xs, 0, emitted)
    ensures goal.ptr == p && goal.emitted == emitted
  {
    assert xs[..0] == [];
    assert emitted + [] == emitted;
  }

  /** `MoveHits` over the first `j` hits, after its step on hit `j - 1`. */
  lemma MoveHitsStep(p: Pointers, id: TouchId, xs: seq<Hit>, j: nat)
    requires 0 < j <= |xs|
    ensures var x := xs[j - 1];
            MoveHits(p, id, xs[..j])
            == (if (x.obj, id) in p.touchData
                then [Emission("touchmove", x.obj, Some(x), Some(p.touchData[(x.obj, id)]))] else [])
               + MoveHits(p, id, xs[..j - 1])
  {
    assert xs[..j][..j - 1] == xs[..j - 1];
  }

  /** `goal` is what `MoveHits` emits on the first `j` hits, after the calls
      `emitted` made for the hits after them. */
  ghost predicate MoveHitsFrom(goal: seq<Emission>, p: Pointers, id: TouchId, xs: seq<Hit>, j: nat, emitted: seq<Emission>)
    requires j <= |xs|
  {
    goal == emitted + MoveHits(p, id, xs[..j])
  }

  lemma MoveHitsFromStart(p: Pointers, id: TouchId, xs: seq<Hit>)
    ensures MoveHitsFrom(MoveHits(p, id, xs), p, id, xs, |xs|, [])
  {
    assert xs[..|xs|] == xs;
  }

  /** The hit loop of `onTouchMove` after one more hit. */
  lemma MoveHitsFromStep(goal: seq<Emission>, p: Pointers, id: TouchId, xs: seq<Hit>, j: nat, emitted: seq<Emission>)
    requires 0 < j <= |xs| && MoveHitsFrom(goal, p, id, xs, j, emitted)
    ensures var x := xs[j - 1];
            (x.obj, id) !in p.touchData ==> MoveHitsFrom(goal, p, id, xs, j - 1, emitted)
    ensures var x := xs[j - 1];
            (x.obj, id) in p.touchData ==>
              MoveHitsFrom(goal, p, id, xs, j - 1,
                           emitted + [Emission("touchmove", x.obj, Some(x), Some(p.touchData[(x.obj, id)]))])
  {
    MoveHitsStep(p, id, xs, j);
    var x := xs[j - 1];
    var rest := MoveHits(p, id, xs[..j - 1]);
    if (x.obj, id) in p.touchData {
      var em := Emission("touchmove", x.obj, Some(x), Some(p.touchData[(x.obj, id)]));
      assert emitted + ([em] + rest) == emitted + [em] + rest;
    } else {
      assert [] + rest == rest;
    }
  }

  lemma MoveHitsFromDone(goal: seq<Emission>, p: Pointers, id: TouchId, xs: seq<Hit>, emitted: seq<Emission>)
    requires MoveHitsFrom(goal, p, id, xs, 0, emitted)
    ensures goal == emitted
  {
    assert xs[..0] == [];
    assert emitted + [] == emitted;
  }

  /** `EndHits` over the first `j` hits, after its step on hit `j - 1`. */
  lemma EndHitsStep(p: Pointers, id: TouchId, xs: seq<Hit>, j: nat)
    requires 0 < j <= |xs|
    ensures var x := xs[j - 1];
            (x.obj, id) !in p.touchData ==> EndHits(p, id, xs[..j]) == EndHits(p, id, xs[..j - 1])
    ensures var x := xs[j - 1];
            (x.obj, id) in p.touchData ==>
              var rest := EndHits(p.(isDown := p.isDown - {x.obj}, touchData := p.touchData - {(x.obj, id)}),
                                  id, xs[..j - 1]);
              EndHits(p, id, xs[..j])
              == Step(rest.ptr, [Emission("touchend", x.obj, Some(x), Some(p.touchData[(x.obj, id)]))] + rest.emitted, false)
  {
    assert xs[..j][..j - 1] == xs[..j - 1];
  }

  /** `goal` is what `EndHits` does from state `p` on the first `j` hits,
      after the calls `emitted` made for the hits after them. */
  ghost predicate EndHitsFrom(goal: Step, p: Pointers, id: TouchId, xs: seq<Hit>, j: nat, emitted: seq<Emission>)
    requires j <= |xs|
  {
    var rest := EndHits(p, id, xs[..j]);
    goal.ptr == rest.ptr && goal.emitted == emitted + rest.emitted
  }

  lemma EndHitsFromStart(p: Pointers, id: TouchId, xs: seq<Hit>)
    ensures EndHitsFrom(EndHits(p, id, xs), p, id, xs, |xs|, [])
  {
    assert xs[..|xs|] == xs;
  }

  /** The hit loop of `onTouchEnd` after one more hit. */
  lemma EndHitsFromStep(goal: Step, p: Pointers, id: TouchId, xs: seq<Hit>, j: nat, emitted: seq<Emission>)
    requires 0 < j <= |xs| && EndHitsFrom(goal, p, id, xs, j, emitted)
    ensures var x := xs[j - 1];
            (x.obj, id) !in p.touchData ==> EndHitsFrom(goal, p, id, xs, j - 1, emitted)
    ensures var x := xs[j - 1];
            (x.obj, id) in p.touchData ==>
              EndHitsFrom(goal, p.(isDown := p.isDown - {x.obj}, touchData := p.touchData - {(x.obj, id)}), id, xs, j - 1,
                          emitted + [Emission("touchend", x.obj, Some(x), Some(p.touchData[(x.obj, id)]))])
  {
    EndHitsStep(p, id, xs, j);
    var x := xs[j - 1];
    if (x.obj, id) in p.touchData {
      var em := Emission("touchend", x.obj, Some(x), Some(p.touchData[(x.obj, id)]));
      var rest := EndHits(p.(isDown := p.isDown - {x.obj}, touchData := p.touchData - {(x.obj, id)}), id, xs[..j - 1]);
      assert emitted + ([em] + rest.emitted) == emitted + [em] + rest.emitted;
    }
  }

  lemma EndHitsFromDone(goal: Step, p: Pointers, id: TouchId, xs: seq<Hit>, emitted: seq<Emission>)
    requires EndHitsFrom(goal, p, id, xs, 0, emitted)
    ensures goal.ptr == p && goal.emitted == emitted
  {
    assert xs[..0] == [];
    assert emitted + [] == emitted;
  }

  /** `EndOutside` over the first `j` items, after its step on item `j - 1`. */
  lemma EndOutsideStep(p: Pointers, id: TouchId, items: seq<Node>, j: nat)
    requires 0 < j <= |items|
    ensures var n := items[j - 1];
            !(n in p.isDown && (n, id) in p.touchData) ==> EndOutside(p, id, items[..j]) == EndOutside(p, id, items[..j - 1])
    ensures var n := items[j - 1];
            n in p.isDown && (n, id) in p.touchData ==>
              var rest := EndOutside(p.(isDown := p.isDown - {n}), id, items[..j - 1]);
              EndOutside(p, id, items[..j])
              == Step(rest.ptr, [Emission("touchendoutside", n, None, Some(p.touchData[(n, id)]))] + rest.emitted, false)
  {
    assert items[..j][..j - 1] == items[..j - 1];
  }

  /** `goal` is what `EndOutside` does from state `p` on the first `j`
      items, after the calls `emitted` made for the items after them. */
  ghost predicate EndOutsideFrom(goal: Step, p: Pointers, id: TouchId, items: seq<Node>, j: nat, emitted: seq<Emission>)
    requires j <= |items|
  {
    var rest := EndOutside(p, id, items[..j]);
    goal.ptr == rest.ptr && goal.emitted == emitted + rest.emitted
  }

  lemma EndOutsideFromStart(p: Pointers, id: TouchId, items: seq<Node>)
    ensures EndOutsideFrom(EndOutside(p, id, items), p, id, items, |items|, [])
  {
    assert items[..|items|] == items;
  }

  /** The outside loop of `onTouchEnd` after one more item. */
  lemma EndOutsideFromStep(goal: Step, p: Pointers, id: TouchId, items: seq<Node>, j: nat, emitted: seq<Emission>)
    requires 0 < j <= |items| && EndOutsideFrom(goal, p, id, items, j, emitted)
    ensures var n := items[j - 1];
            !(n in p.isDown && (n, id) in p.touchData) ==> EndOutsideFrom(goal, p, id, items, j - 1, emitted)
    ensures var n := items[j - 1];
            n in p.isDown && (n, id) in p.touchData ==>
              EndOutsideFrom(goal, p.(isDown := p.isDown - {n}), id, items, j - 1,
                             emitted + [Emission("touchendoutside", n, None, Some(p.touchData[(n, id)]))])
  {
    EndOutsideStep(p, id, items, j);
    var n := items[j - 1];
    if n in p.isDown && (n, id) in p.touchData {
      var em := Emission("touchendoutside", n, None, Some(p.touchData[(n, id)]));
      var rest := EndOutside(p.(isDown := p.isDown - {n}), id, items[..j - 1]);
      assert emitted + ([em] + rest.emitted) == emitted + [em] + rest.emitted;
    }
  }

  lemma EndOutsideFromDone(goal: Step, p: Pointers, id: TouchId, items: seq<Node>, emitted: seq<Emission>)
    requires EndOutsideFrom(goal, p, id, items, 0, emitted)
    ensures goal.ptr == p && goal.emitted == emitted
  {
    assert items[..0] == [];
    assert emitted + [] == emitted;
  }

  /** `goal` is what `TouchStartEach` does from state `p` on the touches from
      `i` on, after the calls `emitted` made for the touches before. */
  ghost predicate StartsFrom(goal: Step, p: Pointers, scene: Option<Node>, ts: seq<TouchPoint>, i: nat, emitted: seq<Emission>)
    requires i <= |ts|
  {
    var rest := TouchStartEach(p, scene, ts[i..]);
    goal.ptr == rest.ptr && goal.emitted == emitted + rest.emitted
  }

  lemma StartsFromStart(p: Pointers, scene: Option<Node>, ts: seq<TouchPoint>)
    ensures StartsFrom(TouchStartEach(p, scene, ts), p, scene, ts, 0, [])
  {
    assert ts[0..] == ts;
  }

  /** The loop of `onTouchStart` after one more touch. */
  lemma StartsFromStep(goal: Step, p: Pointers, scene: Option<Node>, ts: seq<TouchPoint>, i: nat, emitted: seq<Emission>)
    requires i < |ts| && StartsFrom(goal, p, scene, ts, i, emitted)
    ensures var s := StartTouch(p, scene, ts[i]);
            StartsFrom(goal, s.ptr, scene, ts, i + 1, emitted + s.emitted)
  {
    assert ts[i..][1..] == ts[i + 1..];
    var s := StartTouch(p, scene, ts[i]);
    var rest := TouchStartEach(s.ptr, scene, ts[i + 1..]);
    assert emitted + (s.emitted + rest.emitted) == emitted + s.emitted + rest.emitted;
  }

  lemma StartsFromDone(goal: Step, p: Pointers, scene: Option<Node>, ts: seq<TouchPoint>, emitted: seq<Emission>)
    requires StartsFrom(goal, p, scene, ts, |ts|, emitted)
    ensures goal.ptr == p && goal.emitted == emitted
  {
    assert ts[|ts|..] == [];
    assert emitted + [] == emitted;
  }

  /** `goal` is what `TouchMoveEach` does from state `p` on the touches from
      `i` on, after the calls `emitted` made for the touches before. */
  ghost predicate MovesFrom(goal: Step, p: Pointers, scene: Option<Node>, ts: seq<TouchPoint>, i: nat, emitted: seq<Emission>)
    requires i <= |ts|
  {
    var rest := TouchMoveEach(p, scene, ts[i..]);
    goal.emitted == emitted + rest.emitted && goal.threw == rest.threw
  }

  lemma MovesFromStart(p: Pointers, scene: Option<Node>, ts: seq<TouchPoint>)
    ensures MovesFrom(TouchMoveEach(p, scene, ts), p, scene, ts, 0, [])
  {
    assert ts[0..] == ts;
  }

  /** The loop of `onTouchMove` after one more touch. */
  lemma MovesFromStep(goal: Step, p: Pointers, scene: Option<Node>, ts: seq<TouchPoint>, i: nat, emitted: seq<Emission>)
    requires i < |ts| && MovesFrom(goal, p, scene, ts, i, emitted)
    ensures ts[i].id !in p.touches ==> goal.emitted == emitted && goal.threw
    ensures ts[i].id in p.touches ==> MovesFrom(goal, p, scene, ts, i + 1, emitted + MoveTouch(p, scene, ts[i]))
  {
    assert ts[i..][1..] == ts[i + 1..];
    if ts[i].id in p.touches {
      var rest := TouchMoveEach(p, scene, ts[i + 1..]);
      var here := MoveTouch(p, scene, ts[i]);
      assert emitted + (here + rest.emitted) == emitted + here + rest.emitted;
    } else {
      assert emitted + [] == emitted;
    }
  }

  lemma MovesFromDone(goal: Step, p: Pointers, scene: Option<Node>, ts: seq<TouchPoint>, emitted: seq<Emission>)
    requires MovesFrom(goal, p, scene, ts, |ts|, emitted)
    ensures goal.emitted == emitted && !goal.threw
  {
    assert ts[|ts|..] == [];
    assert emitted + [] == emitted;
  }

  /** `goal` is what `TouchEndEach` does from state `p` on the touches from
      `i` on, after the calls `emitted` made for the touches before. */
  ghost predicate EndsFrom(goal: Step, p: Pointers, r: Registry, ts: seq<TouchPoint>, i: nat, emitted: seq<Emission>)
    requires i <= |ts|
  {
    var rest := TouchEndEach(p, r, ts[i..]);
    goal.ptr == rest.ptr && goal.emitted == emitted + rest.emitted && goal.threw == rest.threw
  }

  lemma EndsFromStart(p: Pointers, r: Registry, ts: seq<TouchPoint>)
    ensures EndsFrom(TouchEndEach(p, r, ts), p, r, ts, 0, [])
  {
    assert ts[0..] == ts;
  }

  /** The loop of `onTouchEnd` after one more touch. */
  lemma EndsFromStep(goal: Step, p: Pointers, r: Registry, ts: seq<TouchPoint>, i: nat, emitted: seq<Emission>)
    requires i < |ts| && EndsFrom(goal, p, r, ts, i, emitted)
    ensures !HasItems(r, "touchend") ==> EndsFrom(goal, p, r, ts, i + 1, emitted)
    ensures HasItems(r, "touchend") && ts[i].id !in p.touches ==> goal == Step(p, emitted, true)
    ensures HasItems(r, "touchend") && ts[i].id in p.touches ==>
              var s := EndTouch(p, r, ts[i]);
              EndsFrom(goal, s.ptr, r, ts, i + 1, emitted + s.emitted)
  {
    assert ts[i..][1..] == ts[i + 1..];
    if HasItems(r, "touchend") {
      if ts[i].id in p.touches {
        var s := EndTouch(p, r, ts[i]);
        var rest := TouchEndEach(s.ptr, r, ts[i + 1..]);
        assert emitted + (s.emitted + rest.emitted) == emitted + s.emitted + rest.emitted;
      } else {
        assert emitted + [] == emitted;
      }
    }
  }

  lemma EndsFromDone(goal: Step, p: Pointers, r: Registry, ts: seq<TouchPoint>, emitted: seq<Emission>)
    requires EndsFrom(goal, p, r, ts, |ts|, emitted)
    ensures goal == Step(p, emitted, false)
  {
    assert ts[|ts|..] == [];
    assert emitted + [] == emitted;
  }

  /** The objects of the hits from `i - 1` on. */
  lemma ObjectsStep(xs: seq<Hit>, i: nat)
    requires 0 < i <= |xs|
    ensures Objects(xs[i - 1..]) == Objects(xs[i..]) + {xs[i - 1].obj}
  {
    assert xs[i - 1..] == [xs[i - 1]] + xs[i..];
  }

  /** The objects of a run of hits, one hit at a time from the end. */
  lemma ObjectsLast(xs: seq<Hit>)
    requires xs != []
    ensures Objects(xs) == Objects(xs[..|xs| - 1]) + {xs[|xs| - 1].obj}
  {
    var xs' := xs[..|xs| - 1];
    forall o | o in Objects(xs) ensures o in Objects(xs') + {xs[|xs| - 1].obj} {
      var i :| 0 <= i < |xs| && xs[i].obj == o;
      if i < |xs| - 1 {
        assert xs'[i] == xs[i];
      }
    }
    forall o | o in Objects(xs') ensures o in Objects(xs) {
      var i :| 0 <= i < |xs'| && xs'[i].obj == o;
      assert xs[i] == xs'[i];
    }
  }

  lemma ObjectsHas(xs: seq<Hit>, x: Hit)
    requires x in xs
    ensures x.obj in Objects(xs)
  {
    var i :| 0 <= i < |xs| && xs[i] == x;
  }

  /** Every hit is sent the event with `data`, and nothing else is sent. */
  lemma EachHitSends(e: EventName, xs: seq<Hit>, data: Option<RecordId>)
    ensures forall x :: x in xs ==> Emission(e, x.obj, Some(x), data) in EachHit(e, xs, data)
    ensures forall em :: em in EachHit(e, xs, data) ==>
      em.eventName == e && em.hit.Some? && em.hit.value in xs && em.target == em.hit.value.obj && em.data == data
  {
    var ems := EachHit(e, xs, data);
    forall x | x in xs ensures Emission(e, x.obj, Some(x), data) in ems {
      var i :| 0 <= i < |xs| && xs[i] == x;
      assert ems[|xs| - 1 - i] == Emission(e, x.obj, Some(x), data);
    }
    forall em | em in ems ensures em.hit.Some? && em.hit.value in xs {
      var k :| 0 <= k < |ems| && ems[k] == em;
      assert xs[|xs| - 1 - k] in xs;
    }
  }

  // ---------------------------------------------------------------- buttons

  /** The pointer state apart from the button flags. */
  predicate SameButTheFlags(p: Pointers, q: Pointers)
  {
    p.selected == q.selected && p.touches == q.touches && p.pool == q.pool
    && p.nextRecord == q.nextRecord && p.touchData == q.touchData
  }

  function DownFlags(p: Pointers, right: bool): set<Node>
  {
    if right then p.isRightDown else p.isDown
  }

  /** `onMouseDown` sets the flag of the pressed button on exactly the hit
      objects and dispatches the down event to each of them, farthest first. */
  lemma DownMarksHits(p: Pointers, r: Registry, right: bool, hits: seq<Hit>)
    requires HasItems(r, if right then "rightdown" else "mousedown")
    ensures var s := MouseDown(p, r, true, right, hits);
            var xs := Intersect(r.scene, hits);
            && SameButTheFlags(p, s.ptr) && !s.threw
            && DownFlags(s.ptr, !right) == DownFlags(p, !right)
            && (forall n: Node :: n in DownFlags(s.ptr, right) <==>
                  n in DownFlags(p, right) || exists k :: 0 <= k < |xs| && xs[k].obj == n)
            && |s.emitted| == |xs|
            && (forall k :: 0 <= k < |xs| ==>
                  s.emitted[k] == Emission(if right then "rightdown" else "mousedown",
                                           xs[|xs| - 1 - k].obj, Some(xs[|xs| - 1 - k]), None))
  {
    var xs := Intersect(r.scene, hits);
    forall n | n in Objects(xs) ensures exists k :: 0 <= k < |xs| && xs[k].obj == n {
      var x :| x in xs && x.obj == n;
      var k :| 0 <= k < |xs| && xs[k] == x;
    }
  }

  /** The up-outside sweep clears the flag of every registered node, and
      dispatches once to each registered node that was still flagged and to no
      other node, even when a node is registered twice. */
  lemma {:induction false} SweepEffect(flags: set<Node>, items: seq<Node>, e: EventName)
    decreases |items|
    ensures var s := UpSweep(flags, items, e);
            && (forall n: Node :: n in s.flags <==> n in flags && n !in items)
            && (forall em :: em in s.emitted ==>
                  em == Emission(e, em.target, None, None) && em.target in flags && em.target in items)
            && (forall n: Node :: n in flags && n in items ==> Emission(e, n, None, None) in s.emitted)
            && NoDup(s.emitted)
  {
    if items != [] {
      var n := items[|items| - 1];
      var init := items[..|items| - 1];
      assert items == init + [n];
      if n in flags {
        SweepEffect(flags - {n}, init, e);
      } else {
        SweepEffect(flags, init, e);
      }
    }
  }

  /** `onMouseUp` clears the pressed button's flag on every object hit and
      every node registered for the up-outside event; that event reaches
      exactly the registered nodes that were pressed and not released over,
      each once. */
  lemma UpReleases(p: Pointers, r: Registry, right: bool, hits: seq<Hit>)
    ensures var s := MouseUp(p, r, true, right, hits);
            var up := if right then "rightup" else "mouseup";
            var outside := if right then "rightupoutside" else "mouseupoutside";
            var xs := if HasItems(r, up) then Intersect(r.scene, hits) else [];
            && SameButTheFlags(p, s.ptr) && !s.threw
            && DownFlags(s.ptr, !right) == DownFlags(p, !right)
            && (forall n: Node :: n in DownFlags(s.ptr, right) <==>
                  n in DownFlags(p, right) && n !in Objects(xs) && n !in Items(r, outside))
            && s.emitted[..|xs|] == EachHit(up, xs, None)
            && (forall n: Node :: Emission(outside, n, None, None) in s.emitted[|xs|..] <==>
                  n in DownFlags(p, right) && n !in Objects(xs) && n in Items(r, outside))
            && NoDup(s.emitted[|xs|..])
  {
    var up := if right then "rightup" else "mouseup";
    var outside := if right then "rightupoutside" else "mouseupoutside";
    var xs := if HasItems(r, up) then Intersect(r.scene, hits) else [];
    var sweep := UpSweep(DownFlags(p, right) - Objects(xs), Items(r, outside), outside);
    SweepEffect(DownFlags(p, right) - Objects(xs), Items(r, outside), outside);
    var s := MouseUp(p, r, true, right, hits);
    assert SameButTheFlags(p, s.ptr);
    assert DownFlags(s.ptr, right) == sweep.flags && DownFlags(s.ptr, !right) == DownFlags(p, !right);
    assert s.emitted == EachHit(up, xs, None) + sweep.emitted;
    assert s.emitted[|xs|..] == sweep.emitted;
  }

  /** A left press on a hit object leaves its down flag set. */
  lemma PressFlags(p: Pointers, r: Registry, a: Node, d: nat)
    requires HasItems(r, "mousedown")
    ensures a in MouseDown(p, r, true, false, [RayHit(a, d)]).ptr.isDown
  {
    DownMarksHits(p, r, false, [RayHit(a, d)]);
    assert Intersect(r.scene, [RayHit(a, d)])[0].obj == a;
  }

  /** A left release that hits nothing sends an object that is down and
      listens for "mouseupoutside" exactly one such event and clears its
      flag. */
  lemma ReleaseNowhere(q: Pointers, r: Registry, a: Node)
    requires a in q.isDown && r.scene != Some(a) && a in Items(r, "mouseupoutside")
    ensures var s := MouseUp(q, r, true, false, []);
            && a !in s.ptr.isDown
            && multiset(s.emitted)[Emission("mouseupoutside", a, None, None)] == 1
  {
    UpReleases(q, r, false, []);
    var s := MouseUp(q, r, true, false, []);
    var xs := if HasItems(r, "mouseup") then Intersect(r.scene, []) else [];
    assert a !in Objects(xs);
    var tail := s.emitted[|xs|..];
    assert a in DownFlags(q, false);
    assert Emission("mouseupoutside", a, None, None) in tail;
    NoDupOnce(tail, Emission("mouseupoutside", a, None, None));
    assert s.emitted == s.emitted[..|xs|] + tail;
    var e := EachHit("mouseup", xs, None);
    assert s.emitted[..|xs|] == e;
    assert Emission("mouseupoutside", a, None, None) !in e by {
      forall k | 0 <= k < |e| ensures e[k].eventName == "mouseup" { }
    }
  }

  /** Pressing on a and releasing away from it sends a exactly one
      "mouseupoutside" and clears its flag. */
  lemma PressThenReleaseOutside(p: Pointers, r: Registry, a: Node, d: nat)
    requires HasItems(r, "mousedown") && r.scene != Some(a) && a in Items(r, "mouseupoutside")
    ensures var s1 := MouseDown(p, r, true, false, [RayHit(a, d)]);
            var s2 := MouseUp(s1.ptr, r, true, false, []);
            && a in s1.ptr.isDown
            && a !in s2.ptr.isDown
            && multiset(s2.emitted)[Emission("mouseupoutside", a, None, None)] == 1
  {
    PressFlags(p, r, a, d);
    ReleaseNowhere(MouseDown(p, r, true, false, [RayHit(a, d)]).ptr, r, a);
  }

  /** `onClick`, `onDblClick` and `onContextmenu` change nothing and send
      their event to every hit object, farthest first. */
  lemma BroadcastReachesEveryHit(r: Registry, e: EventName, hits: seq<Hit>)
    requires HasItems(r, e)
    ensures var ems := Broadcast(r, true, e, hits);
            var xs := Intersect(r.scene, hits);
            && |ems| == |xs|
            && (forall x :: x in xs ==> Emission(e, x.obj, Some(x), None) in ems)
            && (forall em :: em in ems ==>
                  em.eventName == e && em.hit.Some? && em.hit.value in xs && em.target == em.hit.value.obj)
  {
    var xs := Intersect(r.scene, hits);
    var ems := EachHit(e, xs, None);
    forall x | x in xs ensures Emission(e, x.obj, Some(x), None) in ems {
      var i :| 0 <= i < |xs| && xs[i] == x;
      assert ems[|xs| - 1 - i] == Emission(e, x.obj, Some(x), None);
    }
  }

  // ---------------------------------------------------------------- records

  /** Every record in use was allocated before `nextRecord`, and the mouse
      record is never one of them. */
  ghost predicate RecordsBelow(p: Pointers)
  {
    && MouseRecord < p.nextRecord
    && (forall id :: id in p.touches ==> MouseRecord < p.touches[id] < p.nextRecord)
    && (forall i :: 0 <= i < |p.pool| && p.pool[i].Some? ==> MouseRecord < p.pool[i].value < p.nextRecord)
    && (forall k :: k in p.touchData ==> MouseRecord < p.touchData[k] < p.nextRecord)
  }

  /** The button flags and the hover target have no part in the record bound. */
  lemma FlagsKeepRecords(p: Pointers, q: Pointers)
    requires RecordsBelow(p)
    requires q.touches == p.touches && q.pool == p.pool && q.nextRecord == p.nextRecord && q.touchData == p.touchData
    ensures RecordsBelow(q)
  {
  }

  /** A touch gets the last pooled record when there is one, and otherwise a
      record no touch, pool entry or object holds. */
  lemma AcquireFresh(p: Pointers)
    requires RecordsBelow(p)
    ensures var a := Acquire(p);
            && RecordsBelow(a.ptr)
            && MouseRecord < a.rec < a.ptr.nextRecord
            && (|p.pool| > 0 && p.pool[|p.pool| - 1].Some? ==> a.rec == p.pool[|p.pool| - 1].value)
            && (|p.pool| == 0 || p.pool[|p.pool| - 1].None? ==>
                  a.rec == p.nextRecord
                  && (forall id :: id in p.touches ==> p.touches[id] != a.rec)
                  && (forall k :: k in p.touchData ==> p.touchData[k] != a.rec))
            && a.ptr.pool == (if |p.pool| > 0 then p.pool[..|p.pool| - 1] else [])
  {
  }

  lemma {:induction false} StartHitsRecords(p: Pointers, id: TouchId, rec: RecordId, xs: seq<Hit>)
    requires RecordsBelow(p) && MouseRecord < rec < p.nextRecord
    decreases |xs|
    ensures var s := StartHits(p, id, rec, xs);
            && RecordsBelow(s.ptr)
            && s.ptr.selected == p.selected && s.ptr.touches == p.touches && s.ptr.pool == p.pool
            && s.ptr.nextRecord == p.nextRecord && s.ptr.isRightDown == p.isRightDown
            && p.isDown <= s.ptr.isDown
            && (forall k :: k in p.touchData ==> k in s.ptr.touchData)
            && (forall k :: k in p.touchData && p.touchData[k] == rec ==> s.ptr.touchData[k] == rec)
            && (forall x :: x in xs ==>
                  x.obj in s.ptr.isDown && (x.obj, id) in s.ptr.touchData && s.ptr.touchData[(x.obj, id)] == rec)
  {
    if xs != [] {
      var x := xs[|xs| - 1];
      var p1 := p.(touchData := p.touchData[(x.obj, id) := rec], isDown := p.isDown + {x.obj});
      StartHitsRecords(p1, id, rec, xs[..|xs| - 1]);
      assert xs == xs[..|xs| - 1] + [x];
    }
  }

  lemma {:induction false} TouchStartEachRecords(p: Pointers, scene: Option<Node>, ts: seq<TouchPoint>)
    requires RecordsBelow(p)
    decreases |ts|
    ensures var s := TouchStartEach(p, scene, ts);
            && RecordsBelow(s.ptr) && !s.threw
            && s.ptr.selected == p.selected && s.ptr.isRightDown == p.isRightDown
            && p.isDown <= s.ptr.isDown
            && (forall id :: id in p.touches ==> id in s.ptr.touches)
            && (forall t :: t in ts ==> t.id in s.ptr.touches)
            && (forall t, x :: t in ts && x in Intersect(scene, t.hits) ==> x.obj in s.ptr.isDown)
            && s.ptr.pool == p.pool[..|p.pool| - (if |ts| < |p.pool| then |ts| else |p.pool|)]
  {
    if ts != [] {
      var s1 := StartTouch(p, scene, ts[0]);
      StartTouchRecords(p, scene, ts[0]);
      TouchStartEachRecords(s1.ptr, scene, ts[1..]);
      var s := TouchStartEach(p, scene, ts);
      assert s.ptr == TouchStartEach(s1.ptr, scene, ts[1..]).ptr;
      forall t | t in ts ensures t.id in s.ptr.touches {
        if t != ts[0] { assert t in ts[1..]; }
      }
      forall t, x | t in ts && x in Intersect(scene, t.hits) ensures x.obj in s.ptr.isDown {
        if t != ts[0] { assert t in ts[1..]; }
      }
      var k := if |ts| < |p.pool| then |ts| else |p.pool|;
      var k1 := if 1 < |p.pool| then 1 else |p.pool|;
      assert s1.ptr.pool == p.pool[..|p.pool| - k1];
      assert s.ptr.pool == p.pool[..|p.pool| - k];
    }
  }

  /** One changed touch of `onTouchStart`: it takes a record below the next
      fresh one, is tracked under its identifier and marks what it hits. */
  lemma StartTouchRecords(p: Pointers, scene: Option<Node>, t: TouchPoint)
    requires RecordsBelow(p)
    ensures var s := StartTouch(p, scene, t);
            && RecordsBelow(s.ptr) && !s.threw
            && s.ptr.selected == p.selected && s.ptr.isRightDown == p.isRightDown
            && p.isDown <= s.ptr.isDown
            && (forall id :: id in p.touches ==> id in s.ptr.touches)
            && t.id in s.ptr.touches
            && (forall x :: x in Intersect(scene, t.hits) ==> x.obj in s.ptr.isDown)
            && s.ptr.pool == p.pool[..|p.pool| - (if 1 < |p.pool| then 1 else |p.pool|)]
  {
    var a := Acquire(p);
    AcquireFresh(p);
    var p2 := a.ptr.(touches := a.ptr.touches[t.id := a.rec]);
    StartHitsRecords(p2, t.id, a.rec, Intersect(scene, t.hits));
  }

  /** One touch's hits are sent "touchstart" with its record, farthest
      first, and hold that record afterwards; every other entry of the side
      table is kept. */
  lemma {:induction false} StartHitsSends(p: Pointers, id: TouchId, rec: RecordId, xs: seq<Hit>)
    decreases |xs|
    ensures var s := StartHits(p, id, rec, xs);
            && s.emitted == EachHit("touchstart", xs, Some(rec))
            && s.ptr.touches == p.touches
            && (forall x :: x in xs ==> (x.obj, id) in s.ptr.touchData && s.ptr.touchData[(x.obj, id)] == rec)
            && (forall o, i :: (o, i) in p.touchData ==> (o, i) in s.ptr.touchData)
            && (forall o, i :: (o, i) in s.ptr.touchData && (i != id || s.ptr.touchData[(o, i)] != rec) ==>
                  (o, i) in p.touchData && s.ptr.touchData[(o, i)] == p.touchData[(o, i)])
  {
    if xs != [] {
      var x := xs[|xs| - 1];
      var p1 := p.(touchData := p.touchData[(x.obj, id) := rec], isDown := p.isDown + {x.obj});
      StartHitsSends(p1, id, rec, xs[..|xs| - 1]);
      assert xs == xs[..|xs| - 1] + [x];
    }
  }

  /** One changed touch of `onTouchStart`: its hits are sent "touchstart"
      with the record now tracked under its identifier; other touches'
      records are left alone. */
  lemma StartTouchSends(p: Pointers, scene: Option<Node>, t: TouchPoint)
    ensures var s := StartTouch(p, scene, t);
            && t.id in s.ptr.touches
            && s.emitted == EachHit("touchstart", Intersect(scene, t.hits), Some(s.ptr.touches[t.id]))
            && (forall x :: x in Intersect(scene, t.hits) ==>
                  (x.obj, t.id) in s.ptr.touchData && s.ptr.touchData[(x.obj, t.id)] == s.ptr.touches[t.id])
            && (forall i :: i != t.id && i in p.touches ==> i in s.ptr.touches && s.ptr.touches[i] == p.touches[i])
            && (forall o, i :: i != t.id && (o, i) in p.touchData ==>
                  (o, i) in s.ptr.touchData && s.ptr.touchData[(o, i)] == p.touchData[(o, i)])
  {
    var a := Acquire(p);
    var p2 := a.ptr.(touches := a.ptr.touches[t.id := a.rec]);
    StartHitsSends(p2, t.id, a.rec, Intersect(scene, t.hits));
  }

  /** Touches that come later and carry another identifier keep a touch's
      record and the entries filed under it. */
  lemma {:induction false} TouchStartEachKeeps(p: Pointers, scene: Option<Node>, ts: seq<TouchPoint>, id: TouchId)
    requires forall j :: 0 <= j < |ts| ==> ts[j].id != id
    decreases |ts|
    ensures var s := TouchStartEach(p, scene, ts);
            && (id in p.touches ==> id in s.ptr.touches && s.ptr.touches[id] == p.touches[id])
            && (forall o :: (o, id) in p.touchData ==>
                  (o, id) in s.ptr.touchData && s.ptr.touchData[(o, id)] == p.touchData[(o, id)])
  {
    if ts != [] {
      StartTouchSends(p, scene, ts[0]);
      var s1 := StartTouch(p, scene, ts[0]);
      assert forall j :: 0 <= j < |ts[1..]| ==> ts[1..][j] == ts[j + 1];
      TouchStartEachKeeps(s1.ptr, scene, ts[1..], id);
    }
  }

  /** After a step, the touch `id` has a record, the object of `x` holds it,
      and `x` was sent "touchstart" with it. */
  ghost predicate StartedOn(s: Step, id: TouchId, x: Hit)
  {
    && id in s.ptr.touches
    && (x.obj, id) in s.ptr.touchData
    && s.ptr.touchData[(x.obj, id)] == s.ptr.touches[id]
    && Emission("touchstart", x.obj, Some(x), Some(s.ptr.touches[id])) in s.emitted
  }

  /** `ts[i]` is the last changed touch with its identifier. */
  ghost predicate LastOfId(ts: seq<TouchPoint>, i: int)
  {
    0 <= i < |ts| && forall j :: i < j < |ts| ==> ts[j].id != ts[i].id
  }

  /** The last changed touch with its identifier keeps its record, and every
      object it hits holds that record and is sent "touchstart" with it. */
  lemma {:induction false} TouchStartEachReach(p: Pointers, scene: Option<Node>, ts: seq<TouchPoint>, i: int, x: Hit)
    requires LastOfId(ts, i) && x in Intersect(scene, ts[i].hits)
    decreases |ts|
    ensures StartedOn(TouchStartEach(p, scene, ts), ts[i].id, x)
  {
    var t := ts[0];
    var s1 := StartTouch(p, scene, t);
    var s2 := TouchStartEach(s1.ptr, scene, ts[1..]);
    assert TouchStartEach(p, scene, ts) == Step(s2.ptr, s1.emitted + s2.emitted, false);
    if i == 0 {
      StartTouchSends(p, scene, t);
      EachHitSends("touchstart", Intersect(scene, t.hits), Some(s1.ptr.touches[t.id]));
      assert forall j :: 0 <= j < |ts[1..]| ==> ts[1..][j].id != t.id by {
        assert forall j :: 0 <= j < |ts[1..]| ==> ts[1..][j] == ts[j + 1];
      }
      TouchStartEachKeeps(s1.ptr, scene, ts[1..], t.id);
    } else {
      assert ts[1..][i - 1] == ts[i];
      assert LastOfId(ts[1..], i - 1) by {
        assert forall j :: 0 <= j < |ts[1..]| ==> ts[1..][j] == ts[j + 1];
      }
      TouchStartEachReach(s1.ptr, scene, ts[1..], i - 1, x);
    }
  }

  /** Nothing is sent but "touchstart", to objects the changed touches hit. */
  lemma {:induction false} TouchStartEachOnly(p: Pointers, scene: Option<Node>, ts: seq<TouchPoint>)
    decreases |ts|
    ensures forall em :: em in TouchStartEach(p, scene, ts).emitted ==>
              && em.eventName == "touchstart" && em.hit.Some? && em.target == em.hit.value.obj
              && exists i :: 0 <= i < |ts| && em.hit.value in Intersect(scene, ts[i].hits)
  {
    if ts != [] {
      var t := ts[0];
      var s1 := StartTouch(p, scene, t);
      StartTouchSends(p, scene, t);
      EachHitSends("touchstart", Intersect(scene, t.hits), Some(s1.ptr.touches[t.id]));
      TouchStartEachOnly(s1.ptr, scene, ts[1..]);
      var s2 := TouchStartEach(s1.ptr, scene, ts[1..]);
      assert TouchStartEach(p, scene, ts).emitted == s1.emitted + s2.emitted;
      forall em | em in s1.emitted + s2.emitted
        ensures && em.eventName == "touchstart" && em.hit.Some? && em.target == em.hit.value.obj
                && exists i :: 0 <= i < |ts| && em.hit.value in Intersect(scene, ts[i].hits)
      {
        if em in s1.emitted {
          assert em.hit.value in Intersect(scene, ts[0].hits);
        } else {
          var i :| 0 <= i < |ts[1..]| && em.hit.value in Intersect(scene, ts[1..][i].hits);
          assert ts[1..][i] == ts[i + 1];
        }
      }
    }
  }

  /** `onTouchStart` gives every changed touch a record (popped from the pool
      or new), marks every object it hits as down, and keeps records distinct
      from the mouse record and below the next fresh one. */
  lemma TouchStartTracks(p: Pointers, r: Registry, ts: seq<TouchPoint>)
    requires RecordsBelow(p) && HasItems(r, "touchstart")
    ensures var s := TouchStart(p, r, true, ts);
            && RecordsBelow(s.ptr) && !s.threw
            && (forall t :: t in ts ==> t.id in s.ptr.touches)
            && (forall t, x :: t in ts && x in Intersect(r.scene, t.hits) ==> x.obj in s.ptr.isDown)
            && |s.ptr.pool| == (if |ts| < |p.pool| then |p.pool| - |ts| else 0)
  {
    TouchStartEachRecords(p, r.scene, ts);
  }

  /** What `onTouchStart` sends: the last changed touch with each identifier
      keeps its record under that identifier, and every object it hits is
      sent "touchstart" with that record and holds it; nothing is sent but
      "touchstart" to the objects the changed touches hit. */
  lemma TouchStartSends(p: Pointers, r: Registry, ts: seq<TouchPoint>)
    requires HasItems(r, "touchstart")
    ensures forall i, x :: LastOfId(ts, i) && x in Intersect(r.scene, ts[i].hits) ==>
              StartedOn(TouchStart(p, r, true, ts), ts[i].id, x)
    ensures forall em :: em in TouchStart(p, r, true, ts).emitted ==>
              && em.eventName == "touchstart" && em.hit.Some? && em.target == em.hit.value.obj
              && exists i :: 0 <= i < |ts| && em.hit.value in Intersect(r.scene, ts[i].hits)
  {
    forall i, x | LastOfId(ts, i) && x in Intersect(r.scene, ts[i].hits)
      ensures StartedOn(TouchStart(p, r, true, ts), ts[i].id, x)
    {
      TouchStartEachReach(p, r.scene, ts, i, x);
    }
    TouchStartEachOnly(p, r.scene, ts);
  }

  /** `onTouchMove` changes no state; it fails exactly when some changed touch
      has no live record, and otherwise sends "touchmove" only to objects that
      hold a record for one of the touches, with that record. */
  lemma {:induction false} TouchMoveReadsOnly(p: Pointers, scene: Option<Node>, ts: seq<TouchPoint>)
    decreases |ts|
    ensures var s := TouchMoveEach(p, scene, ts);
            && s.ptr == p
            && (s.threw <==> exists i :: 0 <= i < |ts| && ts[i].id !in p.touches)
            && (forall em :: em in s.emitted ==>
                  (em.eventName == "touchmove" &&
                   exists i :: 0 <= i < |ts| && (em.target, ts[i].id) in p.touchData
                               && em.data == Some(p.touchData[(em.target, ts[i].id)])))
  {
    if ts != [] && ts[0].id in p.touches {
      TouchMoveReadsOnly(p, scene, ts[1..]);
      MoveHitsHold(p, ts[0].id, Intersect(scene, ts[0].hits));
      var s := TouchMoveEach(p, scene, ts);
      var rest := TouchMoveEach(p, scene, ts[1..]);
      if rest.threw {
        var i :| 0 <= i < |ts[1..]| && ts[1..][i].id !in p.touches;
        assert ts[i + 1].id !in p.touches;
      }
      if s.threw {
        assert rest.threw;
      } else {
        forall i | 0 <= i < |ts| ensures ts[i].id in p.touches {
          if i > 0 { assert ts[1..][i - 1] == ts[i]; }
        }
      }
      forall em | em in rest.emitted
        ensures exists i :: 0 <= i < |ts| && (em.target, ts[i].id) in p.touchData
                  && em.data == Some(p.touchData[(em.target, ts[i].id)])
      {
        var i :| 0 <= i < |ts[1..]| && (em.target, ts[1..][i].id) in p.touchData
                 && em.data == Some(p.touchData[(em.target, ts[1..][i].id)]);
        assert ts[1..][i] == ts[i + 1];
      }
    }
  }

  lemma {:induction false} MoveHitsHold(p: Pointers, id: TouchId, xs: seq<Hit>)
    decreases |xs|
    ensures forall em :: em in MoveHits(p, id, xs) ==>
              em.eventName == "touchmove" && (em.target, id) in p.touchData
              && em.data == Some(p.touchData[(em.target, id)])
  {
    if xs != [] {
      MoveHitsHold(p, id, xs[..|xs| - 1]);
    }
  }

  /** Every hit whose object holds a record for the touch is sent
      "touchmove" with that record. */
  lemma {:induction false} MoveHitsReach(p: Pointers, id: TouchId, xs: seq<Hit>)
    decreases |xs|
    ensures forall x :: x in xs && (x.obj, id) in p.touchData ==>
              Emission("touchmove", x.obj, Some(x), Some(p.touchData[(x.obj, id)])) in MoveHits(p, id, xs)
  {
    if xs != [] {
      MoveHitsReach(p, id, xs[..|xs| - 1]);
      assert xs == xs[..|xs| - 1] + [xs[|xs| - 1]];
    }
  }

  /** The changed touches up to `i` all have a live record. */
  ghost predicate TrackedThrough(p: Pointers, ts: seq<TouchPoint>, i: int)
  {
    0 <= i < |ts| && forall j :: 0 <= j <= i ==> ts[j].id in p.touches
  }

  /** `onTouchMove` reaches every holder: for each changed touch before the
      first one without a live record, every hit object holding a record for
      it is sent "touchmove" with that record. */
  lemma {:induction false} TouchMoveReachesHolders(p: Pointers, scene: Option<Node>, ts: seq<TouchPoint>)
    decreases |ts|
    ensures var s := TouchMoveEach(p, scene, ts);
            forall i, x :: TrackedThrough(p, ts, i) && x in Intersect(scene, ts[i].hits) && (x.obj, ts[i].id) in p.touchData ==>
              Emission("touchmove", x.obj, Some(x), Some(p.touchData[(x.obj, ts[i].id)])) in s.emitted
  {
    if ts != [] && ts[0].id in p.touches {
      MoveHitsReach(p, ts[0].id, Intersect(scene, ts[0].hits));
      TouchMoveReachesHolders(p, scene, ts[1..]);
      var s := TouchMoveEach(p, scene, ts);
      var rest := TouchMoveEach(p, scene, ts[1..]);
      assert s.emitted == MoveTouch(p, scene, ts[0]) + rest.emitted;
      forall i, x | TrackedThrough(p, ts, i) && x in Intersect(scene, ts[i].hits) && (x.obj, ts[i].id) in p.touchData
        ensures Emission("touchmove", x.obj, Some(x), Some(p.touchData[(x.obj, ts[i].id)])) in s.emitted
      {
        if i > 0 {
          assert forall j :: 0 <= j < |ts[1..]| ==> ts[1..][j] == ts[j + 1];
          assert TrackedThrough(p, ts[1..], i - 1);
        }
      }
    }
  }

  // ---------------------------------------------------------------- touch end

  lemma {:induction false} EndHitsFrame(p: Pointers, id: TouchId, xs: seq<Hit>)
    decreases |xs|
    ensures var s := EndHits(p, id, xs);
            && s.ptr.selected == p.selected && s.ptr.touches == p.touches && s.ptr.pool == p.pool
            && s.ptr.nextRecord == p.nextRecord && s.ptr.isRightDown == p.isRightDown
            && s.ptr.isDown <= p.isDown
            && (forall k :: k in s.ptr.touchData ==> k in p.touchData && s.ptr.touchData[k] == p.touchData[k])
            && (forall x :: x in xs ==> (x.obj, id) !in s.ptr.touchData)
  {
    if xs != [] {
      var x := xs[|xs| - 1];
      assert xs == xs[..|xs| - 1] + [x];
      if (x.obj, id) in p.touchData {
        var p1 := p.(isDown := p.isDown - {x.obj}, touchData := p.touchData - {(x.obj, id)});
        EndHitsFrame(p1, id, xs[..|xs| - 1]);
      } else {
        EndHitsFrame(p, id, xs[..|xs| - 1]);
      }
    }
  }

  lemma {:induction false} EndOutsideFrame(p: Pointers, id: TouchId, items: seq<Node>)
    decreases |items|
    ensures var s := EndOutside(p, id, items);
            && s.ptr == p.(isDown := s.ptr.isDown)
            && s.ptr.isDown <= p.isDown
            && (forall n: Node :: n in items && (n, id) in p.touchData ==> n !in s.ptr.isDown)
            && (forall em :: em in s.emitted ==> em.eventName == "touchendoutside" && em.target in p.isDown)
            && (p.isDown == {} ==> s.emitted == [])
  {
    if items != [] {
      var n := items[|items| - 1];
      assert items == items[..|items| - 1] + [n];
      if n in p.isDown && (n, id) in p.touchData {
        EndOutsideFrame(p.(isDown := p.isDown - {n}), id, items[..|items| - 1]);
      } else {
        EndOutsideFrame(p, id, items[..|items| - 1]);
      }
    }
  }

  /** The touch's hits, farthest first: "touchend" goes only to objects
      that hold a record for the touch, with that record. */
  lemma {:induction false} EndHitsOnly(p: Pointers, id: TouchId, xs: seq<Hit>)
    decreases |xs|
    ensures forall em :: em in EndHits(p, id, xs).emitted ==>
              && em.eventName == "touchend" && em.hit.Some? && em.hit.value in xs
              && em.target == em.hit.value.obj
              && (em.target, id) in p.touchData && em.data == Some(p.touchData[(em.target, id)])
  {
    if xs != [] {
      var x := xs[|xs| - 1];
      var xs' := xs[..|xs| - 1];
      assert xs == xs' + [x];
      if (x.obj, id) in p.touchData {
        var p1 := p.(isDown := p.isDown - {x.obj}, touchData := p.touchData - {(x.obj, id)});
        EndHitsOnly(p1, id, xs');
      } else {
        EndHitsOnly(p, id, xs');
      }
    }
  }

  /** Every hit object holding a record for the touch is sent "touchend"
      with that record. */
  lemma {:induction false} EndHitsReach(p: Pointers, id: TouchId, xs: seq<Hit>)
    ensures forall x :: x in xs && (x.obj, id) in p.touchData ==>
              exists y :: y in xs && y.obj == x.obj
                          && Emission("touchend", x.obj, Some(y), Some(p.touchData[(x.obj, id)])) in EndHits(p, id, xs).emitted
  {
    forall x | x in xs && (x.obj, id) in p.touchData
      ensures exists y :: y in xs && y.obj == x.obj
                          && Emission("touchend", x.obj, Some(y), Some(p.touchData[(x.obj, id)])) in EndHits(p, id, xs).emitted
    {
      var y := EndHitsReachOne(p, id, xs, x);
    }
  }

  /** `EndHitsReach` for one hit: the witness `y` is the last hit on the same object. */
  lemma {:induction false} EndHitsReachOne(p: Pointers, id: TouchId, xs: seq<Hit>, x: Hit) returns (y: Hit)
    requires x in xs && (x.obj, id) in p.touchData
    decreases |xs|
    ensures y in xs && y.obj == x.obj
    ensures Emission("touchend", x.obj, Some(y), Some(p.touchData[(x.obj, id)])) in EndHits(p, id, xs).emitted
  {
    var z := xs[|xs| - 1];
    var xs' := xs[..|xs| - 1];
    assert xs == xs' + [z];
    var s := EndHits(p, id, xs);
    if (z.obj, id) in p.touchData {
      var p1 := p.(isDown := p.isDown - {z.obj}, touchData := p.touchData - {(z.obj, id)});
      assert s.emitted == [Emission("touchend", z.obj, Some(z), Some(p.touchData[(z.obj, id)]))] + EndHits(p1, id, xs').emitted;
      if z.obj == x.obj {
        y := z;
      } else {
        assert x in xs';
        y := EndHitsReachOne(p1, id, xs', x);
      }
    } else {
      assert s == EndHits(p, id, xs');
      assert x in xs';
      y := EndHitsReachOne(p, id, xs', x);
    }
  }

  /** No object is sent "touchend" twice for one touch. */
  lemma {:induction false} EndHitsOnce(p: Pointers, id: TouchId, xs: seq<Hit>)
    decreases |xs|
    ensures var ems := EndHits(p, id, xs).emitted;
            forall i, j :: 0 <= i < j < |ems| ==> ems[i].target != ems[j].target
  {
    if xs != [] {
      var x := xs[|xs| - 1];
      var xs' := xs[..|xs| - 1];
      var s := EndHits(p, id, xs);
      if (x.obj, id) in p.touchData {
        var em := Emission("touchend", x.obj, Some(x), Some(p.touchData[(x.obj, id)]));
        var p1 := p.(isDown := p.isDown - {x.obj}, touchData := p.touchData - {(x.obj, id)});
        EndHitsOnce(p1, id, xs');
        assert forall i, j :: 0 <= i < j < |EndHits(p1, id, xs').emitted| ==>
          EndHits(p1, id, xs').emitted[i].target != EndHits(p1, id, xs').emitted[j].target;
        var rest := EndHits(p1, id, xs');
        EndHitsOnly(p1, id, xs');
        assert s.emitted == [em] + rest.emitted;
        forall i, j | 0 <= i < j < |s.emitted| ensures s.emitted[i].target != s.emitted[j].target {
          assert s.emitted[j] == rest.emitted[j - 1];
          if i > 0 {
            assert s.emitted[i] == rest.emitted[i - 1];
          } else {
            assert s.emitted[i] == em;
            assert rest.emitted[j - 1] in rest.emitted;
            assert (rest.emitted[j - 1].target, id) in p1.touchData;
          }
        }
      } else {
        EndHitsOnce(p, id, xs');
        assert s == EndHits(p, id, xs');
      }
    }
  }

  /** The objects of the hits that held a record for the touch lose their
      down flag and that record; every other flag and entry is kept. */
  lemma {:induction false} EndHitsClears(p: Pointers, id: TouchId, xs: seq<Hit>)
    decreases |xs|
    ensures var s := EndHits(p, id, xs);
            && (forall o :: o in s.ptr.isDown <==> o in p.isDown && !(o in Objects(xs) && (o, id) in p.touchData))
            && (forall o, i :: (o, i) in s.ptr.touchData <==> (o, i) in p.touchData && !(i == id && o in Objects(xs)))
  {
    if xs != [] {
      var x := xs[|xs| - 1];
      ObjectsLast(xs);
      if (x.obj, id) in p.touchData {
        var p1 := p.(isDown := p.isDown - {x.obj}, touchData := p.touchData - {(x.obj, id)});
        EndHitsClears(p1, id, xs[..|xs| - 1]);
      } else {
        EndHitsClears(p, id, xs[..|xs| - 1]);
      }
    }
  }

  /** The registered nodes, from the last: "touchendoutside" goes to those
      still down and holding a record for the touch, once each, with that
      record, and to nothing else. */
  lemma {:induction false} EndOutsideSends(p: Pointers, id: TouchId, items: seq<Node>)
    decreases |items|
    ensures var s := EndOutside(p, id, items);
            && (forall em :: em in s.emitted ==>
                  && em.eventName == "touchendoutside" && em.hit.None? && em.target in items && em.target in p.isDown
                  && (em.target, id) in p.touchData && em.data == Some(p.touchData[(em.target, id)]))
            && (forall n :: n in items && n in p.isDown && (n, id) in p.touchData ==>
                  Emission("touchendoutside", n, None, Some(p.touchData[(n, id)])) in s.emitted)
            && (forall i, j :: 0 <= i < j < |s.emitted| ==> s.emitted[i].target != s.emitted[j].target)
  {
    if items != [] {
      var n := items[|items| - 1];
      var items' := items[..|items| - 1];
      assert items == items' + [n];
      var s := EndOutside(p, id, items);
      if n in p.isDown && (n, id) in p.touchData {
        var em := Emission("touchendoutside", n, None, Some(p.touchData[(n, id)]));
        var p1 := p.(isDown := p.isDown - {n});
        EndOutsideSends(p1, id, items');
        var rest := EndOutside(p1, id, items');
        assert s.emitted == [em] + rest.emitted;
        forall m | m in items && m in p.isDown && (m, id) in p.touchData
          ensures Emission("touchendoutside", m, None, Some(p.touchData[(m, id)])) in s.emitted
        {
          if m != n {
            assert m in items';
          }
        }
        forall i, j | 0 <= i < j < |s.emitted| ensures s.emitted[i].target != s.emitted[j].target {
          assert s.emitted[j] == rest.emitted[j - 1];
          if i > 0 {
            assert s.emitted[i] == rest.emitted[i - 1];
          } else {
            assert rest.emitted[j - 1] in rest.emitted;
          }
        }
      } else {
        EndOutsideSends(p, id, items');
        forall m | m in items && m in p.isDown && (m, id) in p.touchData ensures m in items' {
        }
      }
    }
  }

  /** The registered nodes still down and holding a record for the touch
      lose their down flag; every other flag is kept. */
  lemma {:induction false} EndOutsideClears(p: Pointers, id: TouchId, items: seq<Node>)
    decreases |items|
    ensures var s := EndOutside(p, id, items);
            forall o :: o in s.ptr.isDown <==> o in p.isDown && !(o in items && (o, id) in p.touchData)
  {
    if items != [] {
      var n := items[|items| - 1];
      assert items == items[..|items| - 1] + [n];
      if n in p.isDown && (n, id) in p.touchData {
        EndOutsideClears(p.(isDown := p.isDown - {n}), id, items[..|items| - 1]);
      } else {
        EndOutsideClears(p, id, items[..|items| - 1]);
      }
    }
  }

  /** One tracked changed touch of `onTouchEnd`. "touchend" goes exactly to
      the hit objects holding a record for the touch, with that record;
      "touchendoutside" goes exactly to the registered nodes not hit that are
      still down and hold a record for it, with that record; every target is
      sent once, and all "touchend" calls come first. */
  lemma EndTouchSends(p: Pointers, r: Registry, t: TouchPoint)
    ensures var s := EndTouch(p, r, t);
            var xs := Intersect(r.scene, t.hits);
            var items := Items(r, "touchend");
            && (forall em :: em in s.emitted ==>
                  && (em.target, t.id) in p.touchData && em.data == Some(p.touchData[(em.target, t.id)])
                  && ((em.eventName == "touchend" && em.hit.Some? && em.hit.value in xs && em.target == em.hit.value.obj)
                      || (em.eventName == "touchendoutside" && em.hit.None? && em.target in items
                          && em.target in p.isDown && em.target !in Objects(xs))))
            && (forall x :: x in xs && (x.obj, t.id) in p.touchData ==>
                  exists y :: y in xs && y.obj == x.obj
                              && Emission("touchend", x.obj, Some(y), Some(p.touchData[(x.obj, t.id)])) in s.emitted)
            && (forall n :: n in items && n in p.isDown && (n, t.id) in p.touchData && n !in Objects(xs) ==>
                  Emission("touchendoutside", n, None, Some(p.touchData[(n, t.id)])) in s.emitted)
            && (forall i, j :: 0 <= i < j < |s.emitted| ==>
                  s.emitted[i].target != s.emitted[j].target
                  && !(s.emitted[i].eventName == "touchendoutside" && s.emitted[j].eventName == "touchend"))
  {
    var xs := Intersect(r.scene, t.hits);
    var items := Items(r, "touchend");
    var s1 := EndHits(p, t.id, xs);
    var s := EndTouch(p, r, t);
    EndHitsOnly(p, t.id, xs);
    EndHitsReach(p, t.id, xs);
    EndHitsFrame(p, t.id, xs);
    EndHitsClears(p, t.id, xs);
    EndOutsideSends(s1.ptr, t.id, items);
    assert s.emitted == s1.emitted + EndOutside(s1.ptr, t.id, items).emitted;
    EndTouchOrder(p, r, t);
  }

  /** One tracked changed touch of `onTouchEnd` sends to each target once,
      and every "touchend" call comes before every "touchendoutside" call. */
  lemma EndTouchOrder(p: Pointers, r: Registry, t: TouchPoint)
    ensures var s := EndTouch(p, r, t);
            forall i, j :: 0 <= i < j < |s.emitted| ==>
              s.emitted[i].target != s.emitted[j].target
              && !(s.emitted[i].eventName == "touchendoutside" && s.emitted[j].eventName == "touchend")
  {
    var xs := Intersect(r.scene, t.hits);
    var items := Items(r, "touchend");
    var s1 := EndHits(p, t.id, xs);
    var s2 := EndOutside(s1.ptr, t.id, items);
    var s := EndTouch(p, r, t);
    EndHitsOnly(p, t.id, xs);
    EndHitsOnce(p, t.id, xs);
    EndHitsClears(p, t.id, xs);
    EndOutsideSends(s1.ptr, t.id, items);
    assert s.emitted == s1.emitted + s2.emitted;
    forall em | em in s1.emitted ensures em.target in Objects(xs) {
      ObjectsHas(xs, em.hit.value);
    }
    forall i, j | 0 <= i < j < |s.emitted|
      ensures s.emitted[i].target != s.emitted[j].target
      ensures !(s.emitted[i].eventName == "touchendoutside" && s.emitted[j].eventName == "touchend")
    {
      if j < |s1.emitted| {
        assert s.emitted[i] == s1.emitted[i] && s.emitted[j] == s1.emitted[j];
      } else if i >= |s1.emitted| {
        assert s.emitted[i] == s2.emitted[i - |s1.emitted|] && s.emitted[j] == s2.emitted[j - |s1.emitted|];
      } else {
        assert s.emitted[i] == s1.emitted[i] && s.emitted[j] == s2.emitted[j - |s1.emitted|];
        assert s1.emitted[i] in s1.emitted && s2.emitted[j - |s1.emitted|] in s2.emitted;
      }
    }
  }

  /** One tracked changed touch of `onTouchEnd`: the hit objects holding a
      record for the touch lose their flag and that record, the registered
      nodes holding one lose their flag only; every other flag and entry is
      kept. */
  lemma EndTouchClears(p: Pointers, r: Registry, t: TouchPoint)
    ensures var s := EndTouch(p, r, t);
            var xs := Intersect(r.scene, t.hits);
            && (forall o :: o in s.ptr.isDown <==>
                  o in p.isDown && !((o, t.id) in p.touchData && (o in Objects(xs) || o in Items(r, "touchend"))))
            && (forall o, i :: (o, i) in s.ptr.touchData <==> (o, i) in p.touchData && !(i == t.id && o in Objects(xs)))
  {
    var xs := Intersect(r.scene, t.hits);
    var s1 := EndHits(p, t.id, xs);
    EndHitsClears(p, t.id, xs);
    EndOutsideClears(s1.ptr, t.id, Items(r, "touchend"));
    EndOutsideFrame(s1.ptr, t.id, Items(r, "touchend"));
  }

  lemma {:induction false} TouchEndEachFrame(p: Pointers, r: Registry, ts: seq<TouchPoint>)
    decreases |ts|
    ensures var s := TouchEndEach(p, r, ts);
            && s.ptr.selected == p.selected && s.ptr.touches == p.touches && s.ptr.pool == p.pool
            && s.ptr.nextRecord == p.nextRecord && s.ptr.isRightDown == p.isRightDown
            && s.ptr.isDown <= p.isDown
            && (forall k :: k in s.ptr.touchData ==> k in p.touchData && s.ptr.touchData[k] == p.touchData[k])
  {
    if ts != [] {
      if !HasItems(r, "touchend") {
        TouchEndEachFrame(p, r, ts[1..]);
      } else if ts[0].id in p.touches {
        EndHitsFrame(p, ts[0].id, Intersect(r.scene, ts[0].hits));
        var s1 := EndHits(p, ts[0].id, Intersect(r.scene, ts[0].hits));
        EndOutsideFrame(s1.ptr, ts[0].id, Items(r, "touchend"));
        var s2 := EndOutside(s1.ptr, ts[0].id, Items(r, "touchend"));
        TouchEndEachFrame(s2.ptr, r, ts[1..]);
      }
    }
  }

  /** After a completed `onTouchEnd` only the LAST changed touch's record goes
      back to the pool and only its slot in `touches` is cleared: the records
      of the other touches ended by the same event stay in `touches`. */
  lemma TouchEndReleasesLastOnly(p: Pointers, r: Registry, ts: seq<TouchPoint>)
    requires !TouchEnd(p, r, true, ts).threw
    ensures var s := TouchEnd(p, r, true, ts);
            var last := ts[|ts| - 1].id;
            && ts != []
            && s.ptr.pool == p.pool + [if last in p.touches then Some(p.touches[last]) else None]
            && s.ptr.touches == p.touches - {last}
            && s.ptr.nextRecord == p.nextRecord && s.ptr.selected == p.selected
  {
    TouchEndEachFrame(p, r, ts);
  }

  /** Two touches lifted by one event: the first one's record is neither
      pooled nor cleared. */
  lemma TwoTouchesLeakOne(p: Pointers, r: Registry, t0: TouchPoint, t1: TouchPoint)
    requires t0.id != t1.id && t0.id in p.touches && !TouchEnd(p, r, true, [t0, t1]).threw
    ensures var s := TouchEnd(p, r, true, [t0, t1]);
            && t0.id in s.ptr.touches && s.ptr.touches[t0.id] == p.touches[t0.id]
            && |s.ptr.pool| == |p.pool| + 1
  {
    TouchEndReleasesLastOnly(p, r, [t0, t1]);
  }

  /** `onTouchEnd` with an empty `changedTouches` pushes `undefined` into the
      pool and then fails. */
  lemma TouchEndWithoutTouches(p: Pointers, r: Registry)
    ensures TouchEnd(p, r, true, []) == Step(p.(pool := p.pool + [None]), [], true)
  {
  }

  /** The touch handlers keep every record in use below the next fresh one
      and apart from the mouse record. */
  lemma TouchHandlersKeepRecords(p: Pointers, r: Registry, ts: seq<TouchPoint>)
    requires RecordsBelow(p)
    ensures RecordsBelow(TouchStart(p, r, true, ts).ptr)
    ensures RecordsBelow(TouchMove(p, r, true, ts).ptr)
    ensures RecordsBelow(TouchEnd(p, r, true, ts).ptr)
  {
    TouchStartEachRecords(p, r.scene, ts);
    TouchMoveReadsOnly(p, r.scene, ts);
    TouchEndKeepsRecords(p, r, ts);
  }

  /** The records `onTouchEnd` leaves, the one it returns to the pool
      included, stay below the next fresh one. */
  lemma TouchEndKeepsRecords(p: Pointers, r: Registry, ts: seq<TouchPoint>)
    requires RecordsBelow(p)
    ensures RecordsBelow(TouchEnd(p, r, true, ts).ptr)
  {
    TouchEndEachFrame(p, r, ts);
    var s := TouchEndEach(p, r, ts);
    assert RecordsBelow(s.ptr);
    if !s.threw {
      var released: Option<RecordId> := None;
      if ts != [] {
        var last := ts[|ts| - 1].id;
        released := if last in s.ptr.touches then Some(s.ptr.touches[last]) else None;
      }
      var pool := s.ptr.pool + [released];
      forall i | 0 <= i < |pool| && pool[i].Some? ensures MouseRecord < pool[i].value < s.ptr.nextRecord {
        if i < |s.ptr.pool| {
          assert pool[i] == s.ptr.pool[i];
        }
      }
    }
  }

  /** One finger on a: down, moved, lifted. Each phase reaches a with the
      same record, and the lift returns that record to the pool. */
  lemma TouchGesture(r: Registry, id: TouchId, a: Node, d1: nat, d2: nat, d3: nat)
    requires r.scene.None?
    requires HasItems(r, "touchstart") && HasItems(r, "touchmove") && HasItems(r, "touchend")
    ensures var s1 := TouchStart(InitialPointers, r, true, [TouchPoint(id, [RayHit(a, d1)])]);
            var s2 := TouchMove(s1.ptr, r, true, [TouchPoint(id, [RayHit(a, d2)])]);
            var s3 := TouchEnd(s2.ptr, r, true, [TouchPoint(id, [RayHit(a, d3)])]);
            var rec := InitialPointers.nextRecord;
            && s1.emitted == [Emission("touchstart", a, Some(RayHit(a, d1)), Some(rec))]
            && s2.emitted == [Emission("touchmove", a, Some(RayHit(a, d2)), Some(rec))]
            && s3.emitted == [Emission("touchend", a, Some(RayHit(a, d3)), Some(rec))]
            && !s1.threw && !s2.threw && !s3.threw
            && s3.ptr.pool == [Some(rec)]
            && id !in s3.ptr.touches && a !in s3.ptr.isDown && (a, id) !in s3.ptr.touchData
  {
    var p0 := InitialPointers;
    var rec := p0.nextRecord;
    var t1 := TouchPoint(id, [RayHit(a, d1)]);
    var t2 := TouchPoint(id, [RayHit(a, d2)]);
    var t3 := TouchPoint(id, [RayHit(a, d3)]);
    assert [t1][1..] == [] && [t2][1..] == [] && [t3][1..] == [];
    // touchstart: a fresh record, stored for the touch and on a
    var p2 := p0.(nextRecord := rec + 1, touches := map[id := rec]);
    assert Intersect(r.scene, t1.hits) == [RayHit(a, d1)];
    assert [RayHit(a, d1)][..0] == [] && [RayHit(a, d2)][..0] == [] && [RayHit(a, d3)][..0] == [];
    var h1 := StartHits(p2, id, rec, [RayHit(a, d1)]);
    var q := p2.(touchData := map[(a, id) := rec], isDown := {a});
    assert p2.touchData[(a, id) := rec] == map[(a, id) := rec];
    assert p2.isDown + {a} == {a};
    assert StartHits(q, id, rec, []) == Step(q, [], false);
    assert h1 == Step(q, [Emission("touchstart", a, Some(RayHit(a, d1)), Some(rec))], false);
    assert Acquire(p0) == Acquired(p0.(nextRecord := rec + 1), rec);
    assert p0.touches[id := rec] == map[id := rec];
    assert TouchStartEach(q, r.scene, []) == Step(q, [], false);
    var s1 := TouchStart(p0, r, true, [t1]);
    assert s1 == h1;
    // touchmove: a holds the record
    assert Intersect(r.scene, t2.hits) == [RayHit(a, d2)];
    assert MoveHits(q, id, [RayHit(a, d2)]) == [Emission("touchmove", a, Some(RayHit(a, d2)), Some(rec))];
    assert TouchMoveEach(q, r.scene, []) == Step(q, [], false);
    var s2 := TouchMove(q, r, true, [t2]);
    assert s2 == Step(q, [Emission("touchmove", a, Some(RayHit(a, d2)), Some(rec))], false);
    // touchend: a gets it and is released; nothing is down any more
    assert Intersect(r.scene, t3.hits) == [RayHit(a, d3)];
    var e1 := EndHits(q, id, [RayHit(a, d3)]);
    var q1 := q.(isDown := {}, touchData := map[]);
    assert q.isDown - {a} == {} && q.touchData - {(a, id)} == map[];
    assert EndHits(q1, id, []) == Step(q1, [], false);
    assert e1 == Step(q1, [Emission("touchend", a, Some(RayHit(a, d3)), Some(rec))], false);
    EndOutsideFrame(q1, id, Items(r, "touchend"));
    var e2 := EndOutside(q1, id, Items(r, "touchend"));
    assert e2.emitted == [] && e2.ptr == q1;
    var s3 := TouchEnd(q, r, true, [t3]);
    assert TouchEndEach(q, r, [t3]) == Step(q1, e1.emitted, false);
    assert s3.ptr.pool == [Some(rec)];
  }

  // ---------------------------------------------------------------- enabled

  /** A disabled manager ignores every input event. */
  lemma DisabledIsInert(p: Pointers, r: Registry, right: bool, hits: seq<Hit>, ts: seq<TouchPoint>)
    ensures MouseMove(p, r, false, hits) == Step(p, [], false)
    ensures MouseDown(p, r, false, right, hits) == Step(p, [], false)
    ensures MouseUp(p, r, false, right, hits) == Step(p, [], false)
    ensures forall e :: Broadcast(r, false, e, hits) == []
    ensures TouchStart(p, r, false, ts) == Step(p, [], false)
    ensures TouchMove(p, r, false, ts) == Step(p, [], false)
    ensures TouchEnd(p, r, false, ts) == Step(p, [], false)
  {
  }
}
