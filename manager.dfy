/** THREE.InteractionManager as an object: the fields its methods update in
    place, with `bind`, `unbind`, `removeEvents`, `dispatch` and the input
    handlers as methods, each proved to compute what the corresponding
    function of the model describes. */
module Manager {
  import opened Base
  import opened Text
  import Registry
  import RegistryFacts
  import opened Dispatch
  import opened DispatchFacts
  import opened Pointer
  import opened PointerFacts

  class InteractionManager {
    /** The host scene graph, read but never changed by the manager. */
    const graph: Graph
    /** Which callback invocations call `stopPropagation`. */
    const stops: Oracle

    /** Each node's `events` object. */
    var events: map<Node, Registry.Listeners>
    var interactiveItems: map<EventName, seq<Node>>
    var scene: Option<Node>
    var enabled: bool
    var selected: Option<Node>
    var touches: map<TouchId, RecordId>
    var pool: seq<Option<RecordId>>
    /** The next record `new THREE.InteractionData()` creates. */
    var nextRecord: RecordId
    /** The nodes whose `__isDown`, resp. `__isRightDown`, flag is set. */
    var isDown: set<Node>
    var isRightDown: set<Node>
    /** `node.__touchData[identifier]` for each node and touch. */
    var touchData: map<(Node, TouchId), RecordId>
    /** Every callback invocation so far, in order. */
    var trace: seq<Invocation>

    function Reg(): Registry.Registry
      reads this
    {
      Registry.Registry(events, interactiveItems, scene)
    }

    function Ptr(): Pointers
      reads this
    {
      Pointers(selected, touches, pool, nextRecord, isDown, isRightDown, touchData)
    }

    ghost predicate Valid()
      reads this
    {
      graph.Valid() && RegistryFacts.Indexed(Reg()) && RecordsBelow(Ptr())
    }

    /** Lines 86-131, without the DOM and camera wiring. */
    constructor (g: Graph, stops: Oracle)
      requires g.Valid()
      ensures Valid() && enabled && trace == []
      ensures graph == g && this.stops == stops
      ensures Reg() == Registry.EmptyRegistry && Ptr() == InitialPointers
    {
      graph := g;
      this.stops := stops;
      events := map[];
      interactiveItems := map[];
      scene := None;
      enabled := true;
      selected := None;
      touches := map[];
      pool := [];
      nextRecord := MouseRecord + 1;
      isDown := {};
      isRightDown := {};
      touchData := map[];
      trace := [];
      RegistryFacts.EmptyIndexed();
    }

    /** Lines 139-142. */
    method Disable()
      modifies this`enabled
      ensures !enabled
    {
      enabled := false;
    }

    /** Lines 144-147. */
    method Enable()
      modifies this`enabled
      ensures enabled
    {
      enabled := true;
    }

    // ------------------------------------------------------------ bind

    /** Lines 261-291 for a resolved name: append the entry, register a
        scene, index the node once. */
    method AddHandler(n: Node, e: EventName, h: Registry.Handler)
      modifies this`events, this`interactiveItems, this`scene
      ensures Reg() == Registry.Register(old(Reg()), graph.scenes, n, e, h)
    {
      var listeners := if n in events then events[n] else map[];
      var list := if e in listeners then listeners[e] else [];
      events := events[n := listeners[e := list + [h]]];
      if n in graph.scenes && scene.None? {
        scene := Some(n);
      }
      var index := if e in interactiveItems then interactiveItems[e] else [];
      if IndexOf(index, n) == -1 {
        index := index + [n];
      }
      interactiveItems := interactiveItems[e := index];
    }

    /** `bind` for a name without a space (lines 246-301). */
    method BindName(n: Node, name: string, cb: CallbackId, capture: bool)
      modifies this`events, this`interactiveItems, this`scene
      decreases if name == "mousemove" then 0 else 1
      ensures Reg() == Registry.BindOne(old(Reg()), graph.scenes, n, name, cb, capture)
    {
      var key := ParseName(name);
      AddHandler(n, key.name, Registry.Handler(cb, capture, key.namespace));
      if key.name == "mouseover" || key.name == "mouseout" {
        var bound := Registry.Bound(events, "mousemove", n);
        if bound.None? || |bound.value| == 0 {
          MousemovePlain();
          BindName(n, "mousemove", Noop, false);
        }
      }
    }

    /** `bind(object3d, eventName, callback, useCapture)` (lines 233-302). */
    method Bind(n: Node, name: string, cb: CallbackId, capture: bool)
      requires Valid()
      modifies this`events, this`interactiveItems, this`scene
      ensures Reg() == Registry.Bind(old(Reg()), graph.scenes, n, name, cb, capture)
      ensures Valid()
    {
      RegistryFacts.BindIndexed(Reg(), graph.scenes, n, name, cb, capture);
      if ' ' in name {
        var parts := Split(name, ' ');
        while |parts| > 0 && parts[|parts| - 1] != ""
          invariant Registry.BindAll(Reg(), graph.scenes, n, PopTokens(parts), cb, capture)
                    == Registry.Bind(old(Reg()), graph.scenes, n, name, cb, capture)
          decreases |parts|
        {
          var token := parts[|parts| - 1];
          parts := parts[..|parts| - 1];
          BindName(n, token, cb, capture);
        }
      } else {
        BindName(n, name, cb, capture);
      }
    }

    // ---------------------------------------------------------- unbind

    /** Lines 387-397: a scene node was unbound; the registered scene is
        forgotten when none of its lists holds an entry. */
    method ForgetEmptyScene(n: Node)
      modifies this`scene
      ensures Reg() == Registry.SceneCleanup(old(Reg()), graph.scenes, n)
    {
      if n in graph.scenes && scene.Some? && scene.value in events {
        var lists := events[scene.value];
        var props := lists.Keys;
        while props != {}
          invariant props <= lists.Keys
          invariant forall k :: k in lists && k !in props ==> |lists[k]| == 0
          decreases props
        {
          var prop :| prop in props;
          if |lists[prop]| > 0 {
            return;
          }
          props := props - {prop};
        }
        scene := None;
      }
    }

    /** Lines 337-373: splice the matching entries out of the node's list,
        from the last one, and unindex the node when the list is left empty. */
    method DropEntries(n: Node, e: EventName, q: Registry.Query)
      requires Registry.Bound(events, e, n).Some?
      modifies this`events, this`interactiveItems, this`scene
      ensures Reg() == Registry.DropMatching(old(Reg()), n, e, q)
    {
      var handlers := events[n][e];
      ghost var original := handlers;
      var i := |handlers|;
      while i > 0
        invariant 0 <= i <= |original|
        invariant handlers == original[..i] + Registry.Survivors(original[i..], q)
      {
        i := i - 1;
        assert handlers[i] == original[i];
        assert original[i..] == [original[i]] + original[i + 1..];
        if Registry.Matches(handlers[i], q) {
          handlers := handlers[..i] + handlers[i + 1..];
        }
      }
      assert original[..0] == [] && original[0..] == original;
      assert handlers == Registry.Survivors(original, q);
      events := events[n := events[n][e := handlers]];
      if |handlers| == 0 && e in interactiveItems {
        var index := IndexOf(interactiveItems[e], n);
        if index != -1 {
          interactiveItems := interactiveItems[e := RemoveAt(interactiveItems[e], index)];
        }
      }
    }

    /** `unbind` for a name without a space (lines 317-398). */
    method UnbindName(n: Node, name: string, cb: Option<CallbackId>, capture: Option<bool>)
      modifies this`events, this`interactiveItems, this`scene
      decreases if name == "mousemove" then 0 else 1
      ensures Reg() == Registry.UnbindOne(old(Reg()), graph.scenes, n, name, cb, capture)
    {
      var key := ParseName(name);
      var e := key.name;
      var q := Registry.Query(key.namespace, cb, capture);
      ghost var r0 := Reg();
      assert Registry.UnbindOne(r0, graph.scenes, n, name, cb, capture)
             == Registry.UnbindResolved(r0, graph.scenes, n, e, q);
      if n !in events || e !in events[n] {
        return;
      }
      DropEntries(n, e, q);
      ghost var r2 := Reg();
      ghost var hover := false;
      // remove the implicit mousemove entry; both lookups read "mouseout"
      if e == "mouseover" || e == "mouseout" {
        var boundOut := Registry.Bound(events, "mouseout", n);
        var boundOver := Registry.Bound(events, "mouseout", n);
        if (boundOut.None? || |boundOut.value| == 0) && (boundOver.None? || |boundOver.value| == 0) {
          MousemovePlain();
          hover := true;
          UnbindName(n, "mousemove", Some(Noop), None);
        }
      }
      ghost var noop := Registry.Query(None, Some(Noop), None);
      assert Reg() == if hover then Registry.UnbindResolved(r2, graph.scenes, n, "mousemove", noop) else r2;
      ForgetEmptyScene(n);
    }

    /** `unbind(object3d, eventName, callback, useCapture)` (lines 304-398);
        `cb` and `capture` are None where the caller passed `undefined`. */
    method Unbind(n: Node, name: string, cb: Option<CallbackId>, capture: Option<bool>)
      modifies this`events, this`interactiveItems, this`scene
      ensures Reg() == Registry.Unbind(old(Reg()), graph.scenes, n, name, cb, capture)
      ensures forall e :: RegistryFacts.IndexedOn(old(Reg()), e) ==> RegistryFacts.IndexedOn(Reg(), e)
    {
      RegistryFacts.UnbindIndexed(Reg(), graph.scenes, n, name, cb, capture);
      if ' ' in name {
        var parts := Split(name, ' ');
        while |parts| > 0 && parts[|parts| - 1] != ""
          invariant Registry.UnbindAll(Reg(), graph.scenes, n, PopTokens(parts), cb, capture)
                    == Registry.Unbind(old(Reg()), graph.scenes, n, name, cb, capture)
          decreases |parts|
        {
          var token := parts[|parts| - 1];
          parts := parts[..|parts| - 1];
          UnbindName(n, token, cb, capture);
        }
      } else {
        UnbindName(n, name, cb, capture);
      }
    }

    /** `removeEvents(object3d)` (lines 403-410). */
    method RemoveEvents(n: Node)
      requires Valid()
      modifies this`events, this`interactiveItems, this`scene
      ensures Reg() == Registry.RemoveEvents(old(Reg()), graph.scenes, n)
      ensures Valid()
    {
      ghost var r0 := Reg();
      Unbind(n, Registry.EventNamesString, None, None);
      ghost var r1 := Reg();
      events := events - {n};
      assert Ptr() == old(Ptr()) && RecordsBelow(Ptr());
      assert Reg() == r1.(events := r1.events - {n});
      RegistryFacts.RemoveEventsSteps(r0, graph.scenes, n, r1);
    }

    // -------------------------------------------------------- dispatch

    /** `dispatch(eventName, object3d, intersect, data)` (lines 569-604). */
    method Dispatch(e: EventName, n: Node, hit: Option<Hit>, data: Option<RecordId>)
      requires graph.Valid()
      modifies this`trace
      decreases n, 1
      ensures trace == old(trace) + DispatchTrace(events, graph, stops, e, n, hit, data)
    {
      var handlers := Registry.Bound(events, e, n);
      if handlers.None? || |handlers.value| == 0 {
        assert !Registry.HasHandlers(events, e, n);
        if n in graph.parent {
          Dispatch(e, graph.parent[n], hit, None);
        }
        return;
      }
      var hs := handlers.value;
      var rec := if data.Some? then data.value else MouseRecord;
      Notify(e, n, hs, rec, hit);
    }

    /** Lines 583-603: the handlers of `n` from the last, each followed by a
        bubble to the parent unless it stopped propagation or captures. */
    method Notify(e: EventName, n: Node, hs: seq<Registry.Handler>, rec: RecordId, hit: Option<Hit>)
      requires graph.Valid()
      modifies this`trace
      decreases n, 0
      ensures trace == old(trace) + HandlersTrace(events, graph, stops, e, n, hs, |hs|, rec, hit)
    {
      var i := |hs|;
      while i > 0
        invariant 0 <= i <= |hs|
        invariant old(trace) + HandlersTrace(events, graph, stops, e, n, hs, |hs|, rec, hit)
                  == trace + HandlersTrace(events, graph, stops, e, n, hs, i, rec, hit)
      {
        i := i - 1;
        var inv := Invocation(e, n, i, hs[i], rec, hit);
        ghost var before := trace;
        ghost var bubble := Bubble(events, graph, stops, e, n, hs[i], inv, rec, hit);
        ghost var rest := HandlersTrace(events, graph, stops, e, n, hs, i, rec, hit);
        assert HandlersTrace(events, graph, stops, e, n, hs, i + 1, rec, hit) == [inv] + bubble + rest;
        trace := trace + [inv];
        if !stops(inv) && !hs[i].useCapture && n in graph.parent {
          Dispatch(e, graph.parent[n], hit, Some(rec));
        }
        assert trace == before + [inv] + bubble;
        assert before + ([inv] + bubble + rest) == trace + rest;
      }
    }

    /** One `this.dispatch(...)` call of an input handler, with `done` the
        calls it made before. */
    method Emit(ghost start: seq<Invocation>, ghost done: seq<Emission>, em: Emission)
      requires graph.Valid() && trace == start + Run(events, graph, stops, done)
      modifies this`trace
      ensures trace == start + Run(events, graph, stops, done + [em])
    {
      RunConcat(events, graph, stops, done, [em]);
      Dispatch(em.eventName, em.target, em.hit, em.data);
    }

    /** `Emit`, with the calls made before split into two parts. */
    method EmitNext(ghost start: seq<Invocation>, ghost done: seq<Emission>, ghost emitted: seq<Emission>, em: Emission)
      requires graph.Valid() && trace == start + Run(events, graph, stops, done + emitted)
      modifies this`trace
      ensures trace == start + Run(events, graph, stops, done + (emitted + [em]))
    {
      Emit(start, done + emitted, em);
      assert done + emitted + [em] == done + (emitted + [em]);
    }

    // ---------------------------------------------------------- mouse

    /** Lines 641-654: the hover target moves to the nearest hit, leaving the
        old one and entering the new one when they differ. */
    method Hover(ghost start: seq<Invocation>, ghost done: seq<Emission>, x: Hit)
      requires graph.Valid() && trace == start + Run(events, graph, stops, done)
      modifies this`trace, this`selected
      ensures selected == Some(x.obj)
      ensures trace == start + Run(events, graph, stops, done + HoverChange(old(selected), x))
    {
      ghost var emitted: seq<Emission> := [];
      assert done + emitted == done;
      var next := x.obj;
      if selected.Some? && selected.value != next {
        Emit(start, done, Emission("mouseout", selected.value, None, None));
        emitted := [Emission("mouseout", selected.value, None, None)];
      }
      if selected != Some(next) {
        Emit(start, done + emitted, Emission("mouseover", next, Some(x), None));
        assert done + emitted + [Emission("mouseover", next, Some(x), None)]
               == done + (emitted + [Emission("mouseover", next, Some(x), None)]);
        emitted := emitted + [Emission("mouseover", next, Some(x), None)];
        selected := Some(next);
      }
      assert emitted == HoverChange(old(selected), x);
    }

    /** Lines 627-656: "mousemove" to each hit from the farthest, then the
        change of hover target at the nearest one. */
    method HoverHits(xs: seq<Hit>)
      requires graph.Valid() && |xs| > 0
      modifies this`trace, this`selected
      ensures selected == Some(xs[0].obj)
      ensures trace == old(trace) + Run(events, graph, stops,
                                        EachHit("mousemove", xs, None) + HoverChange(old(selected), xs[0]))
    {
      ghost var emitted: seq<Emission> := [];
      var i := |xs|;
      while i > 0
        invariant 0 <= i <= |xs|
        invariant trace == old(trace) + Run(events, graph, stops, emitted)
        invariant i > 0 ==> selected == old(selected) && emitted == EachHit("mousemove", xs[i..], None)
        invariant i == 0 ==> selected == Some(xs[0].obj)
                             && emitted == EachHit("mousemove", xs, None) + HoverChange(old(selected), xs[0])
      {
        i := i - 1;
        var x := xs[i];
        EachHitStep("mousemove", xs, i + 1, None);
        Emit(old(trace), emitted, Emission("mousemove", x.obj, Some(x), None));
        emitted := emitted + [Emission("mousemove", x.obj, Some(x), None)];
        if i == 0 {
          assert xs[0..] == xs;
          Hover(old(trace), emitted, x);
          emitted := emitted + HoverChange(old(selected), x);
        }
      }
    }

    /** `onMouseMove` (lines 606-663). */
    method OnMouseMove(hits: seq<Hit>)
      requires Valid()
      modifies this`trace, this`selected
      ensures Ptr() == MouseMove(old(Ptr()), Reg(), enabled, hits).ptr
      ensures trace == old(trace) + Run(events, graph, stops, MouseMove(old(Ptr()), Reg(), enabled, hits).emitted)
      ensures Valid()
    {
      if !enabled {
        return;
      }
      var items := Registry.Items(Reg(), "mousemove");
      if |items| == 0 {
        return;
      }
      var xs := Intersect(scene, hits);
      if |xs| > 0 {
        HoverHits(xs);
      } else {
        if selected.Some? {
          Emit(old(trace), [], Emission("mouseout", selected.value, None, None));
        }
        selected := None;
      }
    }

    /** Lines 691-700: set the button's flag on each hit object, from the
        farthest, and dispatch the down event to it. */
    method PressHits(down: EventName, right: bool, xs: seq<Hit>)
      requires graph.Valid()
      modifies this`trace, this`isDown, this`isRightDown
      ensures trace == old(trace) + Run(events, graph, stops, EachHit(down, xs, None))
      ensures isRightDown == if right then old(isRightDown) + Objects(xs) else old(isRightDown)
      ensures isDown == if right then old(isDown) else old(isDown) + Objects(xs)
    {
      ghost var t0, d0, r0 := trace, isDown, isRightDown;
      ghost var emitted: seq<Emission> := [];
      var i := |xs|;
      while i > 0
        invariant 0 <= i <= |xs|
        invariant trace == t0 + Run(events, graph, stops, emitted)
        invariant emitted == EachHit(down, xs[i..], None)
        invariant right ==> isRightDown == r0 + Objects(xs[i..]) && isDown == d0
        invariant !right ==> isDown == d0 + Objects(xs[i..]) && isRightDown == r0
      {
        i := i - 1;
        var x := xs[i];
        EachHitStep(down, xs, i + 1, None);
        ObjectsStep(xs, i + 1);
        PressHit(t0, emitted, down, right, x);
        emitted := emitted + [Emission(down, x.obj, Some(x), None)];
      }
      assert xs[0..] == xs;
    }

    /** Lines 695-698, one hit. */
    method PressHit(ghost start: seq<Invocation>, ghost emitted: seq<Emission>, down: EventName, right: bool, x: Hit)
      requires graph.Valid() && trace == start + Run(events, graph, stops, emitted)
      modifies this`trace, this`isDown, this`isRightDown
      ensures trace == start + Run(events, graph, stops, emitted + [Emission(down, x.obj, Some(x), None)])
      ensures isRightDown == if right then old(isRightDown) + {x.obj} else old(isRightDown)
      ensures isDown == if right then old(isDown) else old(isDown) + {x.obj}
    {
      if right {
        isRightDown := isRightDown + {x.obj};
      } else {
        isDown := isDown + {x.obj};
      }
      Emit(start, emitted, Emission(down, x.obj, Some(x), None));
    }

    /** `onMouseDown` (lines 665-701), for an event with the given `button`
        and `which`. */
    method OnMouseDown(button: int, which: int, hits: seq<Hit>)
      requires Valid()
      modifies this`trace, this`isDown, this`isRightDown
      ensures var right := IsRightButton(button, which);
              && Ptr() == MouseDown(old(Ptr()), Reg(), enabled, right, hits).ptr
              && trace == old(trace) + Run(events, graph, stops, MouseDown(old(Ptr()), Reg(), enabled, right, hits).emitted)
      ensures Valid()
    {
      if !enabled {
        return;
      }
      var right := IsRightButton(button, which);
      var down := if right then "rightdown" else "mousedown";
      var items := Registry.Items(Reg(), down);
      if |items| == 0 {
        return;
      }
      PressHits(down, right, Intersect(scene, hits));
    }

    /** Lines 723-737: clear the button's flag on each hit object, from the
        farthest, and dispatch the up event to it. */
    method ReleaseHits(up: EventName, right: bool, xs: seq<Hit>)
      requires graph.Valid()
      modifies this`trace, this`isDown, this`isRightDown
      ensures trace == old(trace) + Run(events, graph, stops, EachHit(up, xs, None))
      ensures isRightDown == if right then old(isRightDown) - Objects(xs) else old(isRightDown)
      ensures isDown == if right then old(isDown) else old(isDown) - Objects(xs)
    {
      ghost var emitted: seq<Emission> := [];
      var i := |xs|;
      while i > 0
        invariant 0 <= i <= |xs|
        invariant trace == old(trace) + Run(events, graph, stops, emitted)
        invariant emitted == EachHit(up, xs[i..], None)
        invariant isRightDown == if right then old(isRightDown) - Objects(xs[i..]) else old(isRightDown)
        invariant isDown == if right then old(isDown) else old(isDown) - Objects(xs[i..])
      {
        i := i - 1;
        var x := xs[i];
        ObjectsStep(xs, i + 1);
        EachHitStep(up, xs, i + 1, None);
        ReleaseHit(old(trace), emitted, up, right, x);
        emitted := emitted + [Emission(up, x.obj, Some(x), None)];
      }
      assert xs[0..] == xs;
    }

    /** Lines 732-736, one hit. */
    method ReleaseHit(ghost start: seq<Invocation>, ghost emitted: seq<Emission>, up: EventName, right: bool, x: Hit)
      requires graph.Valid() && trace == start + Run(events, graph, stops, emitted)
      modifies this`trace, this`isDown, this`isRightDown
      ensures trace == start + Run(events, graph, stops, emitted + [Emission(up, x.obj, Some(x), None)])
      ensures isRightDown == if right then old(isRightDown) - {x.obj} else old(isRightDown)
      ensures isDown == if right then old(isDown) else old(isDown) - {x.obj}
    {
      if right {
        isRightDown := isRightDown - {x.obj};
      } else {
        isDown := isDown - {x.obj};
      }
      Emit(start, emitted, Emission(up, x.obj, Some(x), None));
    }

    /** Lines 740-752: each node registered for the up-outside event, from
        the last, that still has the button's flag gets the event and loses
        the flag. */
    method SweepOutside(outside: EventName, right: bool, items: seq<Node>)
      requires graph.Valid()
      modifies this`trace, this`isDown, this`isRightDown
      ensures var sweep := UpSweep(if right then old(isRightDown) else old(isDown), items, outside);
              && trace == old(trace) + Run(events, graph, stops, sweep.emitted)
              && isRightDown == (if right then sweep.flags else old(isRightDown))
              && isDown == (if right then old(isDown) else sweep.flags)
    {
      ghost var sweep := UpSweep(if right then isRightDown else isDown, items, outside);
      ghost var emitted: seq<Emission> := [];
      var k := |items|;
      assert items[..k] == items;
      while k > 0
        invariant 0 <= k <= |items|
        invariant trace == old(trace) + Run(events, graph, stops, emitted)
        invariant (if right then isDown else isRightDown) == (if right then old(isDown) else old(isRightDown))
        invariant sweep.flags == UpSweep(if right then isRightDown else isDown, items[..k], outside).flags
        invariant sweep.emitted
                  == emitted + UpSweep(if right then isRightDown else isDown, items[..k], outside).emitted
      {
        k := k - 1;
        var n := items[k];
        assert items[..k + 1][..k] == items[..k];
        if n in (if right then isRightDown else isDown) {
          Emit(old(trace), emitted, Emission(outside, n, None, None));
          emitted := emitted + [Emission(outside, n, None, None)];
          if right {
            isRightDown := isRightDown - {n};
          } else {
            isDown := isDown - {n};
          }
        }
      }
      assert items[..0] == [];
      assert emitted == sweep.emitted;
      assert sweep == UpSweep(if right then old(isRightDown) else old(isDown), items, outside);
    }

    /** Lines 723-752: the up event to each hit, then the up-outside sweep
        over the nodes registered for it. */
    method ReleaseThenSweep(up: EventName, outside: EventName, right: bool, xs: seq<Hit>)
      requires graph.Valid()
      modifies this`trace, this`isDown, this`isRightDown
      ensures var sweep := UpSweep((if right then old(isRightDown) else old(isDown)) - Objects(xs),
                                   Registry.Items(Reg(), outside), outside);
              && trace == old(trace) + Run(events, graph, stops, EachHit(up, xs, None) + sweep.emitted)
              && isRightDown == (if right then sweep.flags else old(isRightDown))
              && isDown == (if right then old(isDown) else sweep.flags)
    {
      ghost var start := trace;
      ghost var other := if right then isDown else isRightDown;
      ghost var flags := (if right then isRightDown else isDown) - Objects(xs);
      var items := Registry.Items(Reg(), outside);
      ReleaseHits(up, right, xs);
      assert (if right then isRightDown else isDown) == flags;
      ghost var released := trace;
      ghost var sweep := UpSweep(flags, items, outside);
      SweepOutside(outside, right, items);
      assert trace == released + Run(events, graph, stops, sweep.emitted);
      assert (if right then isRightDown else isDown) == sweep.flags;
      assert (if right then isDown else isRightDown) == other;
      RunConcat(events, graph, stops, EachHit(up, xs, None), sweep.emitted);
      assert trace == start + Run(events, graph, stops, EachHit(up, xs, None) + sweep.emitted);
    }

    /** `onMouseUp` (lines 703-753). */
    method OnMouseUp(button: int, which: int, hits: seq<Hit>)
      requires Valid()
      modifies this`trace, this`isDown, this`isRightDown
      ensures var right := IsRightButton(button, which);
              && Ptr() == MouseUp(old(Ptr()), Reg(), enabled, right, hits).ptr
              && trace == old(trace) + Run(events, graph, stops, MouseUp(old(Ptr()), Reg(), enabled, right, hits).emitted)
      ensures Valid()
    {
      if !enabled {
        return;
      }
      var right := IsRightButton(button, which);
      var up := if right then "rightup" else "mouseup";
      var outside := if right then "rightupoutside" else "mouseupoutside";
      var items := Registry.Items(Reg(), up);
      var xs := if |items| > 0 then Intersect(scene, hits) else [];
      ReleaseThenSweep(up, outside, right, xs);
      FlagsKeepRecords(old(Ptr()), Ptr());
    }

    /** The body shared by `onClick`, `onDblClick` and `onContextmenu`. */
    method BroadcastHits(e: EventName, hits: seq<Hit>)
      requires Valid()
      modifies this`trace
      ensures trace == old(trace) + Run(events, graph, stops, Broadcast(Reg(), enabled, e, hits))
    {
      if !enabled {
        return;
      }
      var items := Registry.Items(Reg(), e);
      if |items| == 0 {
        return;
      }
      var xs := Intersect(scene, hits);
      ghost var emitted: seq<Emission> := [];
      var i := |xs|;
      while i > 0
        invariant 0 <= i <= |xs|
        invariant trace == old(trace) + Run(events, graph, stops, emitted)
        invariant emitted == EachHit(e, xs[i..], None)
      {
        i := i - 1;
        var x := xs[i];
        EachHitStep(e, xs, i + 1, None);
        Emit(old(trace), emitted, Emission(e, x.obj, Some(x), None));
        emitted := emitted + [Emission(e, x.obj, Some(x), None)];
      }
      assert xs[0..] == xs;
    }

    /** `onClick` (lines 755-786). */
    method OnClick(hits: seq<Hit>)
      requires Valid()
      modifies this`trace
      ensures trace == old(trace) + Run(events, graph, stops, Broadcast(Reg(), enabled, "click", hits))
    {
      BroadcastHits("click", hits);
    }

    /** `onDblClick` (lines 788-819). */
    method OnDblClick(hits: seq<Hit>)
      requires Valid()
      modifies this`trace
      ensures trace == old(trace) + Run(events, graph, stops, Broadcast(Reg(), enabled, "dblclick", hits))
    {
      BroadcastHits("dblclick", hits);
    }

    /** `onContextmenu` (lines 821-852). */
    method OnContextmenu(hits: seq<Hit>)
      requires Valid()
      modifies this`trace
      ensures trace == old(trace) + Run(events, graph, stops, Broadcast(Reg(), enabled, "contextmenu", hits))
    {
      BroadcastHits("contextmenu", hits);
    }

    // ---------------------------------------------------------- touch

    /** `this.pool.pop() || new THREE.InteractionData()`. */
    method AcquireRecord() returns (rec: RecordId)
      modifies this`pool, this`nextRecord
      ensures Acquired(Ptr(), rec) == Acquire(old(Ptr()))
    {
      var popped: Option<RecordId> := None;
      if |pool| > 0 {
        popped := pool[|pool| - 1];
        pool := pool[..|pool| - 1];
      }
      if popped.Some? {
        rec := popped.value;
      } else {
        rec := nextRecord;
        nextRecord := nextRecord + 1;
      }
    }

    /** Lines 940-947 for one touch: from the farthest hit, each object keeps
        the touch's record, gets its down flag and "touchstart". */
    method StartTouchHits(ghost start: seq<Invocation>, ghost done: seq<Emission>, id: TouchId, rec: RecordId, xs: seq<Hit>)
      requires graph.Valid() && trace == start + Run(events, graph, stops, done)
      modifies this`trace, this`touchData, this`isDown
      ensures Ptr() == StartHits(old(Ptr()), id, rec, xs).ptr
      ensures trace == start + Run(events, graph, stops, done + StartHits(old(Ptr()), id, rec, xs).emitted)
    {
      ghost var goal := StartHits(Ptr(), id, rec, xs);
      ghost var emitted: seq<Emission> := [];
      assert done + emitted == done;
      StartHitsFromStart(Ptr(), id, rec, xs);
      var j := |xs|;
      while j > 0
        invariant 0 <= j <= |xs|
        invariant trace == start + Run(events, graph, stops, done + emitted)
        invariant StartHitsFrom(goal, Ptr(), id, rec, xs, j, emitted)
      {
        StartHitsFromStep(goal, Ptr(), id, rec, xs, j, emitted);
        j := j - 1;
        var x := xs[j];
        ghost var next := Ptr().(touchData := touchData[(x.obj, id) := rec], isDown := isDown + {x.obj});
        var em := Emission("touchstart", x.obj, Some(x), Some(rec));
        StartHit(start, done, emitted, id, rec, x);
        emitted := emitted + [em];
        assert Ptr() == next;
      }
      StartHitsFromDone(goal, Ptr(), id, rec, xs, emitted);
    }

    /** Lines 941-945, one hit. */
    method StartHit(ghost start: seq<Invocation>, ghost done: seq<Emission>, ghost emitted: seq<Emission>,
                    id: TouchId, rec: RecordId, x: Hit)
      requires graph.Valid() && trace == start + Run(events, graph, stops, done + emitted)
      modifies this`trace, this`touchData, this`isDown
      ensures touchData == old(touchData)[(x.obj, id) := rec] && isDown == old(isDown) + {x.obj}
      ensures trace == start + Run(events, graph, stops, done + (emitted + [Emission("touchstart", x.obj, Some(x), Some(rec))]))
    {
      var em := Emission("touchstart", x.obj, Some(x), Some(rec));
      touchData := touchData[(x.obj, id) := rec];
      isDown := isDown + {x.obj};
      EmitNext(start, done, emitted, em);
    }

    /** Lines 931-948, one changed touch. */
    method StartOneTouch(ghost start: seq<Invocation>, ghost done: seq<Emission>, t: TouchPoint)
      requires graph.Valid() && trace == start + Run(events, graph, stops, done)
      modifies this`trace, this`touches, this`pool, this`nextRecord, this`touchData, this`isDown
      ensures Ptr() == StartTouch(old(Ptr()), scene, t).ptr
      ensures trace == start + Run(events, graph, stops, done + StartTouch(old(Ptr()), scene, t).emitted)
    {
      var rec := AcquireRecord();
      touches := touches[t.id := rec];
      StartTouchHits(start, done, t.id, rec, Intersect(scene, t.hits));
    }

    /** Lines 929-949: each changed touch in order takes a record, is
        tracked under its identifier and starts on what it hits. */
    method StartTouches(ts: seq<TouchPoint>)
      requires graph.Valid()
      modifies this`trace, this`touches, this`pool, this`nextRecord, this`touchData, this`isDown
      ensures Ptr() == TouchStartEach(old(Ptr()), scene, ts).ptr
      ensures trace == old(trace) + Run(events, graph, stops, TouchStartEach(old(Ptr()), scene, ts).emitted)
    {
      ghost var goal := TouchStartEach(Ptr(), scene, ts);
      ghost var emitted: seq<Emission> := [];
      StartsFromStart(Ptr(), scene, ts);
      for i := 0 to |ts|
        invariant trace == old(trace) + Run(events, graph, stops, emitted)
        invariant StartsFrom(goal, Ptr(), scene, ts, i, emitted)
      {
        StartsFromStep(goal, Ptr(), scene, ts, i, emitted);
        ghost var s := StartTouch(Ptr(), scene, ts[i]);
        StartOneTouch(old(trace), emitted, ts[i]);
        emitted := emitted + s.emitted;
      }
      StartsFromDone(goal, Ptr(), scene, ts, emitted);
    }

    /** `onTouchStart` (lines 902-950). */
    method OnTouchStart(ts: seq<TouchPoint>)
      requires Valid()
      modifies this`trace, this`touches, this`pool, this`nextRecord, this`touchData, this`isDown
      ensures Ptr() == TouchStart(old(Ptr()), Reg(), enabled, ts).ptr
      ensures trace == old(trace) + Run(events, graph, stops, TouchStart(old(Ptr()), Reg(), enabled, ts).emitted)
      ensures Valid()
    {
      if !enabled {
        return;
      }
      var items := Registry.Items(Reg(), "touchstart");
      if |items| == 0 {
        return;
      }
      StartTouches(ts);
      TouchHandlersKeepRecords(old(Ptr()), Reg(), ts);
    }

    /** Lines 890-897 for one touch: from the farthest hit, each object that
        holds a record for the touch gets "touchmove" with it. */
    method MoveTouchHits(ghost start: seq<Invocation>, ghost done: seq<Emission>, id: TouchId, xs: seq<Hit>)
      requires graph.Valid() && trace == start + Run(events, graph, stops, done)
      modifies this`trace
      ensures trace == start + Run(events, graph, stops, done + MoveHits(old(Ptr()), id, xs))
    {
      ghost var goal := MoveHits(Ptr(), id, xs);
      ghost var emitted: seq<Emission> := [];
      assert done + emitted == done;
      MoveHitsFromStart(Ptr(), id, xs);
      var j := |xs|;
      while j > 0
        invariant 0 <= j <= |xs|
        invariant trace == start + Run(events, graph, stops, done + emitted)
        invariant MoveHitsFrom(goal, Ptr(), id, xs, j, emitted)
      {
        MoveHitsFromStep(goal, Ptr(), id, xs, j, emitted);
        j := j - 1;
        var x := xs[j];
        if (x.obj, id) in touchData {
          var em := Emission("touchmove", x.obj, Some(x), Some(touchData[(x.obj, id)]));
          EmitNext(start, done, emitted, em);
          emitted := emitted + [em];
        }
      }
      MoveHitsFromDone(goal, Ptr(), id, xs, emitted);
    }

    /** Lines 884-898, one tracked changed touch. */
    method MoveOneTouch(ghost start: seq<Invocation>, ghost done: seq<Emission>, t: TouchPoint)
      requires graph.Valid() && trace == start + Run(events, graph, stops, done)
      modifies this`trace
      ensures trace == start + Run(events, graph, stops, done + MoveTouch(Ptr(), scene, t))
    {
      MoveTouchHits(start, done, t.id, Intersect(scene, t.hits));
    }

    /** Lines 882-899: each changed touch in order; one with no live record
        ends the handler with a TypeError. */
    method MoveTouches(ts: seq<TouchPoint>) returns (threw: bool)
      requires graph.Valid()
      modifies this`trace
      ensures trace == old(trace) + Run(events, graph, stops, TouchMoveEach(Ptr(), scene, ts).emitted)
      ensures threw == TouchMoveEach(Ptr(), scene, ts).threw
    {
      ghost var goal := TouchMoveEach(Ptr(), scene, ts);
      ghost var emitted: seq<Emission> := [];
      MovesFromStart(Ptr(), scene, ts);
      for i := 0 to |ts|
        invariant trace == old(trace) + Run(events, graph, stops, emitted)
        invariant MovesFrom(goal, Ptr(), scene, ts, i, emitted)
      {
        MovesFromStep(goal, Ptr(), scene, ts, i, emitted);
        if ts[i].id !in touches {
          return true;
        }
        ghost var here := MoveTouch(Ptr(), scene, ts[i]);
        MoveOneTouch(old(trace), emitted, ts[i]);
        emitted := emitted + here;
      }
      MovesFromDone(goal, Ptr(), scene, ts, emitted);
      return false;
    }

    /** `onTouchMove` (lines 854-900); `threw` tells whether it ended with a
        TypeError. */
    method OnTouchMove(ts: seq<TouchPoint>) returns (threw: bool)
      requires Valid()
      modifies this`trace
      ensures trace == old(trace) + Run(events, graph, stops, TouchMove(Ptr(), Reg(), enabled, ts).emitted)
      ensures threw == TouchMove(Ptr(), Reg(), enabled, ts).threw
    {
      if !enabled {
        return false;
      }
      var items := Registry.Items(Reg(), "touchmove");
      if |items| == 0 {
        return false;
      }
      threw := MoveTouches(ts);
    }

    /** Lines 988-997 for one touch: from the farthest hit, each object that
        holds a record for the touch gets "touchend" with it, then loses its
        down flag and the record. */
    method EndTouchHits(ghost start: seq<Invocation>, ghost done: seq<Emission>, id: TouchId, xs: seq<Hit>)
      requires graph.Valid() && trace == start + Run(events, graph, stops, done)
      modifies this`trace, this`isDown, this`touchData
      ensures Ptr() == EndHits(old(Ptr()), id, xs).ptr
      ensures trace == start + Run(events, graph, stops, done + EndHits(old(Ptr()), id, xs).emitted)
    {
      ghost var goal := EndHits(Ptr(), id, xs);
      ghost var emitted: seq<Emission> := [];
      assert done + emitted == done;
      EndHitsFromStart(Ptr(), id, xs);
      var j := |xs|;
      while j > 0
        invariant 0 <= j <= |xs|
        invariant trace == start + Run(events, graph, stops, done + emitted)
        invariant EndHitsFrom(goal, Ptr(), id, xs, j, emitted)
      {
        EndHitsFromStep(goal, Ptr(), id, xs, j, emitted);
        j := j - 1;
        var x := xs[j];
        if (x.obj, id) in touchData {
          var em := Emission("touchend", x.obj, Some(x), Some(touchData[(x.obj, id)]));
          ghost var next := Ptr().(isDown := isDown - {x.obj}, touchData := touchData - {(x.obj, id)});
          EndHit(start, done, emitted, id, x);
          emitted := emitted + [em];
          assert Ptr() == next;
        }
      }
      EndHitsFromDone(goal, Ptr(), id, xs, emitted);
    }

    /** Lines 992-997, one hit on an object holding a record for the touch. */
    method EndHit(ghost start: seq<Invocation>, ghost done: seq<Emission>, ghost emitted: seq<Emission>,
                  id: TouchId, x: Hit)
      requires graph.Valid() && trace == start + Run(events, graph, stops, done + emitted)
      requires (x.obj, id) in touchData
      modifies this`trace, this`isDown, this`touchData
      ensures isDown == old(isDown) - {x.obj} && touchData == old(touchData) - {(x.obj, id)}
      ensures trace == start + Run(events, graph, stops,
                                   done + (emitted + [Emission("touchend", x.obj, Some(x), Some(old(touchData)[(x.obj, id)]))]))
    {
      EmitNext(start, done, emitted, Emission("touchend", x.obj, Some(x), Some(touchData[(x.obj, id)])));
      isDown := isDown - {x.obj};
      touchData := touchData - {(x.obj, id)};
    }

    /** Lines 1000-1011 for one touch: from the last registered node, each
        one still down and holding a record for the touch gets
        "touchendoutside" and loses its down flag. */
    method EndTouchOutside(ghost start: seq<Invocation>, ghost done: seq<Emission>, id: TouchId, items: seq<Node>)
      requires graph.Valid() && trace == start + Run(events, graph, stops, done)
      modifies this`trace, this`isDown
      ensures Ptr() == EndOutside(old(Ptr()), id, items).ptr
      ensures trace == start + Run(events, graph, stops, done + EndOutside(old(Ptr()), id, items).emitted)
    {
      ghost var goal := EndOutside(Ptr(), id, items);
      ghost var emitted: seq<Emission> := [];
      assert done + emitted == done;
      EndOutsideFromStart(Ptr(), id, items);
      var j := |items|;
      while j > 0
        invariant 0 <= j <= |items|
        invariant trace == start + Run(events, graph, stops, done + emitted)
        invariant EndOutsideFrom(goal, Ptr(), id, items, j, emitted)
      {
        EndOutsideFromStep(goal, Ptr(), id, items, j, emitted);
        j := j - 1;
        var n := items[j];
        if n in isDown && (n, id) in touchData {
          var em := Emission("touchendoutside", n, None, Some(touchData[(n, id)]));
          ghost var next := Ptr().(isDown := isDown - {n});
          EmitNext(start, done, emitted, em);
          emitted := emitted + [em];
          isDown := isDown - {n};
          assert Ptr() == next;
        }
      }
      EndOutsideFromDone(goal, Ptr(), id, items, emitted);
    }

    /** Lines 984-1011, one tracked changed touch. */
    method EndOneTouch(ghost start: seq<Invocation>, ghost done: seq<Emission>, t: TouchPoint, items: seq<Node>)
      requires graph.Valid() && trace == start + Run(events, graph, stops, done)
      requires items == Registry.Items(Reg(), "touchend")
      modifies this`trace, this`isDown, this`touchData
      ensures Ptr() == EndTouch(old(Ptr()), Reg(), t).ptr
      ensures trace == start + Run(events, graph, stops, done + EndTouch(old(Ptr()), Reg(), t).emitted)
    {
      ghost var s1 := EndHits(Ptr(), t.id, Intersect(scene, t.hits));
      EndTouchHits(start, done, t.id, Intersect(scene, t.hits));
      ghost var s2 := EndOutside(Ptr(), t.id, items);
      EndTouchOutside(start, done + s1.emitted, t.id, items);
      assert done + s1.emitted + s2.emitted == done + (s1.emitted + s2.emitted);
    }

    /** Lines 976-1013: each changed touch in order; with "touchend" items
        registered, a touch with no live record ends the handler with a
        TypeError. */
    method EndTouches(ts: seq<TouchPoint>) returns (threw: bool)
      requires graph.Valid()
      modifies this`trace, this`isDown, this`touchData
      ensures Ptr() == TouchEndEach(old(Ptr()), Reg(), ts).ptr
      ensures trace == old(trace) + Run(events, graph, stops, TouchEndEach(old(Ptr()), Reg(), ts).emitted)
      ensures threw == TouchEndEach(old(Ptr()), Reg(), ts).threw
    {
      ghost var goal := TouchEndEach(Ptr(), Reg(), ts);
      ghost var emitted: seq<Emission> := [];
      var items := Registry.Items(Reg(), "touchend");
      EndsFromStart(Ptr(), Reg(), ts);
      for i := 0 to |ts|
        invariant trace == old(trace) + Run(events, graph, stops, emitted)
        invariant EndsFrom(goal, Ptr(), Reg(), ts, i, emitted)
      {
        EndsFromStep(goal, Ptr(), Reg(), ts, i, emitted);
        if |items| > 0 {
          if ts[i].id !in touches {
            return true;
          }
          ghost var s := EndTouch(Ptr(), Reg(), ts[i]);
          EndOneTouch(old(trace), emitted, ts[i], items);
          emitted := emitted + s.emitted;
        }
      }
      EndsFromDone(goal, Ptr(), Reg(), ts, emitted);
      return false;
    }

    /** `onTouchEnd` (lines 952-1018): after the loop only the last changed
        touch's record goes back to the pool and only its slot is cleared;
        with no changed touch `undefined` is pushed and the handler ends with
        a TypeError. */
    method OnTouchEnd(ts: seq<TouchPoint>) returns (threw: bool)
      requires Valid()
      modifies this`trace, this`isDown, this`touchData, this`pool, this`touches
      ensures Ptr() == TouchEnd(old(Ptr()), Reg(), enabled, ts).ptr
      ensures trace == old(trace) + Run(events, graph, stops, TouchEnd(old(Ptr()), Reg(), enabled, ts).emitted)
      ensures threw == TouchEnd(old(Ptr()), Reg(), enabled, ts).threw
      ensures Valid()
    {
      if !enabled {
        return false;
      }
      threw := EndTouches(ts);
      TouchHandlersKeepRecords(old(Ptr()), Reg(), ts);
      if threw {
        return;
      }
      if |ts| == 0 {
        pool := pool + [None];
        return true;
      }
      var last := ts[|ts| - 1].id;
      var released := if last in touches then Some(touches[last]) else None;
      pool := pool + [released];
      touches := touches - {last};
    }
  }
}
