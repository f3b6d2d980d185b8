/** `dispatch` as a value: the sequence of callback invocations one call
    produces, walking the handlers of a node from last to first and bubbling
    to the parent after each handler that neither stopped propagation nor was
    registered for capture. */
module Dispatch {
  import opened Base
  import opened Registry

  /** One call of a handler's callback, with what the shared record holds at
      that moment: `eventName`, `target`, `intersect` (and `toPropagate`,
      which is always true when the callback starts). */
  datatype Invocation = Invocation(eventName: EventName, target: Node, index: nat, handler: Handler,
                                   record: RecordId, hit: Option<Hit>)

  /** Whether the callback calls `stopPropagation` during an invocation. */
  type Oracle = Invocation -> bool

  /** `dispatch(eventName, object3d, intersect, data)` (lines 569-604). With
      no handlers it passes the event to the parent and drops `data`
      (line 575); otherwise `data` defaults to the mouse record. */
  function DispatchTrace(events: map<Node, Listeners>, g: Graph, stops: Oracle, e: EventName, n: Node,
                         hit: Option<Hit>, data: Option<RecordId>): seq<Invocation>
    requires g.Valid()
    decreases n, 1
  {
    if !HasHandlers(events, e, n) then
      if n in g.parent then DispatchTrace(events, g, stops, e, g.parent[n], hit, None) else []
    else
      var hs := Listening(events, e, n);
      HandlersTrace(events, g, stops, e, n, hs, |hs|, if data.Some? then data.value else MouseRecord, hit)
  }

  /** The loop of lines 583-603 over handlers `i - 1` down to 0. After each
      callback that left `toPropagate` set, a non-capture handler bubbles the
      whole event to the parent once more (line 601). */
  function HandlersTrace(events: map<Node, Listeners>, g: Graph, stops: Oracle, e: EventName, n: Node,
                         hs: seq<Handler>, i: nat, rec: RecordId, hit: Option<Hit>): seq<Invocation>
    requires g.Valid() && i <= |hs|
    decreases n, 0, i
  {
    if i == 0 then []
    else
      var inv := Invocation(e, n, i - 1, hs[i - 1], rec, hit);
      var rest := HandlersTrace(events, g, stops, e, n, hs, i - 1, rec, hit);
      [inv] + Bubble(events, g, stops, e, n, hs[i - 1], inv, rec, hit) + rest
  }

  /** Lines 594-602: what follows one invocation at `n`. */
  function Bubble(events: map<Node, Listeners>, g: Graph, stops: Oracle, e: EventName, n: Node,
                  h: Handler, inv: Invocation, rec: RecordId, hit: Option<Hit>): seq<Invocation>
    requires g.Valid()
    decreases n, 0, 0
  {
    if !stops(inv) && !h.useCapture && n in g.parent
    then DispatchTrace(events, g, stops, e, g.parent[n], hit, Some(rec))
    else []
  }

  /** One `this.dispatch(...)` call made by an input handler. */
  datatype Emission = Emission(eventName: EventName, target: Node, hit: Option<Hit>, data: Option<RecordId>)

  /** The invocations a sequence of dispatch calls produces, in order. */
  function Run(events: map<Node, Listeners>, g: Graph, stops: Oracle, ems: seq<Emission>): seq<Invocation>
    requires g.Valid()
    decreases |ems|
  {
    if ems == [] then []
    else
      var em := ems[0];
      DispatchTrace(events, g, stops, em.eventName, em.target, em.hit, em.data) + Run(events, g, stops, ems[1..])
  }
}

/** What one `dispatch` call promises: where the event goes, in which order
    the handlers of a node run, and when bubbling stops. */
module DispatchFacts {
  import opened Base
  import opened Registry
  import opened Dispatch

  /** The invocations whose target is `n`, in order. */
  function AtNode(tr: seq<Invocation>, n: Node): (at: seq<Invocation>)
    decreases |tr|
  {
    if tr == [] then []
    else (if tr[0].target == n then [tr[0]] else []) + AtNode(tr[1..], n)
  }

  lemma {:induction false} AtNodeConcat(a: seq<Invocation>, b: seq<Invocation>, n: Node)
    decreases |a|
    ensures AtNode(a + b, n) == AtNode(a, n) + AtNode(b, n)
  {
    if a != [] {
      assert (a + b)[0] == a[0];
      assert (a + b)[1..] == a[1..] + b;
      AtNodeConcat(a[1..], b, n);
    } else {
      assert a + b == b;
    }
  }

  lemma {:induction false} AtNodeAbsent(tr: seq<Invocation>, n: Node)
    requires forall inv :: inv in tr ==> inv.target != n
    decreases |tr|
    ensures AtNode(tr, n) == []
  {
    if tr != [] {
      assert tr[0] in tr;
      assert forall inv :: inv in tr[1..] ==> inv in tr;
      AtNodeAbsent(tr[1..], n);
    }
  }

  /** The chain above a parent is part of the chain above its child. */
  lemma ChainOfParent(g: Graph, n: Node)
    requires g.Valid() && n in g.parent
    ensures Chain(g, n) == [n] + Chain(g, g.parent[n])
    ensures forall c :: c in Chain(g, g.parent[n]) ==> c in Chain(g, n) && c < n
  {
  }

  /** The invocation is one the dispatch of `e` from `n` can make: right name
      and hit, a target on the chain from `n` to the root, and a handler
      registered there. */
  ghost predicate Sound(events: map<Node, Listeners>, g: Graph, e: EventName, n: Node, hit: Option<Hit>,
                        inv: Invocation)
    requires g.Valid()
  {
    && inv.eventName == e && inv.hit == hit
    && inv.target in Chain(g, n)
    && inv.index < |Listening(events, e, inv.target)|
    && inv.handler == Listening(events, e, inv.target)[inv.index]
  }

  /** Every invocation carries the dispatched name and hit, and calls a
      handler registered for that name on the target or one of its
      ancestors. */
  lemma {:induction false} DispatchSound(events: map<Node, Listeners>, g: Graph, stops: Oracle, e: EventName,
                                         n: Node, hit: Option<Hit>, data: Option<RecordId>)
    requires g.Valid()
    decreases n, 1
    ensures forall inv :: inv in DispatchTrace(events, g, stops, e, n, hit, data) ==> Sound(events, g, e, n, hit, inv)
  {
    if !HasHandlers(events, e, n) {
      if n in g.parent {
        DispatchSound(events, g, stops, e, g.parent[n], hit, None);
        ChainOfParent(g, n);
      }
    } else {
      var hs := Listening(events, e, n);
      HandlersSound(events, g, stops, e, n, hs, |hs|, if data.Some? then data.value else MouseRecord, hit);
    }
  }

  lemma {:induction false} HandlersSound(events: map<Node, Listeners>, g: Graph, stops: Oracle, e: EventName,
                                         n: Node, hs: seq<Handler>, i: nat, rec: RecordId, hit: Option<Hit>)
    requires g.Valid() && i <= |hs| && hs == Listening(events, e, n)
    decreases n, 0, i
    ensures forall inv :: inv in HandlersTrace(events, g, stops, e, n, hs, i, rec, hit) ==> Sound(events, g, e, n, hit, inv)
  {
    if i > 0 {
      var inv := Invocation(e, n, i - 1, hs[i - 1], rec, hit);
      HandlersSound(events, g, stops, e, n, hs, i - 1, rec, hit);
      assert Chain(g, n)[0] == n;
      assert Sound(events, g, e, n, hit, inv);
      if !stops(inv) && !hs[i - 1].useCapture && n in g.parent {
        var p := g.parent[n];
        DispatchSound(events, g, stops, e, p, hit, Some(rec));
        ChainOfParent(g, n);
        forall x | x in DispatchTrace(events, g, stops, e, p, hit, Some(rec))
          ensures Sound(events, g, e, n, hit, x)
        {
          assert Sound(events, g, e, p, hit, x);
        }
      }
    }
  }

  /** The handlers of `n` itself run from the last registered to the first,
      each exactly once, whatever the callbacks do about propagation, each
      seeing the given record (the mouse record by default). */
  lemma {:induction false} HandlersOrder(events: map<Node, Listeners>, g: Graph, stops: Oracle, e: EventName,
                                         n: Node, hs: seq<Handler>, i: nat, rec: RecordId, hit: Option<Hit>)
    requires g.Valid() && i <= |hs| && hs == Listening(events, e, n)
    decreases i
    ensures var at := AtNode(HandlersTrace(events, g, stops, e, n, hs, i, rec, hit), n);
      && |at| == i
      && forall k :: 0 <= k < i ==> at[k] == Invocation(e, n, i - 1 - k, hs[i - 1 - k], rec, hit)
  {
    if i > 0 {
      var inv := Invocation(e, n, i - 1, hs[i - 1], rec, hit);
      var bubble := Bubble(events, g, stops, e, n, hs[i - 1], inv, rec, hit);
      var rest := HandlersTrace(events, g, stops, e, n, hs, i - 1, rec, hit);
      HandlersOrder(events, g, stops, e, n, hs, i - 1, rec, hit);
      if bubble != [] {
        var p := g.parent[n];
        DispatchSound(events, g, stops, e, p, hit, Some(rec));
        ChainOfParent(g, n);
        forall x | x in bubble ensures x.target != n {
          assert Sound(events, g, e, p, hit, x);
        }
      }
      AtNodeAbsent(bubble, n);
      AtNodeConcat([inv] + bubble, rest, n);
      AtNodeConcat([inv], bubble, n);
      assert AtNode([inv], n) == [inv];
    }
  }

  /** On a node with handlers for `e`,
      its handlers are invoked from last-registered to first. */
  lemma DispatchOrder(events: map<Node, Listeners>, g: Graph, stops: Oracle, e: EventName,
                      n: Node, hit: Option<Hit>, data: Option<RecordId>)
    requires g.Valid() && HasHandlers(events, e, n)
    ensures var hs := Listening(events, e, n);
      var rec := if data.Some? then data.value else MouseRecord;
      var at := AtNode(DispatchTrace(events, g, stops, e, n, hit, data), n);
      && |at| == |hs|
      && forall k :: 0 <= k < |hs| ==> at[k] == Invocation(e, n, |hs| - 1 - k, hs[|hs| - 1 - k], rec, hit)
  {
    var hs := Listening(events, e, n);
    HandlersOrder(events, g, stops, e, n, hs, |hs|, if data.Some? then data.value else MouseRecord, hit);
  }

  /** The first node on the chain from `n` to the root that has a handler
      for `e`. */
  function NearestListener(events: map<Node, Listeners>, g: Graph, e: EventName, n: Node): (a: Option<Node>)
    requires g.Valid()
    decreases n
    ensures a.Some? ==> a.value in Chain(g, n) && HasHandlers(events, e, a.value)
    ensures a.Some? ==> forall c :: c in Chain(g, n) && c > a.value ==> !HasHandlers(events, e, c)
    ensures a.None? ==> forall c :: c in Chain(g, n) ==> !HasHandlers(events, e, c)
  {
    if HasHandlers(events, e, n) then Some(n)
    else if n in g.parent then
      ChainOfParent(g, n);
      NearestListener(events, g, e, g.parent[n])
    else None
  }

  /** A dispatch reaches the nearest node
      on the parent chain that has handlers (without the record it was given,
      when that is not `n` itself); with none, no callback runs. */
  lemma {:induction false} PassThrough(events: map<Node, Listeners>, g: Graph, stops: Oracle, e: EventName,
                                       n: Node, hit: Option<Hit>, data: Option<RecordId>)
    requires g.Valid()
    decreases n
    ensures DispatchTrace(events, g, stops, e, n, hit, data) ==
      match NearestListener(events, g, e, n)
      case None => []
      case Some(a) => DispatchTrace(events, g, stops, e, a, hit, if a == n then data else None)
  {
    if !HasHandlers(events, e, n) && n in g.parent {
      PassThrough(events, g, stops, e, g.parent[n], hit, None);
    }
  }

  /** When every handler of `n` either stops
      propagation or was registered for capture, nothing reaches the parent
      and the trace is exactly the handlers of `n`, last to first. */
  lemma {:induction false} StoppedAtNode(events: map<Node, Listeners>, g: Graph, stops: Oracle, e: EventName,
                                         n: Node, hs: seq<Handler>, i: nat, rec: RecordId, hit: Option<Hit>)
    requires g.Valid() && i <= |hs|
    requires forall k :: 0 <= k < i ==> hs[k].useCapture || stops(Invocation(e, n, k, hs[k], rec, hit))
    decreases i
    ensures var tr := HandlersTrace(events, g, stops, e, n, hs, i, rec, hit);
      && |tr| == i
      && forall k :: 0 <= k < i ==> tr[k] == Invocation(e, n, i - 1 - k, hs[i - 1 - k], rec, hit)
  {
    if i > 0 {
      StoppedAtNode(events, g, stops, e, n, hs, i - 1, rec, hit);
    }
  }

  /** Line 575: the record a dispatch was given is kept only while every
      node it crosses has handlers; every invocation sees either that record
      or the manager's mouse record. */
  lemma {:induction false} DispatchRecords(events: map<Node, Listeners>, g: Graph, stops: Oracle, e: EventName,
                                           n: Node, hit: Option<Hit>, data: Option<RecordId>)
    requires g.Valid()
    decreases n, 1
    ensures forall inv :: inv in DispatchTrace(events, g, stops, e, n, hit, data) ==>
      inv.record == MouseRecord || (data.Some? && inv.record == data.value)
  {
    if !HasHandlers(events, e, n) {
      if n in g.parent {
        DispatchRecords(events, g, stops, e, g.parent[n], hit, None);
      }
    } else {
      var hs := Listening(events, e, n);
      HandlersRecords(events, g, stops, e, n, hs, |hs|, if data.Some? then data.value else MouseRecord, hit);
    }
  }

  lemma {:induction false} HandlersRecords(events: map<Node, Listeners>, g: Graph, stops: Oracle, e: EventName,
                                           n: Node, hs: seq<Handler>, i: nat, rec: RecordId, hit: Option<Hit>)
    requires g.Valid() && i <= |hs|
    decreases n, 0, i
    ensures forall inv :: inv in HandlersTrace(events, g, stops, e, n, hs, i, rec, hit) ==>
      inv.record == MouseRecord || inv.record == rec
  {
    if i > 0 {
      var inv := Invocation(e, n, i - 1, hs[i - 1], rec, hit);
      HandlersRecords(events, g, stops, e, n, hs, i - 1, rec, hit);
      if !stops(inv) && !hs[i - 1].useCapture && n in g.parent {
        DispatchRecords(events, g, stops, e, g.parent[n], hit, Some(rec));
      }
    }
  }

  /** Line 575 as written: bubbling through a node without handlers drops
      the record, so a touch dispatched to such a node reaches its ancestors
      with the mouse record instead of the touch's own. */
  lemma PassThroughLosesRecord(events: map<Node, Listeners>, g: Graph, stops: Oracle, e: EventName,
                               n: Node, hit: Option<Hit>, data: Option<RecordId>)
    requires g.Valid() && !HasHandlers(events, e, n)
    ensures forall inv :: inv in DispatchTrace(events, g, stops, e, n, hit, data) ==> inv.record == MouseRecord
  {
    if n in g.parent {
      DispatchRecords(events, g, stops, e, g.parent[n], hit, None);
    }
  }

  /** Line 601 as written: with two bubbling handlers on a child, the
      parent's handler runs twice for one dispatch. */
  lemma ParentRunsOncePerBubblingHandler(h0: Handler, h1: Handler, p: Handler, hit: Option<Hit>)
    requires !h0.useCapture && !h1.useCapture
    ensures var g := Graph(map[1 := 0], {}, {});
      var events := map[1 := map["click" := [h0, h1]], 0 := map["click" := [p]]];
      var none: Oracle := _ => false;
      DispatchTrace(events, g, none, "click", 1, hit, None) ==
        [Invocation("click", 1, 1, h1, MouseRecord, hit), Invocation("click", 0, 0, p, MouseRecord, hit),
         Invocation("click", 1, 0, h0, MouseRecord, hit), Invocation("click", 0, 0, p, MouseRecord, hit)]
  {
    var g := Graph(map[1 := 0], {}, {});
    var events := map[1 := map["click" := [h0, h1]], 0 := map["click" := [p]]];
    var none: Oracle := _ => false;
    var atParent := DispatchTrace(events, g, none, "click", 0, hit, Some(MouseRecord));
    assert HandlersTrace(events, g, none, "click", 0, [p], 0, MouseRecord, hit) == [];
    assert atParent == [Invocation("click", 0, 0, p, MouseRecord, hit)];
    assert HandlersTrace(events, g, none, "click", 1, [h0, h1], 0, MouseRecord, hit) == [];
    assert HandlersTrace(events, g, none, "click", 1, [h0, h1], 1, MouseRecord, hit) ==
      [Invocation("click", 1, 0, h0, MouseRecord, hit)] + atParent;
  }

  /** Dispatch calls made one after another produce their traces one after
      another. */
  lemma {:induction false} RunConcat(events: map<Node, Listeners>, g: Graph, stops: Oracle,
                                     a: seq<Emission>, b: seq<Emission>)
    requires g.Valid()
    decreases |a|
    ensures Run(events, g, stops, a + b) == Run(events, g, stops, a) + Run(events, g, stops, b)
  {
    if a == [] {
      assert a + b == b;
    } else {
      assert (a + b)[1..] == a[1..] + b;
      RunConcat(events, g, stops, a[1..], b);
    }
  }
}
