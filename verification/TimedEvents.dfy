/** The timed-event buffer (common.c): kept sorted in place, the next event to fire last. */
module TimedEvents {
  import opened MachineWord
  import opened Script

  const MAX_TIMED_EVENTS := 1024
  const MAX_TIMEDEVENTARGS := 8

  datatype Event = Event(time: int, triggerTime: int, handler: int, args: seq<int>)

  // ---- the buffer as a sequence ----

  /** Latest first, so the next event to fire is the last. */
  predicate Sorted(events: seq<Event>) {
    forall i, j :: 0 <= i < j < |events| ==> events[i].triggerTime >= events[j].triggerTime
  }

  /** Where a new event goes among the first `n`: behind all that do not fire before it. */
  function Place(events: seq<Event>, n: nat, trigger: int): (at: nat)
    requires n <= |events|
    ensures at <= n
    ensures at > 0 ==> events[at - 1].triggerTime >= trigger
    ensures forall j :: at <= j < n ==> events[j].triggerTime < trigger
  {
    if n == 0 then 0
    else if events[n - 1].triggerTime < trigger then Place(events, n - 1, trigger)
    else n
  }

  function Insert(events: seq<Event>, e: Event): (more: seq<Event>)
    ensures |more| == |events| + 1
  {
    var at := Place(events, |events|, e.triggerTime);
    events[..at] + [e] + events[at..]
  }

  lemma InsertedAt(events: seq<Event>, e: Event, j: nat)
    requires j <= |events|
    ensures (var at := Place(events, |events|, e.triggerTime);
             Insert(events, e)[j] == if j < at then events[j] else if j == at then e else events[j - 1])
  {
    hide Place;
  }

  lemma InsertKeepsSorted(events: seq<Event>, e: Event)
    requires Sorted(events)
    ensures Sorted(Insert(events, e))
  {
    hide Place, Insert;
    var at, more := Place(events, |events|, e.triggerTime), Insert(events, e);
    forall i, j | 0 <= i < j < |more|
      ensures more[i].triggerTime >= more[j].triggerTime
    {
      InsertedAt(events, e, i);
      InsertedAt(events, e, j);
      if i < at <= j {
        assert events[i].triggerTime >= events[at - 1].triggerTime;
      }
    }
  }

  /** Exactly the new event is added. */
  lemma InsertAddsOne(events: seq<Event>, e: Event)
    ensures multiset(Insert(events, e)) == multiset(events) + multiset{e}
  {
    hide Place;
    var at := Place(events, |events|, e.triggerTime);
    assert events == events[..at] + events[at..];
  }

  predicate Due(e: Event, time: int) {
    e.triggerTime <= time
  }

  /** Where the due events among the first `n` begin. */
  function DueFrom(events: seq<Event>, n: nat, time: int): (at: nat)
    requires n <= |events|
    ensures at <= n
    ensures forall i :: at <= i < n ==> Due(events[i], time)
    ensures at > 0 ==> !Due(events[at - 1], time)
  {
    if n == 0 then 0
    else if Due(events[n - 1], time) then DueFrom(events, n - 1, time)
    else n
  }

  function Reversed(events: seq<Event>): (r: seq<Event>)
    ensures |r| == |events| && forall i :: 0 <= i < |r| ==> r[i] == events[|events| - 1 - i]
  {
    seq(|events|, i requires 0 <= i < |events| => events[|events| - 1 - i])
  }

  /** The due events in the order they fire. */
  function Fired(events: seq<Event>, time: int): seq<Event> {
    Reversed(events[DueFrom(events, |events|, time)..])
  }

  function Kept(events: seq<Event>, time: int): seq<Event> {
    events[..DueFrom(events, |events|, time)]
  }

  predicate NonDecreasing(events: seq<Event>) {
    forall i, j :: 0 <= i < j < |events| ==> events[i].triggerTime <= events[j].triggerTime
  }

  lemma {:induction false} ReversedMultiset(events: seq<Event>)
    ensures multiset(Reversed(events)) == multiset(events)
  {
    if events == [] {
      assert Reversed(events) == [];
    } else {
      var n := |events| - 1;
      assert events == events[..n] + [events[n]];
      assert Reversed(events) == [events[n]] + Reversed(events[..n]);
      ReversedMultiset(events[..n]);
    }
  }

  /** In a sorted buffer the due events are those from DueFrom on. */
  lemma DueIsSuffix(events: seq<Event>, time: int, i: nat)
    requires Sorted(events) && i < |events|
    ensures Due(events[i], time) <==> i >= DueFrom(events, |events|, time)
  {
    hide DueFrom;
    var at := DueFrom(events, |events|, time);
    if i < at {
      assert events[i].triggerTime >= events[at - 1].triggerTime;
    }
  }

  /** One pass fires exactly the due events, and keeps exactly the others. */
  lemma PassIsExact(events: seq<Event>, time: int)
    requires Sorted(events)
    ensures multiset(Fired(events, time)) + multiset(Kept(events, time)) == multiset(events)
    ensures forall i :: 0 <= i < |Fired(events, time)| ==> Due(Fired(events, time)[i], time)
    ensures forall i :: 0 <= i < |Kept(events, time)| ==> !Due(Kept(events, time)[i], time)
  {
    hide DueFrom, Sorted, Due;
    var at := DueFrom(events, |events|, time);
    ReversedMultiset(events[at..]);
    assert events == events[..at] + events[at..];
    forall i | 0 <= i < at
      ensures !Due(events[i], time)
    {
      DueIsSuffix(events, time, i);
    }
  }

  /** They fire in order of their time, and what is kept stays in order. */
  lemma PassIsOrdered(events: seq<Event>, time: int)
    requires Sorted(events)
    ensures NonDecreasing(Fired(events, time)) && Sorted(Kept(events, time))
  {
    hide DueFrom;
    var at, fired := DueFrom(events, |events|, time), Fired(events, time);
    forall i, j | 0 <= i < j < |fired|
      ensures fired[i].triggerTime <= fired[j].triggerTime
    {
      assert fired[i] == events[|events| - 1 - i] && fired[j] == events[|events| - 1 - j];
    }
  }

  lemma DueFromIs(events: seq<Event>, time: int, at: nat)
    requires at <= |events| && forall i :: at <= i < |events| ==> Due(events[i], time)
    requires at > 0 ==> !Due(events[at - 1], time)
    ensures DueFrom(events, |events|, time) == at
  {
    hide DueFrom, Due;
    var d := DueFrom(events, |events|, time);
  }

  lemma PlaceIs(events: seq<Event>, trigger: int, at: nat)
    requires at <= |events| && forall i :: at <= i < |events| ==> events[i].triggerTime < trigger
    requires at > 0 ==> events[at - 1].triggerTime >= trigger
    ensures Place(events, |events|, trigger) == at
  {
    hide Place;
    var p := Place(events, |events|, trigger);
  }

  /** An event that is not due yet goes in front of all that are due. */
  lemma DueFromInserted(events: seq<Event>, e: Event, time: int)
    requires Sorted(events) && !Due(e, time)
    ensures Place(events, |events|, e.triggerTime) <= DueFrom(events, |events|, time)
    ensures DueFrom(Insert(events, e), |events| + 1, time) == DueFrom(events, |events|, time) + 1
  {
    hide DueFrom, Place, Sorted, Insert;
    var at, p := DueFrom(events, |events|, time), Place(events, |events|, e.triggerTime);
    var more := Insert(events, e);
    if p > 0 {
      DueIsSuffix(events, time, p - 1);
    }
    assert p <= at;
    InsertedAt(events, e, at);
    forall i | at + 1 <= i < |more|
      ensures Due(more[i], time)
    {
      InsertedAt(events, e, i);
    }
    DueFromIs(more, time, at + 1);
  }

  /**
   * An event that is not due yet can be added before, during or after a pass: what fires is the same,
   * and so is what is left.
   */
  lemma AddingCommutesWithPass(events: seq<Event>, e: Event, time: int)
    requires Sorted(events) && !Due(e, time)
    ensures Fired(Insert(events, e), time) == Fired(events, time)
    ensures Kept(Insert(events, e), time) == Insert(Kept(events, time), e)
  {
    DueFromInserted(events, e, time);
    hide *;
    InsertInFront(events, e, DueFrom(events, |events|, time));
    PassAt(events, time);
    PassAt(Insert(events, e), time);
  }

  /** What lies behind the new event's place is left alone. */
  lemma InsertInFront(events: seq<Event>, e: Event, at: nat)
    requires Place(events, |events|, e.triggerTime) <= at <= |events|
    ensures |Insert(events, e)| == |events| + 1
    ensures Insert(events, e)[at + 1..] == events[at..] && Insert(events, e)[..at + 1] == Insert(events[..at], e)
  {
    hide Place;
    var p := Place(events, |events|, e.triggerTime);
    PlaceIs(events[..at], e.triggerTime, p);
    SplicedInFront(events, p, e, at);
  }

  lemma SplicedInFront(events: seq<Event>, p: nat, e: Event, at: nat)
    requires p <= at <= |events|
    ensures (var more := events[..p] + [e] + events[p..];
             && more[at + 1..] == events[at..]
             && more[..at + 1] == events[..at][..p] + [e] + events[..at][p..])
  {
    var more := events[..p] + [e] + events[p..];
    assert more[at + 1..] == events[at..];
    assert more[..at + 1] == events[..at][..p] + [e] + events[..at][p..];
  }

  lemma PassAt(events: seq<Event>, time: int)
    ensures (var at := DueFrom(events, |events|, time);
             Fired(events, time) == Reversed(events[at..]) && Kept(events, time) == events[..at])
  {
  }

  /** Of two events with the same time the one added later fires first. */
  lemma LaterAddedFiresFirst(events: seq<Event>, a: Event, b: Event, time: int)
    requires Sorted(events) && a.triggerTime == b.triggerTime <= time
    ensures exists i, j :: 0 <= i < j < |Fired(Insert(Insert(events, a), b), time)|
                           && Fired(Insert(Insert(events, a), b), time)[i] == b
                           && Fired(Insert(Insert(events, a), b), time)[j] == a
  {
    var once, twice := Insert(events, a), Insert(Insert(events, a), b);
    InsertKeepsSorted(events, a);
    InsertKeepsSorted(once, b);
    hide Place, DueFrom, Sorted;
    var p, q := Place(events, |events|, a.triggerTime), Place(once, |once|, b.triggerTime);
    assert once[p] == a;
    assert p < q && twice[p] == a && twice[q] == b;
    DueIsSuffix(twice, time, p);
    var fired := Fired(twice, time);
    var i, j := |twice| - 1 - q, |twice| - 1 - p;
    assert fired[i] == b && fired[j] == a;
  }

  lemma DueStep(events: seq<Event>, n: nat, time: int)
    requires n <= |events|
    ensures DueFrom(events, n, time)
         == if n > 0 && Due(events[n - 1], time) then DueFrom(events, n - 1, time) else n
  {
  }

  // ---- a pass whose handlers add events ----

  datatype Request = Request(now: int, delay: int, handler: int, args: seq<int>)

  /** More arguments than an event holds are a fatal error. */
  predicate FewArguments(requests: seq<Request>) {
    forall r :: r in requests ==> |r.args| <= MAX_TIMEDEVENTARGS
  }

  function EventOf(r: Request): Event {
    Event(r.now, Signed(r.delay + r.now), r.handler, r.args)
  }

  /** A full buffer loses the event. */
  function Add(events: seq<Event>, e: Event): seq<Event> {
    if |events| >= MAX_TIMED_EVENTS then events else Insert(events, e)
  }

  function AddAll(events: seq<Event>, requests: seq<Request>): seq<Event> {
    if requests == [] then events
    else Add(AddAll(events, requests[..|requests| - 1]), EventOf(requests[|requests| - 1]))
  }

  /** What fires and what is left. The script says what the handler of each fired event in turn adds. */
  function Pass(events: seq<Event>, time: int, script: seq<seq<Request>>): (seq<Event>, seq<Event>)
    decreases |script|, |events|
  {
    if events == [] || !Due(events[|events| - 1], time) then ([], events)
    else
      var (fired, kept) := Pass(AddAll(events[..|events| - 1], Head(script)), time, Tail(script));
      ([events[|events| - 1]] + fired, kept)
  }

  lemma {:induction false} AddAllSorted(events: seq<Event>, requests: seq<Request>)
    requires Sorted(events)
    ensures Sorted(AddAll(events, requests))
  {
    if requests != [] {
      var init := requests[..|requests| - 1];
      AddAllSorted(events, init);
      InsertKeepsSorted(AddAll(events, init), EventOf(requests[|requests| - 1]));
    }
  }

  /** The requests that find room. */
  function Taken(events: seq<Event>, requests: seq<Request>): seq<Event> {
    var room := if |events| >= MAX_TIMED_EVENTS then 0 else MAX_TIMED_EVENTS - |events|;
    var n := if |requests| <= room then |requests| else room;
    seq(n, i requires 0 <= i < n => EventOf(requests[i]))
  }

  lemma {:induction false} AddAllConserves(events: seq<Event>, requests: seq<Request>)
    ensures |AddAll(events, requests)| == |events| + |Taken(events, requests)|
    ensures multiset(AddAll(events, requests)) == multiset(events) + multiset(Taken(events, requests))
  {
    if requests == [] {
      assert Taken(events, requests) == [];
    } else {
      var init, r := requests[..|requests| - 1], requests[|requests| - 1];
      var before, taken := AddAll(events, init), Taken(events, init);
      assert requests == init + [r] && AddAll(events, requests) == Add(before, EventOf(r));
      TakenStep(events, init, r);
      hide *;
      AddAllConserves(events, init);
      AddConserves(before, EventOf(r));
      Associate(multiset(events), multiset(taken), if |before| >= MAX_TIMED_EVENTS then multiset{} else multiset{EventOf(r)});
    }
  }

  lemma Associate(a: multiset<Event>, b: multiset<Event>, c: multiset<Event>)
    ensures (a + b) + c == a + (b + c)
  {
  }

  lemma TakenStep(events: seq<Event>, init: seq<Request>, r: Request)
    ensures (var taken, all := Taken(events, init), Taken(events, init + [r]);
             var full := |events| + |taken| >= MAX_TIMED_EVENTS;
             && all == taken + (if full then [] else [EventOf(r)])
             && multiset(all) == multiset(taken) + if full then multiset{} else multiset{EventOf(r)})
  {
    hide EventOf;
    var taken, all := Taken(events, init), Taken(events, init + [r]);
    assert all == taken + if |events| + |taken| >= MAX_TIMED_EVENTS then [] else [EventOf(r)];
  }

  lemma AddConserves(events: seq<Event>, e: Event)
    ensures |Add(events, e)| == |events| + if |events| >= MAX_TIMED_EVENTS then 0 else 1
    ensures multiset(Add(events, e)) == multiset(events) + if |events| >= MAX_TIMED_EVENTS then multiset{} else multiset{e}
  {
    InsertAddsOne(events, e);
    hide Insert;
  }

  /** All that handlers add and that finds room during the pass. */
  function TakenInPass(events: seq<Event>, time: int, script: seq<seq<Request>>): seq<Event>
    decreases |script|, |events|
  {
    if events == [] || !Due(events[|events| - 1], time) then []
    else
      var rest := events[..|events| - 1];
      Taken(rest, Head(script)) + TakenInPass(AddAll(rest, Head(script)), time, Tail(script))
  }

  /** Whatever handlers add: nothing is lost that found room, nothing fires twice, and nothing due is left. */
  lemma {:induction false} PassConserves(events: seq<Event>, time: int, script: seq<seq<Request>>)
    requires Sorted(events)
    ensures (var (fired, kept) := Pass(events, time, script);
             && multiset(fired) + multiset(kept) == multiset(events) + multiset(TakenInPass(events, time, script))
             && Sorted(kept) && (forall e :: e in fired ==> Due(e, time)) && (forall e :: e in kept ==> !Due(e, time)))
    decreases |script|, |events|
  {
    if Stops(events, time) {
      PassStops(events, time, script);
    } else {
      var rest, last := events[..|events| - 1], events[|events| - 1];
      var next, later := AddAll(rest, Head(script)), TakenInPass(AddAll(rest, Head(script)), time, Tail(script));
      PassStep(events, time, script);
      assert Due(last, time) && Sorted(rest) && events == rest + [last];
      AddAllSorted(rest, Head(script));
      AddAllConserves(rest, Head(script));
      hide *;
      PassConserves(next, time, Tail(script));
      var p := Pass(next, time, Tail(script));
      BagStep(rest, last, next, Taken(rest, Head(script)), p.0, p.1, later);
      AllDueBehind(last, p.0, time);
    }
  }

  lemma AllDueBehind(first: Event, fired: seq<Event>, time: int)
    requires Due(first, time) && forall e :: e in fired ==> Due(e, time)
    ensures forall e :: e in [first] + fired ==> Due(e, time)
  {
    hide Due;
  }

  predicate Stops(events: seq<Event>, time: int) {
    events == [] || !Due(events[|events| - 1], time)
  }

  lemma PassStops(events: seq<Event>, time: int, script: seq<seq<Request>>)
    requires Stops(events, time) && Sorted(events)
    ensures Pass(events, time, script) == ([], events) && TakenInPass(events, time, script) == []
    ensures Fired(events, time) == [] && Kept(events, time) == events && forall e :: e in events ==> !Due(e, time)
  {
    DueStep(events, |events|, time);
    hide DueFrom, Pass;
    assert Pass(events, time, script) == ([], events) by { PassEnds(events, time, script); }
    forall e | e in events
      ensures !Due(e, time)
    {
      var i :| 0 <= i < |events| && events[i] == e;
      assert events[i].triggerTime >= events[|events| - 1].triggerTime;
    }
  }

  lemma PassEnds(events: seq<Event>, time: int, script: seq<seq<Request>>)
    requires Stops(events, time)
    ensures Pass(events, time, script) == ([], events)
  {
  }

  lemma PassStep(events: seq<Event>, time: int, script: seq<seq<Request>>)
    requires !Stops(events, time)
    ensures (var rest, last := events[..|events| - 1], events[|events| - 1];
             var next := AddAll(rest, Head(script));
             var p := Pass(next, time, Tail(script));
             && Pass(events, time, script) == ([last] + p.0, p.1) && AddAll(rest, []) == rest
             && TakenInPass(events, time, script) == Taken(rest, Head(script)) + TakenInPass(next, time, Tail(script)))
  {
    assert AddAll(events[..|events| - 1], []) == events[..|events| - 1];
    hide AddAll, Taken;
  }

  lemma BagStep(rest: seq<Event>, last: Event, next: seq<Event>, taken: seq<Event>,
                fired: seq<Event>, kept: seq<Event>, later: seq<Event>)
    requires multiset(next) == multiset(rest) + multiset(taken)
    requires multiset(fired) + multiset(kept) == multiset(next) + multiset(later)
    ensures multiset([last] + fired) + multiset(kept) == multiset(rest + [last]) + multiset(taken + later)
  {
    assert multiset([last] + fired) == multiset{last} + multiset(fired);
    assert multiset(rest + [last]) == multiset(rest) + multiset{last};
    assert multiset(taken + later) == multiset(taken) + multiset(later);
    Regroup(multiset{last}, multiset(fired), multiset(kept), multiset(rest), multiset(taken), multiset(later));
  }

  lemma Regroup(last: multiset<Event>, fired: multiset<Event>, kept: multiset<Event>,
                rest: multiset<Event>, taken: multiset<Event>, later: multiset<Event>)
    requires fired + kept == rest + taken + later
    ensures (last + fired) + kept == (rest + last) + (taken + later)
  {
    assert (last + fired) + kept == last + (fired + kept);
  }

  /** Of what handlers add, exactly what is due fires in the same pass. */
  lemma AddedFiresIffDue(events: seq<Event>, time: int, script: seq<seq<Request>>)
    requires Sorted(events)
    ensures (var (fired, kept) := Pass(events, time, script);
             forall e :: e in TakenInPass(events, time, script) ==> if Due(e, time) then e in fired else e in kept)
  {
    PassConserves(events, time, script);
    hide Sorted, Due, Pass, TakenInPass;
    forall e | e in TakenInPass(events, time, script)
      ensures e in Pass(events, time, script).0 || e in Pass(events, time, script).1
    {
      assert e in multiset(events) + multiset(TakenInPass(events, time, script));
    }
  }

  // ---- when handlers change what fires ----

  /** The pass fires what it would fire without its handlers exactly if nothing that they add is due. */
  lemma FiresTheSameIff(events: seq<Event>, time: int, script: seq<seq<Request>>)
    requires Sorted(events)
    ensures Pass(events, time, script).0 == Fired(events, time)
       <==> forall e :: e in TakenInPass(events, time, script) ==> !Due(e, time)
  {
    var (fired, kept) := Pass(events, time, script);
    var taken := TakenInPass(events, time, script);
    if fired == Fired(events, time) {
      PassConserves(events, time, script);
      PassIsExact(events, time);
      hide *;
      Cancel(multiset(fired), multiset(kept), multiset(Kept(events, time)), multiset(taken));
      forall e | e in taken
        ensures e in kept
      {
        assert e in multiset(kept);
      }
    }
    if forall e :: e in taken ==> !Due(e, time) {
      NothingDueAdded(events, time, script);
    }
  }

  lemma Cancel(fired: multiset<Event>, kept: multiset<Event>, plain: multiset<Event>, taken: multiset<Event>)
    requires fired + kept == (fired + plain) + taken
    ensures kept == plain + taken
  {
    assert fired + kept - fired == kept;
    assert (fired + plain) + taken - fired == plain + taken;
  }

  lemma {:induction false} NothingDueAdded(events: seq<Event>, time: int, script: seq<seq<Request>>)
    requires Sorted(events) && forall e :: e in TakenInPass(events, time, script) ==> !Due(e, time)
    ensures Pass(events, time, script).0 == Fired(events, time)
    decreases |script|, |events|
  {
    if Stops(events, time) {
      PassStops(events, time, script);
    } else {
      var rest := events[..|events| - 1];
      assert Sorted(rest);
      PassStep(events, time, script);
      FiredStep(events, time);
      hide *;
      AddAllFires(rest, Head(script), time);
      AddAllSorted(rest, Head(script));
      NothingDueAdded(AddAll(rest, Head(script)), time, Tail(script));
    }
  }

  lemma {:induction false} AddAllFires(events: seq<Event>, requests: seq<Request>, time: int)
    requires Sorted(events) && forall e :: e in Taken(events, requests) ==> !Due(e, time)
    ensures Fired(AddAll(events, requests), time) == Fired(events, time)
  {
    if requests != [] {
      var init, r := requests[..|requests| - 1], requests[|requests| - 1];
      assert requests == init + [r];
      TakenStep(events, init, r);
      AddAllConserves(events, init);
      AddAllSorted(events, init);
      hide Sorted, Due, EventOf, Fired, Insert, Taken;
      AddAllFires(events, init, time);
      if |AddAll(events, init)| < MAX_TIMED_EVENTS {
        AddingCommutesWithPass(AddAll(events, init), EventOf(r), time);
      }
    }
  }

  /** A caller's check: if no request of the script is due, the handlers do not change what fires. */
  lemma LaterRequestsFireLater(events: seq<Event>, time: int, script: seq<seq<Request>>)
    requires Sorted(events)
    requires forall requests, r :: requests in script && r in requests ==> !Due(EventOf(r), time)
    ensures Pass(events, time, script).0 == Fired(events, time)
  {
    hide Sorted, Pass, Fired, Due;
    TakenFromScript(events, time, script);
    FiresTheSameIff(events, time, script);
  }

  lemma {:induction false} TakenFromScript(events: seq<Event>, time: int, script: seq<seq<Request>>)
    ensures forall e :: e in TakenInPass(events, time, script) ==>
              exists requests, r :: requests in script && r in requests && e == EventOf(r)
    decreases |script|, |events|
  {
    if !Stops(events, time) {
      PassStep(events, time, script);
      hide AddAll, EventOf, Stops, Pass, TakenInPass;
      var next, taken := AddAll(events[..|events| - 1], Head(script)), Taken(events[..|events| - 1], Head(script));
      TakenFromScript(next, time, Tail(script));
      forall e | e in taken
        ensures exists requests, r :: requests in script && r in requests && e == EventOf(r)
      {
        var i :| 0 <= i < |taken| && taken[i] == e;
        assert script[0] in script && Head(script)[i] in script[0];
      }
    }
  }

  // ---- when handlers change the order ----

  /** What the handler of the last event adds is for no earlier time. */
  predicate AddsNoneEarlier(events: seq<Event>, script: seq<seq<Request>>)
    requires events != []
  {
    var rest, last := events[..|events| - 1], events[|events| - 1];
    forall e :: e in Taken(rest, Head(script)) ==> e.triggerTime >= last.triggerTime
  }

  /** No handler adds an event for a time before that of the event it handles. */
  predicate NeverEarlier(events: seq<Event>, time: int, script: seq<seq<Request>>)
    decreases |script|, |events|
  {
    || Stops(events, time)
    || (&& AddsNoneEarlier(events, script)
        && NeverEarlier(AddAll(events[..|events| - 1], Head(script)), time, Tail(script)))
  }

  /** A pass fires in order exactly if no handler adds an event for a time before that of the event it handles. */
  lemma {:induction false} PassIsOrderedIff(events: seq<Event>, time: int, script: seq<seq<Request>>)
    requires Sorted(events)
    ensures NonDecreasing(Pass(events, time, script).0) <==> NeverEarlier(events, time, script)
    decreases |script|, |events|
  {
    if Stops(events, time) {
      PassEnds(events, time, script);
    } else {
      var rest, last := events[..|events| - 1], events[|events| - 1];
      var next, more := AddAll(rest, Head(script)), Tail(script);
      PassStep(events, time, script);
      AddAllSorted(rest, Head(script));
      hide AddAll, Taken, Pass, Sorted;
      PassIsOrderedIff(next, time, more);
      var fired := Pass(next, time, more).0;
      InOrderBehind(last, fired);
      NeverEarlierStep(events, time, script);
      hide Stops, NeverEarlier, NonDecreasing, AddsNoneEarlier;
      if NeverEarlier(events, time, script) {
        FirstIsLater(events, time, script);
      }
      if NonDecreasing([last] + fired) {
        NoneEarlier(events, time, script);
      }
    }
  }

  lemma NeverEarlierStep(events: seq<Event>, time: int, script: seq<seq<Request>>)
    requires !Stops(events, time)
    ensures NeverEarlier(events, time, script)
       <==> AddsNoneEarlier(events, script) && NeverEarlier(AddAll(events[..|events| - 1], Head(script)), time, Tail(script))
  {
    hide AddAll, AddsNoneEarlier;
  }

  lemma InOrderBehind(first: Event, fired: seq<Event>)
    ensures NonDecreasing([first] + fired)
       <==> NonDecreasing(fired) && (fired != [] ==> first.triggerTime <= fired[0].triggerTime)
  {
    var all := [first] + fired;
    assert forall i :: 0 <= i < |fired| ==> all[i + 1] == fired[i];
    assert fired != [] ==> all[1] == fired[0];
    if NonDecreasing(fired) && (fired != [] ==> first.triggerTime <= fired[0].triggerTime) {
      forall i, j | 0 <= i < j < |all|
        ensures all[i].triggerTime <= all[j].triggerTime
      {
        assert fired[0].triggerTime <= fired[j - 1].triggerTime;
        assert i > 0 ==> all[i] == fired[i - 1];
      }
    }
    if NonDecreasing(all) {
      assert fired != [] ==> all[0].triggerTime <= all[1].triggerTime;
      forall i, j | 0 <= i < j < |fired|
        ensures fired[i].triggerTime <= fired[j].triggerTime
      {
        assert all[i + 1].triggerTime <= all[j + 1].triggerTime;
      }
    }
  }

  /** What fires next was behind the event just fired, or its handler has added it. */
  lemma FirstIsLater(events: seq<Event>, time: int, script: seq<seq<Request>>)
    requires Sorted(events) && !Stops(events, time) && AddsNoneEarlier(events, script)
    ensures (var rest, last := events[..|events| - 1], events[|events| - 1];
             var fired := Pass(AddAll(rest, Head(script)), time, Tail(script)).0;
             fired != [] ==> last.triggerTime <= fired[0].triggerTime)
  {
    var rest, last := events[..|events| - 1], events[|events| - 1];
    assert forall i :: 0 <= i < |rest| ==> rest[i].triggerTime >= last.triggerTime;
    hide Sorted;
    var next := AddAll(rest, Head(script));
    AddAllConserves(rest, Head(script));
    hide AddAll, Taken;
    if Stops(next, time) {
      PassEnds(next, time, Tail(script));
    } else {
      PassStep(next, time, Tail(script));
      var first := next[|next| - 1];
      assert first in multiset(next);
      assert first in rest || first in Taken(rest, Head(script));
    }
  }

  /** An event added for an earlier time is due, so it would fire behind the event that comes after it. */
  lemma NoneEarlier(events: seq<Event>, time: int, script: seq<seq<Request>>)
    requires Sorted(events) && !Stops(events, time)
    requires (var rest, last := events[..|events| - 1], events[|events| - 1];
              NonDecreasing([last] + Pass(AddAll(rest, Head(script)), time, Tail(script)).0))
    ensures AddsNoneEarlier(events, script)
  {
    var rest, last := events[..|events| - 1], events[|events| - 1];
    var next := AddAll(rest, Head(script));
    assert Sorted(rest) && Due(last, time);
    AddAllSorted(rest, Head(script));
    AddAllConserves(rest, Head(script));
    PassConserves(next, time, Tail(script));
    hide AddAll, Taken, Pass, Sorted, TakenInPass, Stops, NonDecreasing;
    var (fired, kept) := Pass(next, time, Tail(script));
    forall e | e in Taken(rest, Head(script))
      ensures e.triggerTime >= last.triggerTime
    {
      AmongParts(e, Taken(rest, Head(script)), multiset(rest), fired, kept, multiset(TakenInPass(next, time, Tail(script))));
      if e in fired {
        FirstIsLeast(last, fired, e);
      }
    }
  }

  lemma AmongParts(e: Event, part: seq<Event>, rest: multiset<Event>, fired: seq<Event>, kept: seq<Event>, more: multiset<Event>)
    requires e in part && multiset(fired) + multiset(kept) == (rest + multiset(part)) + more
    ensures e in fired || e in kept
  {
    assert e in multiset(fired) + multiset(kept);
  }

  lemma FirstIsLeast(first: Event, fired: seq<Event>, e: Event)
    requires NonDecreasing([first] + fired) && e in fired
    ensures first.triggerTime <= e.triggerTime
  {
    var i :| 0 <= i < |fired| && fired[i] == e;
    assert ([first] + fired)[i + 1] == e && ([first] + fired)[0] == first;
  }

  /** Every handler asks for times that are no earlier than the pass. */
  predicate OnTime(script: seq<seq<Request>>, time: int) {
    forall requests, r :: requests in script && r in requests ==> EventOf(r).triggerTime >= time
  }

  /** A caller's check: then the pass fires in order. */
  lemma OnTimePassIsOrdered(events: seq<Event>, time: int, script: seq<seq<Request>>)
    requires Sorted(events) && OnTime(script, time)
    ensures NonDecreasing(Pass(events, time, script).0)
  {
    hide Sorted, OnTime, Pass;
    OnTimeIsNeverEarlier(events, time, script);
    PassIsOrderedIff(events, time, script);
  }

  lemma {:induction false} OnTimeIsNeverEarlier(events: seq<Event>, time: int, script: seq<seq<Request>>)
    requires OnTime(script, time)
    ensures NeverEarlier(events, time, script)
    decreases |script|, |events|
  {
    if !Stops(events, time) {
      assert forall r :: r in Head(script) ==> EventOf(r).triggerTime >= time;
      hide AddAll, EventOf;
      OnTimeIsNeverEarlier(AddAll(events[..|events| - 1], Head(script)), time, Tail(script));
    }
  }

  lemma FireOne(e: Event, time: int, script: seq<seq<Request>>)
    requires Due(e, time)
    ensures (var p := Pass(AddAll([], Head(script)), time, Tail(script));
             Pass([e], time, script) == ([e] + p.0, p.1) && Fired([e], time) == [e])
  {
    assert [e][..0] == [];
    PassStep([e], time, script);
    FiredStep([e], time);
    hide Pass, AddAll, Due;
    PassStops([], time, []);
  }

  lemma AddOne(r: Request)
    ensures AddAll([], [r]) == [EventOf(r)] && AddAll([], []) == []
  {
    hide EventOf;
    assert [r][..0] == [] && AddAll([], []) == [];
    assert Insert([], EventOf(r)) == [EventOf(r)];
  }

  /** One event, whose handler adds another that is due: both fire, in this order. */
  lemma BothFire(e: Event, r: Request, time: int)
    requires Due(e, time) && Due(EventOf(r), time)
    ensures Pass([e], time, [[r]]) == ([e, EventOf(r)], []) && Fired([e], time) == [e]
  {
    hide Pass, AddAll, Due, EventOf, Fired;
    FireOne(e, time, [[r]]);
    assert Head([[r]]) == [r] && Tail([[r]]) == [] && Head<Request>([]) == [] && Tail<Request>([]) == [];
    AddOne(r);
    FireOne(EventOf(r), time, []);
    PassEnds([], time, []);
    assert Pass([EventOf(r)], time, []) == ([EventOf(r)] + [], []);
    assert [e] + ([EventOf(r)] + []) == [e, EventOf(r)];
  }

  /** A handler that asks for the time of the pass has its event fired at once; one that asks for less breaks the order. */
  lemma AddedFiresAtOnce()
    ensures (var e, r := Event(0, 5, 1, []), Request(10, 0, 2, []);
             && Pass([e], 10, [[r]]).0 == [e, Event(10, 10, 2, [])] && Fired([e], 10) == [e])
    ensures (var e, r := Event(0, 5, 1, []), Request(10, -6, 2, []);
             && Pass([e], 10, [[r]]).0 == [e, Event(10, 4, 2, [])] && !NonDecreasing(Pass([e], 10, [[r]]).0))
  {
    hide Pass, Fired;
    var e := Event(0, 5, 1, []);
    BothFire(e, Request(10, 0, 2, []), 10);
    BothFire(e, Request(10, -6, 2, []), 10);
    assert Signed(10) == 10 && Signed(4) == 4;
    var fired := [e, Event(10, 4, 2, [])];
    assert fired == Pass([e], 10, [[Request(10, -6, 2, [])]]).0;
    assert fired[0].triggerTime > fired[1].triggerTime;
  }

  /** Handlers that add nothing leave a pass that fires the due events and keeps the others. */
  lemma {:induction false} PassWithoutAdding(events: seq<Event>, time: int)
    requires Sorted(events)
    ensures Pass(events, time, []) == (Fired(events, time), Kept(events, time))
  {
    if Stops(events, time) {
      PassStops(events, time, []);
    } else {
      var rest := events[..|events| - 1];
      assert Sorted(rest) && AddAll(rest, []) == rest;
      PassStep(events, time, []);
      FiredStep(events, time);
      hide Pass, Fired, Kept, AddAll, Stops;
      PassWithoutAdding(rest, time);
    }
  }

  lemma FiredStep(events: seq<Event>, time: int)
    requires !Stops(events, time)
    ensures (var rest, last := events[..|events| - 1], events[|events| - 1];
             Fired(events, time) == [last] + Fired(rest, time) && Kept(events, time) == Kept(rest, time))
  {
    var n := |events| - 1;
    var rest := events[..n];
    DueStep(events, n + 1, time);
    DueFromPrefix(events, n, n, time);
    hide DueFrom, Due;
    var at := DueFrom(rest, n, time);
    assert Reversed(events[at..]) == [events[n]] + Reversed(rest[at..]);
    assert events[..at] == rest[..at];
  }

  lemma {:induction false} DueFromPrefix(events: seq<Event>, m: nat, n: nat, time: int)
    requires n <= m <= |events|
    ensures DueFrom(events[..m], n, time) == DueFrom(events, n, time)
  {
    if n > 0 {
      DueFromPrefix(events, m, n - 1, time);
    }
  }

  // ---- the buffer ----

  datatype Added = At(index: nat) | Lost | BadArguments

  class TimedEventBuffer {
    const buffer: array<Event>
    var head: nat

    ghost predicate Valid()
      reads this, buffer
    {
      buffer.Length == MAX_TIMED_EVENTS && head <= buffer.Length && Sorted(buffer[..head])
    }

    ghost function Events(): seq<Event>
      reads this, buffer
      requires head <= buffer.Length
    {
      buffer[..head]
    }

    constructor ()
      ensures Valid() && Events() == [] && fresh(buffer)
    {
      buffer := new Event[MAX_TIMED_EVENTS](_ => Event(0, 0, 0, []));
      head := 0;
    }

    /** The loop of Com_AddTimedEvent that moves up what fires before the new event. */
    method Shift(trigger: int) returns (index: nat)
      requires Valid() && head < MAX_TIMED_EVENTS
      modifies buffer
      ensures index == Place(old(Events()), old(head), trigger)
      ensures forall j :: 0 <= j < index ==> buffer[j] == old(Events())[j]
      ensures forall j :: index < j <= head ==> buffer[j] == old(Events())[j - 1]
    {
      hide Sorted, Place;
      ghost var events := Events();
      index := head;
      while index > 0
        invariant index <= head
        invariant forall j :: index <= j < head ==> events[j].triggerTime < trigger
        invariant forall j :: 0 <= j < index ==> buffer[j] == events[j]
        invariant forall j :: index < j <= head ==> buffer[j] == events[j - 1]
      {
        var ev := buffer[index - 1];
        if ev.triggerTime < trigger {
          buffer[index] := ev;
          index := index - 1;
        } else {
          break;
        }
      }
      PlaceIs(events, trigger, index);
    }

    /** Com_AddTimedEvent; a bad argument count ends the program. */
    method AddTimedEvent(now: int, delay: int, handler: int, args: seq<int>) returns (added: Added)
      requires Valid()
      modifies this, buffer
      ensures added == Lost <==> old(head) >= MAX_TIMED_EVENTS
      ensures added == BadArguments <==> old(head) < MAX_TIMED_EVENTS && |args| > MAX_TIMEDEVENTARGS
      ensures added == Lost ==> Valid() && Events() == old(Events())
      ensures added.At? ==> Valid() && Events() == Insert(old(Events()), Event(now, Signed(delay + now), handler, args))
      ensures added.At? ==> added.index == Place(old(Events()), old(head), Signed(delay + now))
    {
      hide Sorted, Place, Signed;
      if head >= MAX_TIMED_EVENTS {
        return Lost;
      }
      ghost var events := Events();
      var triggerTime := Signed(delay + now);
      var index := Shift(triggerTime);
      if |args| > MAX_TIMEDEVENTARGS {
        return BadArguments;
      }
      var e := Event(now, triggerTime, handler, args);
      InsertKeepsSorted(events, e);
      buffer[index] := e;
      head := head + 1;
      SameElements(buffer[..head], events, index, e);
      added := At(index);
    }

    lemma SameElements(now: seq<Event>, events: seq<Event>, index: nat, e: Event)
      requires index == Place(events, |events|, e.triggerTime) && |now| == |events| + 1 && now[index] == e
      requires forall j :: 0 <= j < index ==> now[j] == events[j]
      requires forall j :: index < j < |now| ==> now[j] == events[j - 1]
      ensures now == Insert(events, e)
    {
      hide Place, Insert;
      var more := Insert(events, e);
      forall j | 0 <= j < |now|
        ensures now[j] == more[j]
      {
        InsertedAt(events, e, j);
      }
    }

    /** Com_GetTimedEvent: take the next event if it is due. */
    method GetTimedEvent(time: int) returns (found: bool, e: Event)
      requires Valid()
      modifies this`head
      ensures Valid()
      ensures found <==> old(Events()) != [] && Due(old(Events())[old(head) - 1], time)
      ensures found ==> old(Events()) == Events() + [e]
      ensures !found ==> Events() == old(Events())
    {
      e := Event(0, 0, 0, []);
      if head > 0 {
        var ev := buffer[head - 1];
        if ev.triggerTime <= time {
          head := head - 1;
          return true, ev;
        }
      }
      found := false;
    }

    /** Com_TimedEventLoop: `fired` are the events handled, in order; the script says what their handlers add. */
    method TimedEventLoop(time: int, script: seq<seq<Request>>) returns (fired: seq<Event>)
      requires Valid() && forall requests :: requests in script ==> FewArguments(requests)
      modifies this, buffer
      ensures Valid() && (fired, Events()) == Pass(old(Events()), time, script)
    {
      hide Sorted, EventOf, AddAll, Pass, FewArguments;
      fired := [];
      var left := script;
      while true
        invariant Valid() && forall requests :: requests in left ==> FewArguments(requests)
        invariant Pass(old(Events()), time, script).0 == fired + Pass(Events(), time, left).0
        invariant Pass(old(Events()), time, script).1 == Pass(Events(), time, left).1
        decreases |left|, head
      {
        ghost var events := Events();
        var found, e := GetTimedEvent(time);
        if !found {
          PassEnds(events, time, left);
          assert fired + [] == fired;
          break;
        }
        assert events[..|events| - 1] == Events();
        PassStep(events, time, left);
        if left != [] {
          Handle(left[0]);
          left := left[1..];
        } else {
          assert AddAll(Events(), []) == Events();
        }
        fired := fired + [e];
      }
    }

    /** What one handler adds. */
    method Handle(requests: seq<Request>)
      requires Valid() && FewArguments(requests)
      modifies this, buffer
      ensures Valid() && Events() == AddAll(old(Events()), requests)
    {
      hide Sorted, Insert;
      assert requests[..0] == [];
      for i := 0 to |requests|
        invariant Valid() && Events() == AddAll(old(Events()), requests[..i])
      {
        assert requests[..i + 1][..i] == requests[..i];
        var r := requests[i];
        var added := AddTimedEvent(r.now, r.delay, r.handler, r.args);
      }
      assert requests[..|requests|] == requests;
    }
  }
}
