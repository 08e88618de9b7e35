/** How often an operation on the ring buffer is completed, with `stop` cutting in. */
module RingSignals {
  import opened Wrappers
  import opened Powers
  import opened RingArithmetic
  import opened RingProtocol

  // ---- parking ----

  /** A parked producer means full, a parked consumer means empty, and they are never parked at once. */
  lemma ParkedMeans(r: Ring)
    requires Reachable(r)
    ensures r.producer.completion.Some? ==> Room(r, Producer) == 0
    ensures r.consumer.completion.Some? ==> Room(r, Consumer) == 0
    ensures r.producer.completion.None? || r.consumer.completion.None?
  {
    ReachableInv(r);
    SizeFits(r);
    RoomIs(r, Producer);
    RoomIs(r, Consumer);
  }

  lemma RoomAfterAdvance(r: Ring, side: Side, n: int)
    requires Inv(r) && Enabled(r, DoFinish(side, n)) && r.At(side.Other()).completion.Some?
    ensures var s := Cleared(Advance(r, side, n), side.Other());
      Inv(s) && Room(s, side.Other()) == if n <= 0 then 0 else n
  {
    hide Pow2;
    AdvanceInv(r, side, n);
    RoomIs(Cleared(Advance(r, side, n), side.Other()), side.Other());
  }

  /** Any positive advance hands the parked operation of the other side a region, and nothing stays
      registered there. */
  lemma AdvanceReleases(r: Ring, side: Side, n: int)
    requires Inv(r) && Enabled(r, DoFinish(side, n)) && n > 0
    requires r.At(side.Other()).completion.Some?
    ensures var e := Finish(r, side, n).At(side.Other());
      e.completion.None? && e.flight.Some? && e.flight.value.op == r.At(side.Other()).completion.value
      && 0 < e.flight.value.len <= n
  {
    hide Inv, Room;
    var other := side.Other();
    var s := Cleared(Advance(r, side, n), other);
    RoomAfterAdvance(r, side, n);
    RegionHandedOut(s, other, r.At(other).completion.value);
    OtherUntouched(r, side, n);
  }

  // ---- exactly once ----

  ghost predicate NoneTwice(r: Ring) { forall op :: r.signals[op] <= 1 }

  /** Nothing was signalled twice. What is registered has not been signalled yet, or was stopped and
      the other side cannot advance any more. */
  ghost predicate OnceInv(r: Ring) {
    && NoneTwice(r)
    && RegisteredOnce(r, r.producer, r.consumer)
    && RegisteredOnce(r, r.consumer, r.producer)
  }

  ghost predicate RegisteredOnce(r: Ring, e: End, other: End) {
    e.completion.Some? ==>
      if r.done then r.signals[e.completion.value] == 1 && other.flight.None?
      else r.signals[e.completion.value] == 0
  }

  /** Reader and writer stop the buffer only by reporting the end of their own transfer. */
  predicate Driven(e: Event) { !e.DoStop? }

  lemma CompleteOnce(r: Ring, side: Side, op: nat)
    requires Inv(r) && OnceInv(r) && r.signals[op] == 0
    requires !r.done && r.At(side).flight.None?
    requires r.At(side.Other()).completion != Some(op) && r.At(side).completion != Some(op)
    ensures OnceInv(Complete(r, side, op))
  {
    hide Inv, Room;
    if Room(r, side) > 0 {
      RegionHandedOut(r, side, op);
    }
  }

  lemma OneMoreNumber(r: Ring)
    requires Inv(r)
    ensures Inv(r.(next := r.next + 1))
    ensures r.next !in r.signals
    ensures r.producer.completion != Some(r.next) && r.consumer.completion != Some(r.next)
  {
  }

  lemma StartOnce(r: Ring, side: Side)
    requires Inv(r) && OnceInv(r) && Enabled(r, DoStart(side))
    ensures OnceInv(Start(r, side))
  {
    hide Inv, Complete;
    OneMoreNumber(r);
    if !r.done { CompleteOnce(r.(next := r.next + 1), side, r.next); }
  }

  /** A side with a transfer in flight has nothing registered, and at most one side ever has. */
  lemma OneRegistered(r: Ring, side: Side)
    requires Inv(r)
    ensures r.At(side).flight.Some? ==> r.At(side).completion.None?
    ensures r.producer.completion.None? || r.consumer.completion.None?
  {
    SizeFits(r);
  }

  lemma ReportOnce(r: Ring, side: Side, n: int)
    requires Inv(r) && OnceInv(r) && Enabled(r, DoFinish(side, n)) && n > 0
    ensures OnceInv(Finish(r, side, n))
  {
    hide Inv, Room, Complete;
    var other := side.Other();
    OneRegistered(r, side);
    var s := Cleared(Advance(r, side, n), other);
    if r.At(other).completion.Some? {
      var op := r.At(other).completion.value;
      RoomAfterAdvance(r, side, n);
      RegionHandedOut(s, other, op);
    }
  }

  lemma StopOnce(r: Ring, side: Side, n: int)
    requires Inv(r) && OnceInv(r) && Enabled(r, DoFinish(side, n)) && n <= 0
    ensures OnceInv(Finish(r, side, n))
  {
    hide Inv, Room;
    var other := side.Other();
    OneRegistered(r, side);
    if r.At(other).completion.Some? {
      RoomAfterAdvance(r, side, n);
    }
  }

  lemma FinishOnce(r: Ring, side: Side, n: int)
    requires Inv(r) && OnceInv(r) && Enabled(r, DoFinish(side, n))
    ensures OnceInv(Finish(r, side, n))
  {
    hide Inv, OnceInv, Finish;
    if n > 0 { ReportOnce(r, side, n); } else { StopOnce(r, side, n); }
  }

  lemma MoveOnce(r: Ring, side: Side, c: char)
    requires OnceInv(r) && CanMove(r, side)
    ensures OnceInv(Move(r, side, c))
  {
  }

  // ---- stop from outside ----

  /** Nothing is registered, or what is registered was never signalled and the other side has no
      transfer in flight. */
  predicate StopSafe(r: Ring) {
    && (r.producer.completion.Some? ==> !r.done && r.consumer.flight.None?)
    && (r.consumer.completion.Some? ==> !r.done && r.producer.flight.None?)
  }

  /** The run takes a `stop` from outside only where that is safe. */
  ghost predicate Guarded(r: Ring, events: seq<Event>)
    decreases |events|
  {
    events != [] ==>
      && Enabled(r, events[0])
      && (events[0].DoStop? ==> StopSafe(r))
      && Guarded(Next(r, events[0]), events[1..])
  }

  lemma SafeStopOnce(r: Ring)
    requires Inv(r) && OnceInv(r) && StopSafe(r)
    ensures OnceInv(Stop(r))
  {
    hide Inv;
    OneRegistered(r, Producer);
  }

  lemma {:induction false} OnceAlways(r: Ring, events: seq<Event>, s: Ring)
    requires Inv(r) && OnceInv(r) && Leads(r, events, s) && Guarded(r, events)
    ensures Inv(s) && OnceInv(s)
    decreases |events|
  {
    hide Inv, OnceInv, Start, Finish, StopSafe;
    if events != [] {
      var e := events[0];
      NextInv(r, e);
      match e {
        case DoStart(side) => StartOnce(r, side);
        case DoFinish(side, n) => FinishOnce(r, side, n);
        case DoMove(side, c) => MoveOnce(r, side, c);
        case DoStop => SafeStopOnce(r);
      }
      OnceAlways(Next(r, e), events[1..], s);
    }
  }

  /** However often `stop` cuts in, no operation is ever completed twice if it only does so where that
      is safe. */
  lemma GuardedSignalsOnce(bits: nat, garbage: seq<char>, events: seq<Event>, r: Ring)
    requires bits <= 63 && |garbage| == Pow2(bits)
    requires Leads(Init(bits, garbage), events, r) && Guarded(Init(bits, garbage), events)
    ensures NoneTwice(r)
  {
    InitInv(bits, garbage);
    OnceAlways(Init(bits, garbage), events, r);
  }

  lemma {:induction false} DrivenIsGuarded(r: Ring, events: seq<Event>, s: Ring)
    requires Leads(r, events, s) && forall i :: 0 <= i < |events| ==> Driven(events[i])
    ensures Guarded(r, events)
    decreases |events|
  {
    if events != [] {
      assert Driven(events[0]);
      DrivenIsGuarded(Next(r, events[0]), events[1..], s);
    }
  }

  /** With the reader and the writer of the program, no operation is ever completed twice. */
  lemma DrivenSignalsOnce(bits: nat, garbage: seq<char>, events: seq<Event>, r: Ring)
    requires bits <= 63 && |garbage| == Pow2(bits) && Leads(Init(bits, garbage), events, r)
    requires forall i :: 0 <= i < |events| ==> Driven(events[i])
    ensures NoneTwice(r)
  {
    DrivenIsGuarded(Init(bits, garbage), events, r);
    GuardedSignalsOnce(bits, garbage, events, r);
  }

  // ---- every start is answered ----

  ghost predicate Waiting(r: Ring, op: nat) {
    r.producer.completion == Some(op) || r.consumer.completion == Some(op)
  }

  /** Every operation started was signalled, unless it is registered and the buffer was not stopped. */
  ghost predicate Answered(r: Ring) {
    forall op: nat :: op in r.signals <==> op < r.next && (r.done || !Waiting(r, op))
  }

  lemma NoneWaiting(r: Ring, side: Side)
    requires Inv(r) && Answered(r) && Enabled(r, DoStart(side)) && !r.done
    ensures r.At(side).completion.None?
  {
    if r.At(side).completion.Some? {
      assert Waiting(r, r.At(side).completion.value);
    }
  }

  lemma StartAnswers(r: Ring, side: Side)
    requires Inv(r) && Answered(r) && Enabled(r, DoStart(side))
    ensures Answered(Start(r, side))
  {
    StartDoes(r, side);
    OneMoreNumber(r);
    if !r.done { NoneWaiting(r, side); }
    hide Inv, Start, Amount, WholeRegion;
    var s := Start(r, side);
    forall op: nat ensures op in s.signals <==> op < s.next && (s.done || !Waiting(s, op)) {
      assert op in r.signals <==> op < r.next && (r.done || !Waiting(r, op));
    }
  }

  lemma WaitingThere(r: Ring, side: Side)
    requires r.At(side).completion.None?
    ensures forall op: nat :: Waiting(r, op) <==> r.At(side.Other()).completion == Some(op)
  {
  }

  lemma ReportAnswers(r: Ring, side: Side, n: int)
    requires Inv(r) && Answered(r) && Enabled(r, DoFinish(side, n)) && n > 0
    ensures Answered(Finish(r, side, n))
  {
    hide Inv, Finish, WholeRegion;
    ReportDoes(r, side, n);
    OneRegistered(r, side);
    RegisteredNumbers(r);
    NothingParkedAfter(r, side, n);
    var s := Finish(r, side, n);
    WaitingThere(r, side);
    WaitingThere(s, side);
    hide Waiting;
    forall op: nat ensures op in s.signals <==> op < s.next && (s.done || !Waiting(s, op)) {
      assert op in r.signals <==> op < r.next && (r.done || !Waiting(r, op));
    }
  }

  lemma EndAnswers(r: Ring, side: Side, n: int)
    requires Inv(r) && Answered(r) && Enabled(r, DoFinish(side, n)) && n <= 0
    ensures Answered(Finish(r, side, n))
  {
    hide Inv, Finish;
    EndDoes(r, side, n);
    OneRegistered(r, side);
    RegisteredNumbers(r);
    NothingParkedAfter(r, side, n);
    var s := Finish(r, side, n);
    WaitingThere(r, side);
    WaitingThere(s, side);
    hide Waiting;
    forall op: nat ensures op in s.signals <==> op < s.next && (s.done || !Waiting(s, op)) {
      assert op in r.signals <==> op < r.next && (r.done || !Waiting(r, op));
    }
  }

  lemma FinishAnswers(r: Ring, side: Side, n: int)
    requires Inv(r) && Answered(r) && Enabled(r, DoFinish(side, n))
    ensures Answered(Finish(r, side, n))
  {
    hide Inv, Answered, Finish, Enabled;
    if n > 0 { ReportAnswers(r, side, n); } else { EndAnswers(r, side, n); }
  }

  lemma NothingParkedAfter(r: Ring, side: Side, n: int)
    requires Inv(r) && Enabled(r, DoFinish(side, n))
    ensures r.At(side).flight.Some? && Finish(r, side, n).At(side).completion.None?
  {
    hide Pow2, DataInv, FillInv, DrainInv, NumberInv;
  }

  lemma RegisteredNumbers(r: Ring)
    requires Inv(r)
    ensures forall op: nat :: Waiting(r, op) ==> op < r.next
  {
  }

  lemma StopAnswers(r: Ring)
    requires Inv(r) && Answered(r)
    ensures Answered(Stop(r))
  {
    RegisteredNumbers(r);
    var s := Stop(r);
    forall op: nat ensures op in s.signals <==> op < s.next && (s.done || !Waiting(s, op)) {
      assert op in r.signals <==> op < r.next && (r.done || !Waiting(r, op));
    }
  }

  lemma MoveAnswers(r: Ring, side: Side, c: char)
    requires Answered(r) && CanMove(r, side)
    ensures Answered(Move(r, side, c))
  {
    var s := Move(r, side, c);
    forall op: nat ensures op in s.signals <==> op < s.next && (s.done || !Waiting(s, op)) {
      assert op in r.signals <==> op < r.next && (r.done || !Waiting(r, op));
    }
  }

  lemma {:induction false} AnsweredAlways(r: Ring, events: seq<Event>, s: Ring)
    requires Inv(r) && Answered(r) && Leads(r, events, s)
    ensures Inv(s) && Answered(s)
    decreases |events|
  {
    hide Inv, Answered, Start, Finish, Stop;
    if events != [] {
      var e := events[0];
      NextInv(r, e);
      match e {
        case DoStart(side) => StartAnswers(r, side);
        case DoFinish(side, n) => FinishAnswers(r, side, n);
        case DoMove(side, c) => MoveAnswers(r, side, c);
        case DoStop => StopAnswers(r);
      }
      AnsweredAlways(Next(r, e), events[1..], s);
    }
  }

  /** In every reachable state exactly those started operations have had no signal that are registered
      while the buffer has not been stopped. */
  lemma EveryStartIsAnswered(r: Ring)
    requires Reachable(r)
    ensures Answered(r)
  {
    hide Inv;
    var bits: nat, garbage: seq<char>, events: seq<Event> :|
      bits <= 63 && |garbage| == Pow2(bits) && Leads(Init(bits, garbage), events, r);
    InitInv(bits, garbage);
    AnsweredAlways(Init(bits, garbage), events, r);
  }

  /** And as long as each `stop` from outside is safe, all others have had exactly one. */
  lemma GuardedSignalsExactlyOnce(bits: nat, garbage: seq<char>, events: seq<Event>, r: Ring, op: nat)
    requires bits <= 63 && |garbage| == Pow2(bits) && op < r.next
    requires Leads(Init(bits, garbage), events, r) && Guarded(Init(bits, garbage), events)
    ensures r.signals[op] == if Waiting(r, op) && !r.done then 0 else 1
  {
    GuardedSignalsOnce(bits, garbage, events, r);
    EveryStartIsAnswered(r);
    assert op in r.signals <==> op < r.next && (r.done || !Waiting(r, op));
  }

  /** What is registered was signalled exactly if the buffer was stopped. */
  ghost predicate SignalledIfDone(r: Ring) {
    && (r.producer.completion.Some? ==> (r.done <==> r.signals[r.producer.completion.value] > 0))
    && (r.consumer.completion.Some? ==> (r.done <==> r.signals[r.consumer.completion.value] > 0))
  }

  lemma ReachableSignals(r: Ring)
    requires Reachable(r)
    ensures Inv(r) && SignalledIfDone(r)
  {
    ReachableInv(r);
    EveryStartIsAnswered(r);
    RegisteredNumbers(r);
    hide Inv;
    assert r.producer.completion.Some? ==> Waiting(r, r.producer.completion.value);
    assert r.consumer.completion.Some? ==> Waiting(r, r.consumer.completion.value);
  }

  /** No operation is completed twice, now or on any way the program may go on. */
  ghost predicate NeverTwice(r: Ring) {
    forall events: seq<Event>, s: Ring :: Leads(r, events, s) && Guarded(r, events) ==> NoneTwice(s)
  }

  lemma SafeStop(r: Ring)
    requires Inv(r) && SignalledIfDone(r) && NoneTwice(r) && StopSafe(r)
    ensures OnceInv(Stop(r)) && NeverTwice(Stop(r))
  {
    hide Inv;
    StopInv(r);
    SafeStopOnce(r);
    forall events: seq<Event>, s: Ring | Leads(Stop(r), events, s) && Guarded(Stop(r), events)
      ensures NoneTwice(s)
    {
      OnceAlways(Stop(r), events, s);
    }
  }

  /** The transfer in flight moves a byte, if it has not yet, and reports what it moved: the parked
      operation, already stopped, is completed again. */
  lemma AdvanceSignalsAgain(r: Ring, side: Side) returns (events: seq<Event>, s: Ring)
    requires Inv(r) && r.At(side).flight.Some? && r.At(side.Other()).completion.Some?
    ensures Leads(r, events, s) && forall i :: 0 <= i < |events| ==> Driven(events[i])
    ensures var op := r.At(side.Other()).completion.value; s.signals[op] == r.signals[op] + 1
  {
    hide Inv, Finish, Room;
    var t := r;
    events := [];
    if r.At(side).flight.value.moved == [] {
      FirstByte(r, side);
      NextInv(r, DoMove(side, '!'));
      t := Move(r, side, '!');
      events := [DoMove(side, '!')];
    }
    var n := |t.At(side).flight.value.moved|;
    s := Finish(t, side, n);
    var last := [DoFinish(side, n)];
    assert Leads(t, last, s) by { assert last[1..] == []; }
    if events != [] {
      assert (events + last)[1..] == last;
    } else {
      assert events + last == last;
    }
    events := events + last;
    WokenAgain(t, side, n);
  }

  lemma FirstByte(r: Ring, side: Side)
    requires Inv(r) && r.At(side).flight.Some? && r.At(side).flight.value.moved == []
    ensures CanMove(r, side)
  {
  }

  lemma WokenAgain(r: Ring, side: Side, n: int)
    requires Inv(r) && Enabled(r, DoFinish(side, n)) && n > 0 && r.At(side.Other()).completion.Some?
    ensures var op := r.At(side.Other()).completion.value;
      Finish(r, side, n).signals[op] == r.signals[op] + 1
  {
    hide Inv, Room;
    var other := side.Other();
    RoomAfterAdvance(r, side, n);
    RegionHandedOut(Cleared(Advance(r, side, n), other), other, r.At(other).completion.value);
  }

  lemma UnsafeStop(r: Ring, side: Side)
    requires Inv(r) && SignalledIfDone(r) && r.At(side).completion.Some?
    requires r.done || r.At(side.Other()).flight.Some?
    ensures !NeverTwice(Stop(r))
  {
    hide Inv;
    OneRegistered(r, side);
    StopInv(r);
    var t, op := Stop(r), r.At(side).completion.value;
    assert t.signals[op] == r.signals[op] + 1;
    if r.done {
      assert Leads(t, [], t);
      assert !NoneTwice(t);
    } else {
      var events, s := AdvanceSignalsAgain(t, side.Other());
      DrivenIsGuarded(t, events, s);
      assert s.signals[op] == 2;
      assert !NoneTwice(s);
    }
  }

  lemma AlreadyTwice(r: Ring)
    requires !NoneTwice(r)
    ensures !NeverTwice(Stop(r))
  {
    var op :| r.signals[op] > 1;
    assert Stop(r).signals[op] > 1;
    assert Leads(Stop(r), [], Stop(r));
  }

  /** Wherever a `stop` cuts in, whatever was stopped before: no operation is completed twice then or
      later exactly if none was before, and nothing is registered, or the buffer was not yet stopped
      and the side that is not parked has no transfer in flight. */
  lemma StopHarmlessIff(r: Ring)
    requires Reachable(r)
    ensures NeverTwice(Stop(r)) <==> NoneTwice(r) && StopSafe(r)
  {
    ReachableSignals(r);
    hide Inv, SignalledIfDone, NeverTwice, NoneTwice, Stop;
    if !NoneTwice(r) {
      AlreadyTwice(r);
    } else if StopSafe(r) {
      SafeStop(r);
    } else if r.producer.completion.Some? && (r.done || r.consumer.flight.Some?) {
      UnsafeStop(r, Producer);
    } else {
      UnsafeStop(r, Consumer);
    }
  }

  /** One such run on a buffer of two bytes: the consumer parks, the producer gets a region, `stop`
      completes the parked consumer, and the byte the producer then reports completes it again. */
  lemma StoppedThenCompleted(garbage: seq<char>)
    requires |garbage| == 2
    ensures var r0 := Init(1, garbage);
      var r1 := Start(r0, Consumer);
      var r2 := Start(r1, Producer);
      var r3 := Stop(r2);
      Enabled(r0, DoStart(Consumer)) && Enabled(r1, DoStart(Producer)) && CanMove(r3, Producer)
      && var r4 := Move(r3, Producer, 'x');
        Enabled(r4, DoFinish(Producer, 1)) && Finish(r4, Producer, 1).signals[0] == 2
  {
  }
}
