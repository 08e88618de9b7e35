/** What the events of a run alone say about the ring buffer it leads to. */
module RingRuns {
  import opened Wrappers
  import opened Powers
  import opened RingProtocol
  import RingSignals

  // ---- read off the events ----

  /** The bytes the producer put in and reported; `pending` are those of the transfer going on. A transfer
      that ends with `n <= 0` reports none. */
  function Reported(pending: seq<char>, events: seq<Event>): seq<char>
    decreases |events|
  {
    if events == [] then []
    else
      match events[0]
      case DoMove(Producer, c) => Reported(pending + [c], events[1..])
      case DoFinish(Producer, n) => (if n > 0 then pending else []) + Reported([], events[1..])
      case _ => Reported(pending, events[1..])
  }

  /** How many bytes the consumer reported as taken out. */
  function Taken(events: seq<Event>): nat
    decreases |events|
  {
    if events == [] then 0
    else
      match events[0]
      case DoFinish(Consumer, n) => (if n > 0 then n else 0) + Taken(events[1..])
      case _ => Taken(events[1..])
  }

  function Starts(events: seq<Event>): nat
    decreases |events|
  {
    if events == [] then 0 else (if events[0].DoStart? then 1 else 0) + Starts(events[1..])
  }

  /** A `stop`, or a transfer that came to its end or failed. */
  predicate Stops(e: Event) { e.DoStop? || (e.DoFinish? && e.n <= 0) }

  // ---- and what it comes to ----

  function Pending(e: End): seq<char> { if e.flight.Some? then e.flight.value.moved else [] }

  lemma AfterStart(r: Ring, side: Side)
    requires Inv(r) && Enabled(r, DoStart(side))
    ensures var s := Start(r, side);
      && s.done == r.done && s.next == r.next + 1
      && s.producer.stream == r.producer.stream && Pending(s.producer) == Pending(r.producer)
      && s.consumer.stream == r.consumer.stream
  {
    StartDoes(r, side);
    hide Inv, Start, Amount;
  }

  lemma AfterFinish(r: Ring, side: Side, n: int)
    requires Inv(r) && Enabled(r, DoFinish(side, n))
    ensures var s, moved := Finish(r, side, n), if n > 0 then Pending(r.At(side)) else [];
      && s.done == (r.done || n <= 0) && s.next == r.next
      && s.At(side).stream == r.At(side).stream + moved && Pending(s.At(side)) == []
      && s.At(side.Other()).stream == r.At(side.Other()).stream
      && Pending(s.At(side.Other())) == Pending(r.At(side.Other()))
  {
    if n > 0 { ReportDoes(r, side, n); } else { EndDoes(r, side, n); }
    if r.At(side.Other()).completion.Some? { RegisteredIsIdle(r, side.Other()); }
    hide Inv, Finish, Amount;
  }

  lemma PendingIsMoved(r: Ring, side: Side)
    requires r.At(side).flight.Some?
    ensures Pending(r.At(side)) == r.At(side).flight.value.moved
  {
  }

  lemma AfterMove(r: Ring, side: Side, c: char)
    requires CanMove(r, side)
    ensures var s := Move(r, side, c);
      && s.done == r.done && s.next == r.next
      && s.producer.stream == r.producer.stream && s.consumer.stream == r.consumer.stream
      && Pending(s.producer) == if side.Producer? then Pending(r.producer) + [c] else Pending(r.producer)
  {
  }

  lemma AfterStop(r: Ring)
    ensures var s := Stop(r);
      s.done && s.next == r.next && s.producer == r.producer && s.consumer == r.consumer
  {
  }

  /** One event, and what the rest of the run will still report. */
  lemma AfterStep(r: Ring, e: Event, rest: seq<Event>)
    requires Inv(r) && Enabled(r, e)
    ensures var s, events := Next(r, e), [e] + rest;
      && s.done == (r.done || Stops(e))
      && r.next + Starts(events) == s.next + Starts(rest)
      && r.producer.stream + Reported(Pending(r.producer), events)
        == s.producer.stream + Reported(Pending(s.producer), rest)
      && |r.consumer.stream| + Taken(events) == |s.consumer.stream| + Taken(rest)
  {
    hide Inv, Start, Finish, Move, Stop, Pending;
    assert ([e] + rest)[1..] == rest;
    match e
    case DoStart(side) => AfterStart(r, side);
    case DoFinish(side, n) =>
      AfterFinish(r, side, n);
      PendingIsMoved(r, side);
      var more := if n > 0 then Pending(r.producer) else [];
      assert (r.producer.stream + more) + Reported([], rest) == r.producer.stream + (more + Reported([], rest));
    case DoMove(side, c) => AfterMove(r, side, c);
    case DoStop => AfterStop(r);
  }

  lemma {:induction false} AfterRun(r: Ring, events: seq<Event>, s: Ring)
    requires Inv(r) && Leads(r, events, s)
    ensures s.done <==> r.done || exists i :: 0 <= i < |events| && Stops(events[i])
    ensures s.next == r.next + Starts(events)
    ensures s.producer.stream == r.producer.stream + Reported(Pending(r.producer), events)
    ensures |s.consumer.stream| == |r.consumer.stream| + Taken(events)
    decreases |events|
  {
    if events != [] {
      hide Inv, Next, Enabled, Reported, Taken, Starts, Stops;
      var e, rest := events[0], events[1..];
      assert events == [e] + rest;
      NextInv(r, e);
      AfterStep(r, e, rest);
      AfterRun(Next(r, e), rest, s);
      if i :| 0 <= i < |events| && Stops(events[i]) {
        assert i > 0 ==> Stops(rest[i - 1]);
      }
      if i :| 0 <= i < |rest| && Stops(rest[i]) {
        assert Stops(events[i + 1]);
      }
    }
  }

  /** The run law: what was produced are the bytes put in by the transfers that reported them, what was
      consumed is their prefix of the reported length, and the buffer is stopped exactly if some transfer
      ended or failed, or a `stop` came. Then every operation started was signalled, and before that
      every one that is not registered. */
  lemma RunIs(bits: nat, garbage: seq<char>, events: seq<Event>, r: Ring)
    requires bits <= 63 && |garbage| == Pow2(bits) && Leads(Init(bits, garbage), events, r)
    ensures r.producer.stream == Reported([], events)
    ensures Taken(events) <= |Reported([], events)| && r.consumer.stream == Reported([], events)[..Taken(events)]
    ensures r.done <==> exists i :: 0 <= i < |events| && Stops(events[i])
    ensures forall op: nat :: op in r.signals <==> op < Starts(events) && (r.done || !RingSignals.Waiting(r, op))
  {
    InitInv(bits, garbage);
    AfterRun(Init(bits, garbage), events, r);
    ConsumedIsPrefix(r);
    RingSignals.EveryStartIsAnswered(r);
  }
}
