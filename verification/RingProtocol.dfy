/** The asynchronous ring buffer as a protocol of one producer and one consumer. An operation gets a
    contiguous region or is parked; the transfer into or out of its region happens byte by byte while
    it is in flight; it ends by reporting how many bytes it moved. */
module RingProtocol {
  import opened Wrappers
  import opened Powers
  import opened RingArithmetic

  datatype Side = Producer | Consumer {
    function Other(): Side { if Producer? then Consumer else Producer }
  }

  /** A transfer between `buffer[begin..begin + len]` and the outside; `moved` was transferred so far. */
  datatype Flight = Flight(op: nat, begin: nat, len: nat, moved: seq<char>)

  /** One side: its 64-bit position, the operation registered to be woken, the transfer in flight,
      and all bytes whose transfer was reported. */
  datatype End = End(position: nat, completion: Option<nat>, flight: Option<Flight>, stream: seq<char>)

  /** `signals` counts the completion signals each operation has received; `next` is the identity of
      the next operation. */
  datatype Ring = Ring(bits: nat, buffer: seq<char>, done: bool, producer: End, consumer: End,
                       signals: multiset<nat>, next: nat)
  {
    function Size(): nat { Pow2(bits) }

    function At(side: Side): End { if side.Producer? then producer else consumer }

    function With(side: Side, e: End): Ring {
      if side.Producer? then this.(producer := e) else this.(consumer := e)
    }

    function Signal(op: nat): Ring { this.(signals := signals + multiset{op}) }
  }

  /** An int reports the bytes of one transfer, so it moves no more than that. */
  const INT_MAX: int := 0x7fff_ffff

  // ---- the steps, as the code takes them ----

  /** `BufferSize`: unsigned 64-bit arithmetic on the two positions. */
  function Room(r: Ring, side: Side): nat {
    var filled := (r.producer.position - r.consumer.position) % WORD;
    if side.Producer? then (r.Size() - filled) % WORD else filled
  }

  function Min(a: nat, b: nat): nat { if a < b then a else b }

  /** `state::complete`: hand out a contiguous region, or register to be woken. */
  function Complete(r: Ring, side: Side, op: nat): Ring {
    var size := Room(r, side);
    if 0 < size then
      var begin := BitAnd(r.At(side).position, r.Size() - 1);
      var len := Min(r.Size() - begin, size);
      r.With(side, r.At(side).(flight := Some(Flight(op, begin, len, [])))).Signal(op)
    else
      r.With(side, r.At(side).(completion := Some(op)))
  }

  /** `start` of a new operation. */
  function Start(r: Ring, side: Side): Ring {
    var op, s := r.next, r.(next := r.next + 1);
    if r.done then s.Signal(op) else Complete(s, side, op)
  }

  /** `ring_buffer::stop`: signals whatever is registered, and leaves it registered. */
  function Stop(r: Ring): Ring {
    var s := r.(done := true);
    var t := if r.producer.completion.Some? then s.Signal(r.producer.completion.value) else s;
    if r.consumer.completion.Some? then t.Signal(r.consumer.completion.value) else t
  }

  /** One byte goes into the producer's region, or out of the consumer's. */
  function Move(r: Ring, side: Side, c: char): Ring
    requires CanMove(r, side)
  {
    var f := r.At(side).flight.value;
    var k := f.begin + |f.moved|;
    if side.Producer? then
      r.(buffer := r.buffer[k := c], producer := r.producer.(flight := Some(f.(moved := f.moved + [c]))))
    else
      r.(consumer := r.consumer.(flight := Some(f.(moved := f.moved + [r.buffer[k]]))))
  }

  predicate CanMove(r: Ring, side: Side) {
    var flight := r.At(side).flight;
    flight.Some? && |flight.value.moved| < flight.value.len && |flight.value.moved| < INT_MAX
      && flight.value.begin + |flight.value.moved| < |r.buffer|
  }

  /** Takes the registered operation of a side out and lets it try again. */
  function Wake(r: Ring, side: Side): Ring {
    if r.At(side).completion.Some? then
      Complete(r.With(side, r.At(side).(completion := None)), side, r.At(side).completion.value)
    else r
  }

  /** The transfer reports `n`: reader and writer turn `n <= 0` into a stop and zero bytes; then the
      position advances. */
  function Advance(r: Ring, side: Side, n: int): Ring
    requires r.At(side).flight.Some?
  {
    var f := r.At(side).flight.value;
    var ended := r.With(side, r.At(side).(flight := None));
    if n <= 0 then Stop(ended)
    else
      var e := ended.At(side);
      ended.With(side, e.(position := (e.position + n) % WORD, stream := e.stream + f.moved))
  }

  /** The end of a transfer: advance, then wake the other side. */
  function Finish(r: Ring, side: Side, n: int): Ring
    requires r.At(side).flight.Some?
  {
    Wake(Advance(r, side, n), side.Other())
  }

  datatype Event = DoStart(side: Side) | DoMove(side: Side, c: char) | DoFinish(side: Side, n: int) | DoStop

  /** A side starts its next operation once the previous one is over; a transfer reports the bytes it
      moved, or an error or end of file; `stop` may come at any moment. */
  predicate Enabled(r: Ring, e: Event) {
    match e
    case DoStart(side) =>
      var s := r.At(side);
      s.flight.None? && (s.completion.Some? ==> s.completion.value in r.signals)
    case DoMove(side, _) => CanMove(r, side)
    case DoFinish(side, n) =>
      var s := r.At(side);
      s.flight.Some? && (n <= 0 || n == |s.flight.value.moved|)
    case DoStop => true
  }

  function Next(r: Ring, e: Event): Ring
    requires Enabled(r, e)
  {
    match e
    case DoStart(side) => Start(r, side)
    case DoMove(side, c) => Move(r, side, c)
    case DoFinish(side, n) => Finish(r, side, n)
    case DoStop => Stop(r)
  }

  function Init(bits: nat, garbage: seq<char>): Ring {
    var e := End(0, None, None, []);
    Ring(bits, garbage, false, e, e, multiset{}, 0)
  }

  // ---- what every step keeps ----

  /** The bytes between the two positions are in the buffer, in order. */
  ghost predicate DataInv(r: Ring) {
    var p, c := r.producer.stream, r.consumer.stream;
    && r.bits <= 63
    && |r.buffer| == r.Size()
    && c <= p
    && |p| - |c| <= r.Size()
    && r.producer.position == |p| % WORD
    && r.consumer.position == |c| % WORD
    && (forall i :: |c| <= i < |p| ==> r.buffer[i % r.Size()] == p[i])
  }

  /** The producer's region is free space. */
  ghost predicate FillInv(r: Ring)
    requires DataInv(r)
  {
    r.producer.flight.Some? ==>
      var f := r.producer.flight.value;
      var p, c := r.producer.stream, r.consumer.stream;
      && f.begin == |p| % r.Size()
      && 0 < f.len && f.begin + f.len <= r.Size()
      && |p| + f.len <= |c| + r.Size()
      && |f.moved| <= f.len && |f.moved| <= INT_MAX
      && f.moved == r.buffer[f.begin..f.begin + |f.moved|]
  }

  /** The consumer's region is data, and what it took out is what was put in. */
  ghost predicate DrainInv(r: Ring)
    requires DataInv(r)
  {
    r.consumer.flight.Some? ==>
      var f := r.consumer.flight.value;
      var p, c := r.producer.stream, r.consumer.stream;
      && f.begin == |c| % r.Size()
      && 0 < f.len && f.begin + f.len <= r.Size()
      && |c| + f.len <= |p|
      && |f.moved| <= f.len && |f.moved| <= INT_MAX
      && f.moved == p[|c|..|c| + |f.moved|]
  }

  /** A registered producer means full, a registered consumer empty, and neither is in flight. */
  ghost predicate ParkedInv(r: Ring) {
    && (r.producer.completion.Some? ==>
      |r.producer.stream| - |r.consumer.stream| == r.Size() && r.producer.flight.None?)
    && (r.consumer.completion.Some? ==>
      |r.producer.stream| == |r.consumer.stream| && r.consumer.flight.None?)
  }

  /** Operations are numbered in the order they start. */
  ghost predicate NumberInv(r: Ring) {
    && (forall op :: op in r.signals ==> op < r.next)
    && Numbered(r.producer, r.next)
    && Numbered(r.consumer, r.next)
  }

  ghost predicate Numbered(e: End, next: nat) {
    && (e.completion.Some? ==> e.completion.value < next)
    && (e.flight.Some? ==> e.flight.value.op < next)
  }

  ghost predicate Inv(r: Ring) {
    DataInv(r) && FillInv(r) && DrainInv(r) && ParkedInv(r) && NumberInv(r)
  }

  lemma InitInv(bits: nat, garbage: seq<char>)
    requires bits <= 63 && |garbage| == Pow2(bits)
    ensures Inv(Init(bits, garbage))
  {
  }

  lemma SizeFits(r: Ring)
    requires r.bits <= 63
    ensures 0 < r.Size() && 2 * r.Size() <= WORD
  {
    Pow2Monotone(r.bits, 63);
    WordIsPow2();
    assert Pow2(64) == 2 * Pow2(63);
  }

  lemma WrappedDifference(p: nat, c: nat)
    requires c <= p < c + WORD
    ensures (p % WORD - c % WORD) % WORD == p - c
  {
  }

  lemma SmallRemainder(x: nat)
    requires x < WORD
    ensures x % WORD == x
  {
  }

  /** The wrapped subtraction gives the true amounts, and the mask the true index. */
  lemma RoomIs(r: Ring, side: Side)
    requires DataInv(r)
    ensures Room(r, side) == if side.Producer?
      then r.Size() - (|r.producer.stream| - |r.consumer.stream|)
      else |r.producer.stream| - |r.consumer.stream|
    ensures BitAnd(r.At(side).position, r.Size() - 1) == |r.At(side).stream| % r.Size()
  {
    hide BitAnd, Pow2;
    var p, c := |r.producer.stream|, |r.consumer.stream|;
    SizeFits(r);
    MaskIsRemainder(r.At(side).position, r.bits);
    WrapKeepsIndex(|r.At(side).stream|, r.bits);
    WrappedDifference(p, c);
    SmallRemainder(r.Size() - (p - c));
  }

  // ---- start, stop ----

  lemma RegionHandedOut(r: Ring, side: Side, op: nat)
    requires Inv(r) && Room(r, side) > 0
    ensures Complete(r, side, op).buffer == r.buffer && Complete(r, side, op).Size() == r.Size()
    ensures var flight := Complete(r, side, op).At(side).flight;
      Complete(r, side, op) == r.With(side, r.At(side).(flight := flight)).Signal(op)
    ensures var flight := Complete(r, side, op).At(side).flight;
      && flight.Some? && flight.value.op == op && flight.value.moved == []
      && flight.value.begin == |r.At(side).stream| % r.Size()
      && 0 < flight.value.len && flight.value.begin + flight.value.len <= r.Size()
      && flight.value.len <= Room(r, side)
      && (flight.value.len == Room(r, side) || flight.value.begin + flight.value.len == r.Size())
  {
    hide BitAnd, Pow2, Room, DataInv, FillInv, DrainInv, ParkedInv, NumberInv;
    InvHasData(r);
    SizeFits(r);
    RoomIs(r, side);
    IndexInside(|r.At(side).stream|, r.Size());
  }

  lemma InvHasData(r: Ring)
    requires Inv(r)
    ensures DataInv(r) && r.bits <= 63
  {
  }

  lemma CompleteProducer(r: Ring, op: nat)
    requires Inv(r) && r.producer.flight.None? && op < r.next
    ensures Inv(Complete(r, Producer, op))
  {
    hide BitAnd, Pow2, Room;
    RoomIs(r, Producer);
    var s := Complete(r, Producer, op);
    if Room(r, Producer) > 0 {
      RegionHandedOut(r, Producer, op);
      assert s.producer.completion == r.producer.completion;
    }
  }

  lemma CompleteConsumer(r: Ring, op: nat)
    requires Inv(r) && r.consumer.flight.None? && op < r.next
    ensures Inv(Complete(r, Consumer, op))
  {
    hide BitAnd, Pow2, Room;
    RoomIs(r, Consumer);
    var s := Complete(r, Consumer, op);
    if Room(r, Consumer) > 0 {
      RegionHandedOut(r, Consumer, op);
      assert s.consumer.completion == r.consumer.completion;
    }
  }

  lemma CompleteInv(r: Ring, side: Side, op: nat)
    requires Inv(r) && r.At(side).flight.None? && op < r.next
    ensures Inv(Complete(r, side, op))
  {
    hide Complete, Inv;
    if side.Producer? { CompleteProducer(r, op); } else { CompleteConsumer(r, op); }
  }

  lemma IndexInside(x: nat, m: nat)
    requires m > 0
    ensures 0 <= x % m < m
  {
  }

  lemma SignalInv(r: Ring, op: nat)
    requires Inv(r) && op < r.next
    ensures Inv(r.Signal(op))
  {
  }

  lemma StopInv(r: Ring)
    requires Inv(r)
    ensures Inv(Stop(r))
  {
    var s := r.(done := true);
    assert Inv(s);
    if r.producer.completion.Some? { SignalInv(s, r.producer.completion.value); }
  }

  lemma StartIsIdle(r: Ring, side: Side)
    requires Enabled(r, DoStart(side))
    ensures r.At(side).flight.None? && r.(next := r.next + 1).At(side).flight.None?
  {
  }

  lemma StartInv(r: Ring, side: Side)
    requires Inv(r) && Enabled(r, DoStart(side))
    ensures Inv(Start(r, side))
  {
    hide Complete;
    NextNumberInv(r);
    hide Inv;
    var s := r.(next := r.next + 1);
    if r.done { SignalInv(s, r.next); } else { StartIsIdle(r, side); CompleteInv(s, side, r.next); }
  }

  // ---- moving bytes ----

  /** The next byte of the producer lands on no byte that is still wanted. */
  lemma FillIsFree(r: Ring, i: nat)
    requires Inv(r) && CanMove(r, Producer)
    requires |r.consumer.stream| <= i < |r.producer.stream|
    ensures var f := r.producer.flight.value; i % r.Size() != f.begin + |f.moved|
  {
    var f, p, size := r.producer.flight.value, |r.producer.stream|, r.Size();
    ModAdd(p, |f.moved|, size);
    ModDistinct(i, p + |f.moved|, size);
  }

  lemma FillInvKept(r: Ring, c: char)
    requires Inv(r) && CanMove(r, Producer)
    ensures Inv(Move(r, Producer, c))
  {
    hide Pow2;
    var s, f := Move(r, Producer, c), r.producer.flight.value;
    var k := f.begin + |f.moved|;
    forall i | |s.consumer.stream| <= i < |s.producer.stream|
      ensures s.buffer[i % s.Size()] == s.producer.stream[i]
    {
      FillIsFree(r, i);
      IndexInside(i, r.Size());
    }
    assert s.buffer[f.begin..k + 1] == r.buffer[f.begin..k] + [c];
  }

  /** The consumer's next byte is the one put in at that place of the stream. */
  lemma DrainInvKept(r: Ring, c: char)
    requires Inv(r) && CanMove(r, Consumer)
    ensures Inv(Move(r, Consumer, c))
  {
    hide Pow2;
    var s, f := Move(r, Consumer, c), r.consumer.flight.value;
    var m, p := |r.consumer.stream|, r.producer.stream;
    ModAdd(m, |f.moved|, r.Size());
    assert r.buffer[f.begin + |f.moved|] == p[m + |f.moved|];
    assert p[m..m + |f.moved| + 1] == p[m..m + |f.moved|] + [p[m + |f.moved|]];
  }

  // ---- ending a transfer ----

  function Cleared(r: Ring, side: Side): Ring { r.With(side, r.At(side).(completion := None)) }

  lemma EndedInv(r: Ring, side: Side)
    requires Inv(r)
    ensures Inv(r.With(side, r.At(side).(flight := None)))
  {
  }

  lemma ClearedInv(r: Ring, side: Side)
    requires Inv(r)
    ensures Inv(Cleared(r, side))
  {
  }

  lemma WrappedSum(x: nat, n: nat)
    ensures (x % WORD + n) % WORD == (x + n) % WORD
  {
  }

  lemma FilledBecomesData(r: Ring)
    requires Inv(r) && r.producer.flight.Some?
    ensures var p, moved := r.producer.stream, r.producer.flight.value.moved;
      forall i :: |r.consumer.stream| <= i < |p| + |moved| ==> r.buffer[i % r.Size()] == (p + moved)[i]
  {
    hide Pow2;
    var f, p, c := r.producer.flight.value, r.producer.stream, r.consumer.stream;
    forall i | |c| <= i < |p| + |f.moved| ensures r.buffer[i % r.Size()] == (p + f.moved)[i] {
      if i >= |p| {
        ModAdd(|p|, i - |p|, r.Size());
        assert f.moved[i - |p|] == r.buffer[f.begin..f.begin + |f.moved|][i - |p|];
      }
    }
  }

  /** The bytes of the region become part of the stream; only the consumer's registration, if any,
      has lost its reason. */
  lemma ProducerAdvances(r: Ring, n: int)
    requires Inv(r) && Enabled(r, DoFinish(Producer, n)) && n > 0
    ensures Inv(Cleared(Advance(r, Producer, n), Consumer))
  {
    hide Pow2;
    var f, p, c := r.producer.flight.value, r.producer.stream, r.consumer.stream;
    var s := Cleared(Advance(r, Producer, n), Consumer);
    WrappedSum(|p|, n);
    assert s.producer.stream == p + f.moved && s.consumer.stream == c && s.buffer == r.buffer;
    FilledBecomesData(r);
    assert DataInv(s);
    if r.consumer.flight.Some? {
      var g := r.consumer.flight.value;
      assert (p + f.moved)[|c|..|c| + |g.moved|] == p[|c|..|c| + |g.moved|];
    }
  }

  /** The bytes taken out become part of what was consumed. */
  lemma ConsumerAdvances(r: Ring, n: int)
    requires Inv(r) && Enabled(r, DoFinish(Consumer, n)) && n > 0
    ensures Inv(Cleared(Advance(r, Consumer, n), Producer))
  {
    hide Pow2;
    var f, p, c := r.consumer.flight.value, r.producer.stream, r.consumer.stream;
    var s := Cleared(Advance(r, Consumer, n), Producer);
    WrappedSum(|c|, n);
    assert s.consumer.stream == c + f.moved == p[..|c| + n];
    assert s.producer.stream == p && s.buffer == r.buffer;
  }

  lemma AdvanceInv(r: Ring, side: Side, n: int)
    requires Inv(r) && Enabled(r, DoFinish(side, n))
    ensures Inv(Cleared(Advance(r, side, n), side.Other()))
    ensures n <= 0 ==> Inv(Advance(r, side, n))
  {
    hide Inv, Stop, Cleared;
    if n <= 0 {
      var ended := r.With(side, r.At(side).(flight := None));
      EndedInv(r, side);
      StopInv(ended);
      ClearedInv(Stop(ended), side.Other());
    } else if side.Producer? {
      ProducerAdvances(r, n);
    } else {
      ConsumerAdvances(r, n);
    }
  }

  /** Advancing and stopping leave the other side's registration and transfer as they were. */
  lemma OtherUntouched(r: Ring, side: Side, n: int)
    requires r.At(side).flight.Some?
    ensures Advance(r, side, n).At(side.Other()) == r.At(side.Other()) && Advance(r, side, n).next == r.next
  {
  }

  lemma RegisteredIsIdle(r: Ring, side: Side)
    requires Inv(r) && r.At(side).completion.Some?
    ensures r.At(side).flight.None? && r.At(side).completion.value < r.next
  {
  }

  lemma FinishInv(r: Ring, side: Side, n: int)
    requires Inv(r) && Enabled(r, DoFinish(side, n))
    ensures Inv(Finish(r, side, n))
  {
    hide Inv, Advance, Complete;
    var s, other := Advance(r, side, n), side.Other();
    AdvanceInv(r, side, n);
    OtherUntouched(r, side, n);
    if s.At(other).completion.Some? {
      RegisteredIsIdle(r, other);
      CompleteInv(Cleared(s, other), other, s.At(other).completion.value);
    } else {
      assert Cleared(s, other) == s;
    }
  }

  // ---- every run ----

  /** Every step keeps the invariant, wherever `stop` cuts in. */
  lemma NextInv(r: Ring, e: Event)
    requires Inv(r) && Enabled(r, e)
    ensures Inv(Next(r, e))
  {
    hide Inv, Start, Move, Finish, Stop;
    match e
    case DoStart(side) => StartInv(r, side);
    case DoMove(side, c) => if side.Producer? { FillInvKept(r, c); } else { DrainInvKept(r, c); }
    case DoFinish(side, n) => FinishInv(r, side, n);
    case DoStop => StopInv(r);
  }

  /** `events` can happen one after the other from `r`, and lead to `s`. */
  ghost predicate Leads(r: Ring, events: seq<Event>, s: Ring)
    decreases |events|
  {
    if events == [] then r == s
    else Enabled(r, events[0]) && Leads(Next(r, events[0]), events[1..], s)
  }

  lemma {:induction false} InvAlways(r: Ring, events: seq<Event>, s: Ring)
    requires Inv(r) && Leads(r, events, s)
    ensures Inv(s)
    decreases |events|
  {
    hide Inv;
    if events != [] {
      NextInv(r, events[0]);
      InvAlways(Next(r, events[0]), events[1..], s);
    }
  }

  ghost predicate Reachable(r: Ring) {
    exists bits: nat, garbage: seq<char>, events: seq<Event> ::
      bits <= 63 && |garbage| == Pow2(bits) && Leads(Init(bits, garbage), events, r)
  }

  lemma ReachableInv(r: Ring)
    requires Reachable(r)
    ensures Inv(r)
  {
    hide Inv, Init;
    var bits: nat, garbage: seq<char>, events: seq<Event> :|
      bits <= 63 && |garbage| == Pow2(bits) && Leads(Init(bits, garbage), events, r);
    InitInv(bits, garbage);
    InvAlways(Init(bits, garbage), events, r);
  }

  /** What was consumed is a prefix of what was produced, never more than the buffer behind, and what
      is in between sits in the buffer. */
  lemma ConsumedIsPrefix(r: Ring)
    requires Reachable(r)
    ensures r.consumer.stream <= r.producer.stream
    ensures |r.producer.stream| - |r.consumer.stream| <= r.Size() == |r.buffer|
    ensures forall i :: |r.consumer.stream| <= i < |r.producer.stream| ==>
      r.buffer[i % r.Size()] == r.producer.stream[i]
  {
    ReachableInv(r);
  }

  /** The 64-bit positions and masked indices stand for unbounded counters. */
  lemma PositionsRefineCounters(r: Ring, side: Side)
    requires Reachable(r)
    ensures r.At(side).position == |r.At(side).stream| % WORD
    ensures BitAnd(r.At(side).position, r.Size() - 1) == |r.At(side).stream| % r.Size()
    ensures Room(r, Consumer) == |r.producer.stream| - |r.consumer.stream|
    ensures Room(r, Producer) == r.Size() - (|r.producer.stream| - |r.consumer.stream|)
  {
    ReachableInv(r);
    RoomIs(r, side);
    RoomIs(r, Producer);
    RoomIs(r, Consumer);
  }

  /** Every region handed out is contiguous, inside the buffer and not empty. */
  lemma RegionInside(r: Ring, side: Side)
    requires Reachable(r) && r.At(side).flight.Some?
    ensures var f := r.At(side).flight.value;
      0 < f.len && f.begin + f.len <= |r.buffer| && f.begin == |r.At(side).stream| % r.Size()
  {
    ReachableInv(r);
  }

  predicate InRegion(f: Flight, k: nat) { f.begin <= k < f.begin + f.len }

  /** The region being filled holds no byte that is still to be consumed. */
  lemma FilledRegionIsFree(r: Ring, i: nat)
    requires Reachable(r) && r.producer.flight.Some?
    requires |r.consumer.stream| <= i < |r.producer.stream|
    ensures !InRegion(r.producer.flight.value, i % r.Size())
  {
    hide Pow2;
    ReachableInv(r);
    var f, p, size := r.producer.flight.value, |r.producer.stream|, r.Size();
    var j := i % size - f.begin;
    if 0 <= j < f.len {
      ModAdd(p, j, size);
      ModDistinct(i, p + j, size);
    }
  }

  lemma RegionPlaces(r: Ring)
    requires Reachable(r) && r.producer.flight.Some? && r.consumer.flight.Some?
    ensures r.producer.flight.value.len > 0 && r.consumer.flight.value.len > 0
    ensures var g, c := r.consumer.flight.value, |r.consumer.stream|;
      r.Size() > 0 && g.begin == c % r.Size() && g.begin + g.len <= r.Size() && c + g.len <= |r.producer.stream|
  {
    hide Pow2;
    ReachableInv(r);
  }

  lemma InTheRegion(f: Flight, k: nat)
    ensures InRegion(f, k) <==> f.begin <= k < f.begin + f.len
  {
  }

  /** The region being filled and the region being drained do not meet. */
  lemma RegionsApart(r: Ring)
    requires Reachable(r) && r.producer.flight.Some? && r.consumer.flight.Some?
    ensures var f, g := r.producer.flight.value, r.consumer.flight.value;
      f.begin + f.len <= g.begin || g.begin + g.len <= f.begin
  {
    hide *;
    RegionPlaces(r);
    var f, g, c := r.producer.flight.value, r.consumer.flight.value, |r.consumer.stream|;
    var k := if f.begin <= g.begin then g.begin else f.begin;
    if k < g.begin + g.len && k < f.begin + f.len {
      ModAdd(c, k - g.begin, r.Size());
      InTheRegion(f, k);
      FilledRegionIsFree(r, c + (k - g.begin));
    }
  }

  // ---- what one step does ----

  /** A transfer can go on for the whole of its region, always inside the array. */
  lemma TransferGoesOn(r: Ring, side: Side)
    requires Inv(r) && r.At(side).flight.Some?
    ensures var f := r.At(side).flight.value;
      && (CanMove(r, side) <==> |f.moved| < f.len && |f.moved| < INT_MAX)
      && f.begin + f.len <= |r.buffer|
  {
    hide Pow2;
  }

  /** How many bytes there are to fill or to drain, counted from all that was produced and consumed. */
  function Amount(r: Ring, side: Side): int {
    var filled := |r.producer.stream| - |r.consumer.stream|;
    if side.Producer? then r.Size() - filled else filled
  }

  /** The region for `op` starts at the side's position in the buffer and has all of `amount`, or as much
      of it as fits in front of the end of the buffer. */
  ghost predicate WholeRegion(r: Ring, side: Side, op: nat, amount: int, flight: Option<Flight>) {
    && flight.Some?
    && flight.value.op == op && flight.value.moved == []
    && flight.value.begin == |r.At(side).stream| % r.Size()
    && 0 < flight.value.len <= amount
    && flight.value.begin + flight.value.len <= |r.buffer|
    && (flight.value.len == amount || flight.value.begin + flight.value.len == |r.buffer|)
  }

  lemma CompleteDoes(r: Ring, side: Side, op: nat)
    requires Inv(r)
    ensures var s := Complete(r, side, op);
      && s.At(side.Other()) == r.At(side.Other()) && s.done == r.done && s.next == r.next
      && s.At(side).stream == r.At(side).stream
    ensures var s := Complete(r, side, op);
      if Amount(r, side) > 0 then
        && WholeRegion(r, side, op, Amount(r, side), s.At(side).flight)
        && s.At(side).completion == r.At(side).completion && s.signals == r.signals + multiset{op}
      else
        s.At(side).completion == Some(op) && s.At(side).flight == r.At(side).flight && s.signals == r.signals
  {
    hide BitAnd, Pow2, Room, FillInv, DrainInv, ParkedInv, NumberInv;
    RoomIs(r, side);
    InvHasData(r);
    if Room(r, side) > 0 { RegionHandedOut(r, side, op); }
  }

  /** A start on a stopped buffer is signalled. On any other it gets all there is, up to the end of the
      buffer, or is registered if there is nothing. */
  lemma StartDoes(r: Ring, side: Side)
    requires Inv(r)
    ensures var s, amount := Start(r, side), Amount(r, side);
      && s.At(side.Other()) == r.At(side.Other()) && s.done == r.done && s.next == r.next + 1
      && (if r.done then s.At(side) == r.At(side) && s.signals == r.signals + multiset{r.next}
          else if amount > 0 then
            && WholeRegion(r, side, r.next, amount, s.At(side).flight)
            && s.At(side).completion == r.At(side).completion && s.signals == r.signals + multiset{r.next}
          else
            && s.At(side).completion == Some(r.next) && s.At(side).flight == r.At(side).flight
            && s.signals == r.signals)
  {
    hide Inv, Complete, WholeRegion;
    var t := r.(next := r.next + 1);
    NextNumberInv(r);
    CompleteDoes(t, side, r.next);
    if !r.done && Amount(r, side) > 0 {
      SameRegion(r, t, side, r.next, Amount(r, side), Complete(t, side, r.next).At(side).flight);
    }
  }

  lemma NextNumberInv(r: Ring)
    requires Inv(r)
    ensures Inv(r.(next := r.next + 1))
  {
  }

  lemma SameRegion(r: Ring, t: Ring, side: Side, op: nat, amount: int, flight: Option<Flight>)
    requires WholeRegion(t, side, op, amount, flight)
    requires r.At(side).stream == t.At(side).stream && r.bits == t.bits && r.buffer == t.buffer
    ensures WholeRegion(r, side, op, amount, flight)
  {
  }

  /** The operation a side has registered, if any. */
  function Registered(e: End): multiset<nat> {
    if e.completion.Some? then multiset{e.completion.value} else multiset{}
  }

  lemma AmountAfter(r: Ring, side: Side, n: int)
    requires Inv(r) && Enabled(r, DoFinish(side, n)) && r.At(side.Other()).completion.Some?
    ensures Amount(Cleared(Advance(r, side, n), side.Other()), side.Other()) == if n <= 0 then 0 else n
  {
    hide Pow2;
  }

  lemma AdvanceDoes(r: Ring, side: Side, n: int)
    requires Inv(r) && Enabled(r, DoFinish(side, n))
    ensures var t := Advance(r, side, n);
      && t.At(side.Other()) == r.At(side.Other()) && t.next == r.next && t.buffer == r.buffer && t.bits == r.bits
      && t.At(side).flight.None? && t.At(side).completion.None?
      && t.done == (r.done || n <= 0)
      && t.At(side).stream == r.At(side).stream + if n <= 0 then [] else r.At(side).flight.value.moved
    ensures n > 0 ==> Advance(r, side, n).signals == r.signals
    ensures n <= 0 ==> Advance(r, side, n).signals == r.signals + Registered(r.At(side.Other()))
  {
    hide Pow2, DataInv, FillInv, DrainInv, NumberInv;
  }

  /** An end of file or an error stops the buffer, moves no position, and completes what the other side has
      registered. */
  lemma EndDoes(r: Ring, side: Side, n: int)
    requires Inv(r) && Enabled(r, DoFinish(side, n)) && n <= 0
    ensures var s := Finish(r, side, n);
      && s.done && s.next == r.next
      && s.At(side) == r.At(side).(flight := None) && s.At(side.Other()) == r.At(side.Other())
      && s.signals == r.signals + Registered(r.At(side.Other()))
  {
    var other := side.Other();
    var t := Cleared(Advance(r, side, n), other);
    AdvanceInv(r, side, n);
    AdvanceDoes(r, side, n);
    if r.At(other).completion.Some? {
      AmountAfter(r, side, n);
      hide Inv, Complete, Amount, WholeRegion;
      CompleteDoes(t, other, r.At(other).completion.value);
    }
  }

  /** Any positive report moves the position by all the bytes transferred, and hands what the other side
      has registered all of them, up to the end of the buffer. */
  lemma ReportDoes(r: Ring, side: Side, n: int)
    requires Inv(r) && Enabled(r, DoFinish(side, n)) && n > 0
    ensures var s, o := Finish(r, side, n), r.At(side.Other());
      && s.done == r.done && s.next == r.next && s.At(side).flight.None?
      && s.At(side).stream == r.At(side).stream + r.At(side).flight.value.moved
      && s.At(side.Other()).stream == o.stream
      && (if o.completion.Some? then
            && WholeRegion(r, side.Other(), o.completion.value, n, s.At(side.Other()).flight)
            && s.At(side.Other()).completion.None?
            && s.signals == r.signals + multiset{o.completion.value}
          else s.At(side.Other()) == o && s.signals == r.signals)
  {
    var other := side.Other();
    var t := Cleared(Advance(r, side, n), other);
    AdvanceInv(r, side, n);
    AdvanceDoes(r, side, n);
    if r.At(other).completion.Some? {
      var op := r.At(other).completion.value;
      AmountAfter(r, side, n);
      hide Inv, Complete, Amount, WholeRegion;
      CompleteDoes(t, other, op);
      SameRegion(r, t, other, op, n, Complete(t, other, op).At(other).flight);
    }
  }
}
