/** The ring buffer object. Its methods change its fields as the code does and are proved against the
    steps of `RingProtocol`. */
module RingBuffer {
  import opened Wrappers
  import opened Powers
  import opened RingArithmetic
  import opened RingProtocol

  class RingBuffer {
    const bits: nat
    const mask: nat
    const buffer: array<char>
    var position: seq<nat>
    var completion: seq<Option<nat>>
    var done: bool

    // what the operations and their receivers see
    var flight: seq<Option<Flight>>
    var stream: seq<seq<char>>
    var signals: multiset<nat>
    var next: nat

    ghost predicate Valid()
      reads this
    {
      && bits <= 63 && buffer.Length == Pow2(bits) && mask == Pow2(bits) - 1
      && |position| == |completion| == |flight| == |stream| == 2
    }

    static function Index(side: Side): (i: nat)
      ensures i < 2
    {
      if side.Producer? then 0 else 1
    }

    ghost function Model(): Ring
      reads this, buffer
      requires Valid()
    {
      Ring(bits, buffer[..], done,
           End(position[0], completion[0], flight[0], stream[0]),
           End(position[1], completion[1], flight[1], stream[1]), signals, next)
    }

    constructor (bits: nat)
      requires bits <= 63
      ensures Valid() && fresh(buffer) && this.bits == bits && Model() == Init(bits, buffer[..])
    {
      this.bits := bits;
      mask := Pow2(bits) - 1;
      buffer := new char[Pow2(bits)];
      position, completion, done := [0, 0], [None, None], false;
      flight, stream, signals, next := [None, None], [[], []], multiset{}, 0;
    }

    method BufferSize(side: Side) returns (size: nat)
      requires Valid()
      ensures size == Room(Model(), side)
    {
      var filled := (position[0] - position[1]) % WORD;
      size := if side.Producer? then (buffer.Length - filled) % WORD else filled;
    }

    method Complete(side: Side, op: nat)
      requires Valid()
      modifies this
      ensures Valid() && Model() == RingProtocol.Complete(old(Model()), side, op)
    {
      var size := BufferSize(side);
      if 0 < size {
        var begin := BitAnd(position[Index(side)], mask);
        SetValue(side, op, begin, Min(buffer.Length - begin, size));
      } else {
        completion := completion[Index(side) := Some(op)];
      }
    }

    /** `set_value`: the receiver starts a transfer on the region it is given. */
    method SetValue(side: Side, op: nat, begin: nat, len: nat)
      requires Valid()
      modifies this
      ensures Valid() && var m := old(Model());
        Model() == m.With(side, m.At(side).(flight := Some(Flight(op, begin, len, [])))).Signal(op)
    {
      flight := flight[Index(side) := Some(Flight(op, begin, len, []))];
      signals := signals + multiset{op};
    }

    method SetStopped(op: nat)
      requires Valid()
      modifies this
      ensures Valid() && Model() == old(Model()).Signal(op)
    {
      signals := signals + multiset{op};
    }

    method Start(side: Side)
      requires Valid()
      modifies this
      ensures Valid() && Model() == RingProtocol.Start(old(Model()), side)
    {
      var op := next;
      next := next + 1;
      if done {
        SetStopped(op);
      } else {
        Complete(side, op);
      }
    }

    /** Signals every registered operation and leaves the registrations alone. */
    method Stop()
      requires Valid()
      modifies this
      ensures Valid() && Model() == RingProtocol.Stop(old(Model()))
    {
      done := true;
      if completion[0].Some? { SetStopped(completion[0].value); }
      if completion[1].Some? { SetStopped(completion[1].value); }
    }

    /** One byte of a transfer. */
    method Transfer(side: Side, c: char)
      requires Valid() && CanMove(Model(), side)
      modifies this, buffer
      ensures Valid() && Model() == RingProtocol.Move(old(Model()), side, c)
    {
      var f := flight[Index(side)].value;
      var k := f.begin + |f.moved|;
      if side.Producer? {
        buffer[k] := c;
        flight := flight[0 := Some(f.(moved := f.moved + [c]))];
      } else {
        flight := flight[1 := Some(f.(moved := f.moved + [buffer[k]]))];
      }
    }

    /** The reader's or writer's reaction to `n`, and the advance of the position. */
    method Report(side: Side, n: int)
      requires Valid() && Model().At(side).flight.Some?
      modifies this
      ensures Valid() && Model() == Advance(old(Model()), side, n)
    {
      var i := Index(side);
      var f := flight[i].value;
      flight := flight[i := None];
      if n <= 0 {
        Stop();
      } else {
        stream := stream[i := stream[i] + f.moved];
        position := position[i := (position[i] + n) % WORD];
      }
    }

    /** The end of a transfer: report, then wake the other side. */
    method Finish(side: Side, n: int)
      requires Valid() && Model().At(side).flight.Some?
      modifies this
      ensures Valid() && Model() == RingProtocol.Finish(old(Model()), side, n)
    {
      Report(side, n);
      var j := Index(side.Other());
      if completion[j].Some? {
        var op := completion[j].value;
        completion := completion[j := None];
        Complete(side.Other(), op);
      }
    }
  }
}
