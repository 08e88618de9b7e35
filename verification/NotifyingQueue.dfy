/** The mutex-protected queue with one waiting consumer. Each critical section is one step; what a
    thread does between two of them is where other threads cut in. */
module NotifyingQueue {
  import opened Wrappers

  // ---- the critical sections ----

  /** What the mutex protects. */
  datatype Protected<T> = Protected(queue: seq<T>, waiter: Option<nat>)

  /** In `push`: append, and take the waiting state out. */
  function PushSection<T>(p: Protected<T>, value: T): (Protected<T>, Option<nat>) {
    (Protected(p.queue + [value], None), p.waiter)
  }

  /** In `notify`: take the first element, or register. */
  function NotifySection<T>(p: Protected<T>, op: nat): (Protected<T>, Option<T>) {
    if p.queue != [] then (p.(queue := p.queue[1..]), Some(p.queue[0]))
    else (p.(waiter := Some(op)), None)
  }

  /** The queue object; `state` pointers are the numbers of the operations they point to. */
  class Queue<T> {
    var queue: seq<T>
    var waiter: Option<nat>

    function View(): Protected<T>
      reads this
    {
      Protected(queue, waiter)
    }

    constructor ()
      ensures View() == Protected([], None)
    {
      queue, waiter := [], None;
    }

    method Push(value: T) returns (state: Option<nat>)
      modifies this
      ensures (View(), state) == PushSection(old(View()), value)
    {
      state := None;
      queue := queue + [value];
      state, waiter := waiter, state;
    }

    method Notify(op: nat) returns (item: Option<T>)
      modifies this
      ensures (View(), item) == NotifySection(old(View()), op)
    {
      item := None;
      if queue != [] {
        item := Some(queue[0]);
        queue := queue[1..];
      } else {
        waiter := Some(op);
      }
    }
  }

  // ---- the threads ----

  /** Where a thread is: about to enter `notify` of an operation, or past its critical section and
      about to look at `d_next`; `parked` tells that it registered the operation there. */
  datatype Place = Idle | ToNotify(op: nat) | Checking(op: nat, parked: bool)

  /** `next` holds the `d_next` of every operation that got one; `delivered` are the `set_value` calls
      in order; `stale` counts the calls made by a thread that had registered the operation itself. */
  datatype System<T> = System(shared: Protected<T>, next: map<nat, T>, places: seq<Place>, pushed: seq<T>,
                              started: nat, delivered: seq<(nat, T)>, stale: nat)
  {
    /** The number of elements taken from the queue. */
    ghost function Taken(): int { |pushed| - |shared.queue| }
  }

  datatype Event<T> = DoPush(t: nat, value: T) | DoStart(t: nat) | DoNotify(t: nat) | DoCheck(t: nat)

  predicate Delivered<T>(s: System<T>, op: nat) { exists i :: 0 <= i < |s.delivered| && s.delivered[i].0 == op }

  /** The one consumer starts its next operation when the previous one was completed. */
  predicate Enabled<T>(s: System<T>, e: Event<T>) {
    && e.t < |s.places|
    && match e
       case DoPush(t, _) => s.places[t].Idle?
       case DoStart(t) => s.places[t].Idle? && (s.started == 0 || Delivered(s, s.started - 1))
       case DoNotify(t) => s.places[t].ToNotify?
       case DoCheck(t) => s.places[t].Checking?
  }

  function Next<T>(s: System<T>, e: Event<T>): System<T>
    requires Enabled(s, e)
  {
    match e
    case DoPush(t, value) =>
      var (shared, state) := PushSection(s.shared, value);
      s.(shared := shared, pushed := s.pushed + [value],
         places := if state.Some? then s.places[t := ToNotify(state.value)] else s.places)
    case DoStart(t) =>
      s.(places := s.places[t := ToNotify(s.started)], started := s.started + 1)
    case DoNotify(t) =>
      var op := s.places[t].op;
      var (shared, item) := NotifySection(s.shared, op);
      s.(shared := shared, next := if item.Some? then s.next[op := item.value] else s.next,
         places := s.places[t := Checking(op, item.None?)])
    case DoCheck(t) =>
      var op, parked := s.places[t].op, s.places[t].parked;
      var back := s.(places := s.places[t := Idle]);
      if op in s.next then
        back.(delivered := s.delivered + [(op, s.next[op])], stale := s.stale + if parked then 1 else 0)
      else back
  }

  function Init<T>(threads: nat): System<T> {
    System(Protected([], None), map[], seq(threads, _ => Idle), [], 0, [], 0)
  }

  // ---- what every step keeps ----

  /** Elements are taken in push order, the k-th by the k-th operation. */
  ghost predicate QueueInv<T>(s: System<T>) {
    var taken := s.Taken();
    && 0 <= taken <= s.started <= taken + 1
    && s.shared.queue == s.pushed[taken..]
    && (forall op: nat :: op in s.next <==> op < taken)
    && (forall op: nat :: op in s.next ==> s.next[op] == s.pushed[op])
  }

  /** The operation that has no element yet is in exactly one place: registered, or held by one
      thread that will enter its `notify`. A registered one means an empty queue. */
  ghost predicate PlaceInv<T>(s: System<T>) {
    var taken := s.Taken();
    && (s.shared.waiter.Some? ==> s.shared.queue == [] && s.shared.waiter.value == taken && s.started == taken + 1)
    && (forall t :: 0 <= t < |s.places| && s.places[t].ToNotify? ==>
      s.places[t].op == taken && s.started == taken + 1 && s.shared.waiter.None?)
    && (forall t, u :: 0 <= t < u < |s.places| && s.places[t].ToNotify? ==> !s.places[u].ToNotify?)
    && (s.started == taken + 1 && s.shared.waiter.None? ==>
      exists t :: 0 <= t < |s.places| && s.places[t].ToNotify?)
  }

  function Fresh(places: seq<Place>): nat {
    if places == [] then 0
    else Fresh(places[..|places| - 1]) + if places[|places| - 1].Checking? && !places[|places| - 1].parked then 1 else 0
  }

  /** Every element taken is delivered once or about to be, plus the stale deliveries. */
  ghost predicate CountInv<T>(s: System<T>) {
    && |s.delivered| + Fresh(s.places) == s.Taken() + s.stale
    && (forall t :: 0 <= t < |s.places| && s.places[t].Checking? ==>
      s.places[t].op < s.started && (!s.places[t].parked ==> s.places[t].op < s.Taken()))
    && (forall i :: 0 <= i < |s.delivered| ==>
      s.delivered[i].0 < s.Taken() && s.delivered[i].1 == s.pushed[s.delivered[i].0])
  }

  /** Without stale deliveries the order is the push order. */
  ghost predicate OrderInv<T>(s: System<T>) {
    s.stale == 0 ==>
      && (forall i :: 0 <= i < |s.delivered| ==> s.delivered[i].0 == i)
      && |s.delivered| <= s.Taken() <= |s.delivered| + 1
      && (s.started == s.Taken() + 1 ==> |s.delivered| == s.Taken())
      && (forall t :: 0 <= t < |s.places| && s.places[t].Checking? && !s.places[t].parked ==>
        s.places[t].op == |s.delivered|)
  }

  ghost predicate Inv<T>(s: System<T>) {
    QueueInv(s) && PlaceInv(s) && CountInv(s) && OrderInv(s)
  }

  lemma {:induction false} FreshUpdate(places: seq<Place>, t: nat, p: Place)
    requires t < |places|
    ensures Fresh(places[t := p]) == Fresh(places)
      - (if places[t].Checking? && !places[t].parked then 1 else 0) + (if p.Checking? && !p.parked then 1 else 0)
  {
    var n := |places| - 1;
    if t == n {
      assert places[t := p][..n] == places[..n];
    } else {
      assert places[t := p][..n] == places[..n][t := p];
      FreshUpdate(places[..n], t, p);
    }
  }

  lemma {:induction false} FreshIdle(threads: nat)
    ensures Fresh(seq(threads, _ => Idle)) == 0
  {
    if threads > 0 {
      assert seq(threads, _ => Idle)[..threads - 1] == seq(threads - 1, _ => Idle);
      FreshIdle(threads - 1);
    }
  }

  lemma InitInv<T>(threads: nat)
    ensures Inv(Init<T>(threads))
  {
    FreshIdle(threads);
  }

  lemma {:induction false} NoneFresh(places: seq<Place>, t: nat)
    requires Fresh(places) == 0 && t < |places|
    ensures !(places[t].Checking? && !places[t].parked)
  {
    var n := |places| - 1;
    if t < n {
      NoneFresh(places[..n], t);
    }
  }

  lemma PushInv<T>(s: System<T>, t: nat, value: T)
    requires Inv(s) && Enabled(s, DoPush(t, value))
    ensures Inv(Next(s, DoPush(t, value)))
  {
    var n := Next(s, DoPush(t, value));
    FreshUpdate(s.places, t, n.places[t]);
    assert s.places[t := s.places[t]] == s.places;
  }

  lemma StartInv<T>(s: System<T>, t: nat)
    requires Inv(s) && Enabled(s, DoStart(t))
    ensures Inv(Next(s, DoStart(t)))
  {
    var n := Next(s, DoStart(t));
    FreshUpdate(s.places, t, n.places[t]);
  }

  lemma NotifyInv<T>(s: System<T>, t: nat)
    requires Inv(s) && Enabled(s, DoNotify(t))
    ensures Inv(Next(s, DoNotify(t)))
  {
    var n := Next(s, DoNotify(t));
    FreshUpdate(s.places, t, n.places[t]);
    assert OrderInv(n) by {
      if s.stale == 0 && n.places[t].parked == false {
        NoneFreshYet(s);
      }
    }
  }

  /** While an operation waits for its element, nothing else is about to be delivered. */
  lemma NoneFreshYet<T>(s: System<T>)
    requires Inv(s) && s.stale == 0 && s.started == s.Taken() + 1
    ensures forall t :: 0 <= t < |s.places| && s.places[t].Checking? ==> s.places[t].parked
  {
    forall t | 0 <= t < |s.places| && s.places[t].Checking? ensures s.places[t].parked {
      NoneFresh(s.places, t);
    }
  }

  lemma CheckPlaces<T>(s: System<T>, t: nat)
    requires Inv(s) && Enabled(s, DoCheck(t))
    ensures PlaceInv(Next(s, DoCheck(t)))
  {
    var n := Next(s, DoCheck(t));
    if s.started == s.Taken() + 1 && s.shared.waiter.None? {
      var u :| 0 <= u < |s.places| && s.places[u].ToNotify?;
      assert n.places[u].ToNotify?;
    }
  }

  lemma CheckInv<T>(s: System<T>, t: nat)
    requires Inv(s) && Enabled(s, DoCheck(t))
    ensures Inv(Next(s, DoCheck(t)))
  {
    var n := Next(s, DoCheck(t));
    FreshUpdate(s.places, t, n.places[t]);
    CheckPlaces(s, t);
    if n.stale == 0 && !s.places[t].parked {
      forall u | 0 <= u < |n.places| && n.places[u].Checking? ensures n.places[u].parked {
        NoneFresh(n.places, u);
      }
    }
  }

  lemma NextInv<T>(s: System<T>, e: Event<T>)
    requires Inv(s) && Enabled(s, e)
    ensures Inv(Next(s, e))
  {
    hide Inv, Next;
    match e
    case DoPush(t, value) => PushInv(s, t, value);
    case DoStart(t) => StartInv(s, t);
    case DoNotify(t) => NotifyInv(s, t);
    case DoCheck(t) => CheckInv(s, t);
  }

  // ---- every run ----

  ghost predicate Leads<T>(s: System<T>, events: seq<Event<T>>, n: System<T>)
    decreases |events|
  {
    if events == [] then s == n
    else Enabled(s, events[0]) && Leads(Next(s, events[0]), events[1..], n)
  }

  lemma {:induction false} InvAlways<T>(s: System<T>, events: seq<Event<T>>, n: System<T>)
    requires Inv(s) && Leads(s, events, n)
    ensures Inv(n)
    decreases |events|
  {
    hide Inv;
    if events != [] {
      NextInv(s, events[0]);
      InvAlways(Next(s, events[0]), events[1..], n);
    }
  }

  /** Whatever the threads do: elements leave the queue in push order, each for one operation; the
      operation still without an element is registered, or held by exactly one thread about to serve
      it, never both; registered means that the queue is empty, so no wakeup is lost. */
  lemma QueueKept<T>(threads: nat, events: seq<Event<T>>, s: System<T>)
    requires Leads(Init(threads), events, s)
    ensures 0 <= s.Taken() <= |s.pushed| && s.pushed == s.pushed[..s.Taken()] + s.shared.queue
    ensures forall op: nat :: op < s.Taken() ==> op in s.next && s.next[op] == s.pushed[op]
    ensures s.shared.waiter.Some? ==> s.shared.queue == [] && s.shared.waiter.value == s.started - 1 == s.Taken()
    ensures s.started > s.Taken() ==>
      (s.shared.waiter.Some? <==> !exists t :: 0 <= t < |s.places| && s.places[t] == ToNotify(s.started - 1))
    ensures forall t, u :: 0 <= t < u < |s.places| && s.places[t].ToNotify? ==> !s.places[u].ToNotify?
  {
    InitInv<T>(threads);
    InvAlways(Init(threads), events, s);
    if s.started > s.Taken() && s.shared.waiter.None? {
      var t :| 0 <= t < |s.places| && s.places[t].ToNotify?;
      assert s.places[t] == ToNotify(s.started - 1);
    }
  }

  /** The values handed to the consumer, in order. */
  function Values<T>(delivered: seq<(nat, T)>): (v: seq<T>)
    ensures |v| == |delivered|
    ensures forall i :: 0 <= i < |v| ==> v[i] == delivered[i].1
  {
    seq(|delivered|, i requires 0 <= i < |delivered| => delivered[i].1)
  }

  ghost predicate AllIdle<T>(s: System<T>) {
    forall t :: 0 <= t < |s.places| ==> s.places[t].Idle?
  }

  lemma {:induction false} IdleIsNotFresh(places: seq<Place>)
    requires forall t :: 0 <= t < |places| ==> places[t].Idle?
    ensures Fresh(places) == 0
  {
    if places != [] { IdleIsNotFresh(places[..|places| - 1]); }
  }

  /** At rest the deliveries are the elements taken and the surplus ones, which make the difference. */
  lemma SurplusIsStale<T>(threads: nat, events: seq<Event<T>>, s: System<T>)
    requires Leads(Init(threads), events, s) && AllIdle(s)
    ensures 0 <= s.Taken() <= |s.pushed|
    ensures InOrder(s) <==> s.stale == 0
    ensures |s.delivered| == s.Taken() + s.stale
  {
    InitInv<T>(threads);
    InvAlways(Init(threads), events, s);
    IdleIsNotFresh(s.places);
    if s.stale == 0 {
      assert Values(s.delivered) == s.pushed[..s.Taken()];
    }
  }

  /** Every element taken was handed over exactly once and in push order. */
  ghost predicate InOrder<T>(s: System<T>) {
    0 <= s.Taken() <= |s.pushed| && Values(s.delivered) == s.pushed[..s.Taken()]
  }

  // ---- when notify calls overlap ----

  /** No thread enters `notify` while another is between the critical section and the look at `d_next`:
      `holder` is the one that is there. */
  predicate Serial<T>(holder: Option<nat>, events: seq<Event<T>>)
    decreases |events|
  {
    events != [] ==>
      match events[0]
      case DoNotify(t) => holder.None? && Serial(Some(t), events[1..])
      case DoCheck(_) => Serial(None, events[1..])
      case _ => Serial(holder, events[1..])
  }

  /** Only `holder` is past the critical section of a `notify`. */
  ghost predicate Holds<T>(s: System<T>, holder: Option<nat>) {
    forall t :: 0 <= t < |s.places| ==> (s.places[t].Checking? <==> holder == Some(t))
  }

  function HolderAfter<T>(holder: Option<nat>, e: Event<T>): Option<nat> {
    match e
    case DoNotify(t) => Some(t)
    case DoCheck(_) => None
    case _ => holder
  }

  lemma HoldsNext<T>(s: System<T>, holder: Option<nat>, e: Event<T>)
    requires Inv(s) && Holds(s, holder) && Enabled(s, e) && (e.DoNotify? ==> holder.None?)
    ensures Holds(Next(s, e), HolderAfter(holder, e))
  {
  }

  /** A thread that registered an operation will find there what another thread has put in. */
  ghost predicate Overtaken<T>(s: System<T>, t: nat) {
    t < |s.places| && s.places[t].Checking? && s.places[t].parked && s.places[t].op in s.next
  }

  ghost predicate Unspoiled<T>(s: System<T>) {
    s.stale == 0 && forall t :: 0 <= t < |s.places| ==> !Overtaken(s, t)
  }

  lemma SerialStep<T>(s: System<T>, holder: Option<nat>, e: Event<T>)
    requires Inv(s) && Unspoiled(s) && Holds(s, holder) && Enabled(s, e) && (e.DoNotify? ==> holder.None?)
    ensures Unspoiled(Next(s, e))
  {
    var n := Next(s, e);
    assert !Overtaken(s, e.t);
    forall t | 0 <= t < |n.places| ensures !Overtaken(n, t) {
      assert !Overtaken(s, t);
    }
  }

  lemma {:induction false} SerialUnspoiled<T>(s: System<T>, holder: Option<nat>, events: seq<Event<T>>, n: System<T>)
    requires Inv(s) && Unspoiled(s) && Holds(s, holder) && Serial(holder, events) && Leads(s, events, n)
    ensures Unspoiled(n)
    decreases |events|
  {
    hide Inv, Unspoiled, Holds, Next, Enabled;
    if events != [] {
      NextInv(s, events[0]);
      HoldsNext(s, holder, events[0]);
      SerialStep(s, holder, events[0]);
      SerialUnspoiled(Next(s, events[0]), HolderAfter(holder, events[0]), events[1..], n);
    }
  }

  /** A registered operation stays registered until an element is there for it. */
  ghost predicate ElementComing<T>(s: System<T>) {
    forall t :: 0 <= t < |s.places| && s.places[t].Checking? && s.places[t].parked && s.places[t].op == s.Taken() ==>
      s.shared.waiter == Some(s.places[t].op) || s.shared.queue != []
  }

  lemma ElementComingNext<T>(s: System<T>, e: Event<T>)
    requires Inv(s) && ElementComing(s) && Enabled(s, e)
    ensures ElementComing(Next(s, e))
  {
  }

  /** Something was delivered once too often, or will be. */
  ghost predicate Spoiled<T>(s: System<T>) {
    s.stale > 0 || exists t :: Overtaken(s, t)
  }

  lemma SpoiledNext<T>(s: System<T>, e: Event<T>)
    requires Inv(s) && Spoiled(s) && Enabled(s, e)
    ensures Spoiled(Next(s, e))
  {
    var n := Next(s, e);
    if n.stale == 0 {
      var t :| Overtaken(s, t);
      assert Overtaken(n, t);
    }
  }

  lemma {:induction false} SpoiledAlways<T>(s: System<T>, events: seq<Event<T>>, n: System<T>)
    requires Inv(s) && Spoiled(s) && Leads(s, events, n)
    ensures Spoiled(n)
    decreases |events|
  {
    hide Inv, Spoiled, Next, Enabled;
    if events != [] {
      NextInv(s, events[0]);
      SpoiledNext(s, events[0]);
      SpoiledAlways(Next(s, events[0]), events[1..], n);
    }
  }

  /** Entering `notify` before the thread `u` has had its look. */
  lemma CutsIn<T>(s: System<T>, t: nat, u: nat)
    requires Inv(s) && ElementComing(s) && Enabled(s, DoNotify(t))
    requires u < |s.places| && s.places[u].Checking?
    ensures Spoiled(Next(s, DoNotify(t)))
  {
    if s.stale == 0 {
      NoneFreshYet(s);
      assert Overtaken(Next(s, DoNotify(t)), u);
    }
  }

  lemma {:induction false} OverlapSpoils<T>(s: System<T>, holder: Option<nat>, events: seq<Event<T>>, n: System<T>)
    requires Inv(s) && ElementComing(s) && Holds(s, holder) && !Serial(holder, events) && Leads(s, events, n)
    requires holder.Some? ==> holder.value < |s.places|
    ensures Spoiled(n)
    decreases |events|
  {
    hide Inv, Spoiled, ElementComing, Next;
    var e := events[0];
    NextInv(s, e);
    if e.DoNotify? && holder.Some? {
      CutsIn(s, e.t, holder.value);
      SpoiledAlways(Next(s, e), events[1..], n);
    } else {
      ElementComingNext(s, e);
      HoldsNext(s, holder, e);
      PlacesStay(s, e);
      OverlapSpoils(Next(s, e), HolderAfter(holder, e), events[1..], n);
    }
  }

  lemma PlacesStay<T>(s: System<T>, e: Event<T>)
    requires Enabled(s, e)
    ensures |Next(s, e).places| == |s.places| && e.t < |s.places|
  {
  }

  /** When the threads have come to rest, every element taken was handed over exactly once and in
      push order exactly if no two calls of `notify` overlapped there. */
  lemma DeliveredOnceIff<T>(threads: nat, events: seq<Event<T>>, s: System<T>)
    requires Leads(Init(threads), events, s) && AllIdle(s)
    ensures InOrder(s) <==> Serial(None, events)
  {
    InitInv<T>(threads);
    SurplusIsStale(threads, events, s);
    hide Inv;
    if Serial(None, events) {
      SerialUnspoiled(Init(threads), None, events, s);
    } else {
      OverlapSpoils(Init(threads), None, events, s);
    }
  }

  /** The threads of a program may be trusted with that exactly if there are fewer than two. */
  lemma InOrderIffOneThread<T>(threads: nat, x: T)
    ensures (forall events: seq<Event<T>>, s: System<T> ::
      Leads(Init(threads), events, s) && AllIdle(s) ==> InOrder(s)) <==> threads < 2
  {
    hide Inv, InOrder, AllIdle;
    if threads < 2 {
      forall events: seq<Event<T>>, s: System<T> | Leads(Init(threads), events, s) && AllIdle(s) ensures InOrder(s) {
        OneThreadIsSerial(Init(threads), None, events, s);
        DeliveredOnceIff(threads, events, s);
      }
    } else {
      var s := CompletedTwice(threads, x);
      TwiceIsNotInOrder(s, x);
    }
  }

  lemma TwiceIsNotInOrder<T>(s: System<T>, x: T)
    requires s.delivered == [(0, x), (0, x)] && s.pushed == [x]
    ensures !InOrder(s)
  {
  }

  lemma {:induction false} OneThreadIsSerial<T>(s: System<T>, holder: Option<nat>, events: seq<Event<T>>, n: System<T>)
    requires |s.places| < 2 && Leads(s, events, n)
    requires holder.Some? ==> |s.places| == 1 && s.places[0].Checking?
    ensures Serial(holder, events)
    decreases |events|
  {
    if events != [] {
      OneThreadIsSerial(Next(s, events[0]), HolderAfter(holder, events[0]), events[1..], n);
    }
  }

  // ---- when the check comes at once ----

  /** No other thread acts while one that registered an operation has still to look at `d_next`. A
      single thread always keeps to that. */
  predicate Prompt<T>(s: System<T>, e: Event<T>) {
    forall t :: 0 <= t < |s.places| && s.places[t].Checking? && s.places[t].parked ==> t == e.t
  }

  ghost predicate PromptRun<T>(s: System<T>, events: seq<Event<T>>)
    decreases |events|
  {
    events != [] ==> Enabled(s, events[0]) && Prompt(s, events[0]) && PromptRun(Next(s, events[0]), events[1..])
  }

  /** A thread that registered an operation finds it still registered. */
  ghost predicate StillRegistered<T>(s: System<T>) {
    && s.stale == 0
    && forall t :: 0 <= t < |s.places| && s.places[t].Checking? && s.places[t].parked ==>
         s.shared.waiter == Some(s.places[t].op)
  }

  lemma PromptStep<T>(s: System<T>, e: Event<T>)
    requires Inv(s) && StillRegistered(s) && Enabled(s, e) && Prompt(s, e)
    ensures StillRegistered(Next(s, e))
  {
    var n := Next(s, e);
    if e.DoCheck? && s.places[e.t].parked {
      assert s.places[e.t].op !in s.next;
    }
  }

  lemma {:induction false} PromptNeverStale<T>(s: System<T>, events: seq<Event<T>>, n: System<T>)
    requires Inv(s) && StillRegistered(s) && PromptRun(s, events) && Leads(s, events, n)
    ensures Inv(n) && n.stale == 0
    decreases |events|
  {
    hide Inv, StillRegistered;
    if events != [] {
      NextInv(s, events[0]);
      PromptStep(s, events[0]);
      PromptNeverStale(Next(s, events[0]), events[1..], n);
    } else {
      NotStale(s);
    }
  }

  lemma NotStale<T>(s: System<T>)
    requires StillRegistered(s)
    ensures s.stale == 0
  {
  }

  /** With prompt checks the consumer gets a prefix of what was pushed, in order, at most one element
      behind what was taken. */
  lemma PromptDeliversInOrder<T>(threads: nat, events: seq<Event<T>>, s: System<T>)
    requires PromptRun(Init(threads), events) && Leads(Init(threads), events, s)
    ensures Values(s.delivered) <= s.pushed
    ensures |s.delivered| <= s.Taken() <= |s.delivered| + 1
    ensures AllIdle(s) ==> |s.delivered| == s.Taken()
  {
    InitInv<T>(threads);
    PromptNeverStale(Init(threads), events, s);
    if AllIdle(s) { IdleIsNotFresh(s.places); }
  }

  lemma {:induction false} OneThreadIsPrompt<T>(s: System<T>, events: seq<Event<T>>, n: System<T>)
    requires |s.places| == 1 && Leads(s, events, n)
    ensures PromptRun(s, events)
    decreases |events|
  {
    if events != [] {
      OneThreadIsPrompt(Next(s, events[0]), events[1..], n);
    }
  }

  lemma LeadsOn<T>(s: System<T>, e: Event<T>, rest: seq<Event<T>>, n: System<T>)
    requires Enabled(s, e) && Leads(Next(s, e), rest, n)
    ensures Leads(s, [e] + rest, n)
  {
    assert ([e] + rest)[1..] == rest;
  }

  /** Two threads have left the critical sections of one operation that by now has its element. */
  lemma BothComplete<T>(s: System<T>, x: T) returns (n: System<T>)
    requires |s.places| >= 2 && s.places[0] == Checking(0, true) && s.places[1] == Checking(0, false)
    requires s.next == map[0 := x] && s.delivered == []
    ensures Leads(s, [DoCheck(0), DoCheck(1)], n)
    ensures n.delivered == [(0, x), (0, x)] && n.pushed == s.pushed && n.places == s.places[0 := Idle][1 := Idle]
  {
    var s1 := Next(s, DoCheck(0));
    assert s1.places == s.places[0 := Idle] && s1.delivered == [(0, x)];
    n := Next(s1, DoCheck(1));
    assert n.delivered == [(0, x), (0, x)];
    var last: seq<Event<T>> := [DoCheck(1)];
    LeadsOn(s1, DoCheck(1), [], n);
    assert last + [] == last && [DoCheck(0)] + last == [DoCheck(0), DoCheck(1)];
    LeadsOn(s, DoCheck(0), last, n);
  }

  /** Up to there: one thread registers the operation and leaves its critical section, the other
      pushes, takes the operation out and serves it. */
  lemma ServedByOther<T>(threads: nat, x: T) returns (s: System<T>)
    requires threads >= 2
    ensures forall rest, n :: Leads(s, rest, n) ==>
      Leads(Init(threads), [DoStart(0), DoNotify(0), DoPush(1, x), DoNotify(1)] + rest, n)
    ensures s.places == Init<T>(threads).places[0 := Checking(0, true)][1 := Checking(0, false)]
    ensures s.next == map[0 := x] && s.delivered == [] && s.pushed == [x]
  {
    var s0 := Init<T>(threads);
    var s1 := Next(s0, DoStart(0));
    var s2 := Next(s1, DoNotify(0));
    assert s2.places == s0.places[0 := Checking(0, true)];
    var s3 := Next(s2, DoPush(1, x));
    assert s3.places == s2.places[1 := ToNotify(0)] && s3.shared == Protected([x], None);
    s := Next(s3, DoNotify(1));
    assert s.places == s2.places[1 := Checking(0, false)];
    forall rest, n | Leads(s, rest, n)
      ensures Leads(s0, [DoStart(0), DoNotify(0), DoPush(1, x), DoNotify(1)] + rest, n)
    {
      hide *;
      LeadsOn(s3, DoNotify(1), rest, n);
      LeadsOn(s2, DoPush(1, x), [DoNotify(1)] + rest, n);
      LeadsOn(s1, DoNotify(0), [DoPush(1, x)] + ([DoNotify(1)] + rest), n);
      LeadsOn(s0, DoStart(0), [DoNotify(0)] + ([DoPush(1, x)] + ([DoNotify(1)] + rest)), n);
      assert [DoStart(0)] + ([DoNotify(0)] + ([DoPush(1, x)] + ([DoNotify(1)] + rest)))
          == [DoStart(0), DoNotify(0), DoPush(1, x), DoNotify(1)] + rest;
    }
  }

  /** Then both find an element, and both complete the operation. */
  lemma CompletedTwice<T>(threads: nat, x: T) returns (s: System<T>)
    requires threads >= 2
    ensures Leads(Init(threads), [DoStart(0), DoNotify(0), DoPush(1, x), DoNotify(1)] + [DoCheck(0), DoCheck(1)], s)
    ensures AllIdle(s) && s.delivered == [(0, x), (0, x)] && s.pushed == [x]
  {
    hide Leads;
    var half := ServedByOther(threads, x);
    s := BothComplete(half, x);
  }
}
