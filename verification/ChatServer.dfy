/** The chat server's fan-out: a countdown over all inner operations, and a use count per client. */
module ChatServer {
  import opened Wrappers

  // ---- when_each ----

  datatype Outcome = Value | Error(e: int) | Stopped

  /** The receiver side of `when_each` for `n` inner operations. `signals` are the completions the
      outer receiver has got. */
  class WhenEach {
    var count: nat
    var result: Option<Outcome>
    var signals: seq<Outcome>

    constructor (n: nat)
      ensures count == n && result == None && signals == []
    {
      count, result, signals := n, None, [];
    }

    method SetValue()
      requires count > 0
      modifies this
      ensures (count, result, signals) == Arrive(old((count, result, signals)), Value)
    {
      count := count - 1;
      if count == 0 {
        if result.Some? {
          signals := signals + [result.value];
        } else {
          signals := signals + [Value];
        }
      }
    }

    method SetError(e: int)
      requires count > 0
      modifies this
      ensures (count, result, signals) == Arrive(old((count, result, signals)), Error(e))
    {
      if result.None? { result := Some(Error(e)); }
      count := count - 1;
      if count == 0 { signals := signals + [result.value]; }
    }

    method SetStopped()
      requires count > 0
      modifies this
      ensures (count, result, signals) == Arrive(old((count, result, signals)), Stopped)
    {
      if result.None? { result := Some(Stopped); }
      count := count - 1;
      if count == 0 { signals := signals + [result.value]; }
    }
  }

  type Countdown = (nat, Option<Outcome>, seq<Outcome>)

  /** One inner operation completes. */
  function Arrive(s: Countdown, o: Outcome): Countdown
    requires s.0 > 0
  {
    var result := if s.1.None? && !o.Value? then Some(o) else s.1;
    var signal := if result.Some? then result.value else Value;
    (s.0 - 1, result, if s.0 == 1 then s.2 + [signal] else s.2)
  }

  /** Completions one after the other, in the order they come. */
  function ArriveAll(s: Countdown, os: seq<Outcome>): Countdown
    requires |os| <= s.0
    decreases |os|
  {
    if os == [] then s else ArriveAll(Arrive(s, os[0]), os[1..])
  }

  /** The first completion that is not a value, or a value if there is none. */
  function FirstTrouble(os: seq<Outcome>): Outcome {
    if os == [] then Value else if !os[0].Value? then os[0] else FirstTrouble(os[1..])
  }

  lemma {:induction false} CountdownInTheMiddle(s: Countdown, os: seq<Outcome>)
    requires 0 < |os| <= s.0
    ensures var r := ArriveAll(s, os);
      && r.0 == s.0 - |os|
      && r.2 == if |os| < s.0 then s.2 else s.2 + [if s.1.Some? then s.1.value else FirstTrouble(os)]
    decreases |os|
  {
    var t := Arrive(s, os[0]);
    if |os| == 1 {
      assert os[1..] == [] && ArriveAll(s, os) == t;
      assert FirstTrouble(os) == if os[0].Value? then FirstTrouble(os[1..]) else os[0];
    } else {
      CountdownInTheMiddle(t, os[1..]);
    }
  }

  /** Of `n` operations completing in any order and with any outcomes: no signal before the last,
      exactly one with it, the first outcome that is no value if there is one and a value otherwise. */
  lemma SignalsOnceAtTheEnd(n: nat, os: seq<Outcome>)
    requires |os| <= n
    ensures ArriveAll((n, None, []), os).2 == if 0 < |os| == n then [FirstTrouble(os)] else []
  {
    if os != [] {
      CountdownInTheMiddle((n, None, []), os);
    }
  }

  lemma {:induction false} ValueIffAllValues(os: seq<Outcome>)
    ensures FirstTrouble(os) == Value <==> forall i :: 0 <= i < |os| ==> os[i].Value?
  {
    if os != [] && os[0].Value? {
      ValueIffAllValues(os[1..]);
      assert forall i :: 0 < i < |os| ==> os[i] == os[1..][i - 1];
    }
  }

  /** It is the first of them that is no value. */
  lemma {:induction false} FirstTroubleIsFirst(os: seq<Outcome>, k: nat)
    requires k < |os| && !os[k].Value? && forall i :: 0 <= i < k ==> os[i].Value?
    ensures FirstTrouble(os) == os[k]
  {
    if k > 0 { FirstTroubleIsFirst(os[1..], k - 1); }
  }

  /** When all operations are over, the receiver has been signalled exactly if there were any: an
      empty range is never completed. */
  lemma CompletedIffAny(os: seq<Outcome>)
    ensures |ArriveAll((|os|, None, []), os).2| == 1 <==> os != []
  {
    SignalsOnceAtTheEnd(|os|, os);
  }

  // ---- use counts ----

  /** An operation on a client: its reader, or one write of a message to it. */
  datatype Use = Use(client: nat, state: UseState)

  datatype UseState = Outstanding | Ended | Failed

  /** `users` maps each client in the list to its use count; `uses` are all operations ever started. */
  datatype Clients = Clients(users: map<nat, nat>, uses: seq<Use>, added: nat)

  datatype Event = Add | Distribute | End(use: nat) | Fail(use: nat)

  /** `remove_client`. */
  function Release(users: map<nat, nat>, client: nat): map<nat, nat>
    requires client in users && users[client] > 0
  {
    if users[client] == 1 then users - {client} else users[client := users[client] - 1]
  }

  /** The clients in the list, oldest first. */
  function Listed(users: map<nat, nat>, added: nat): (l: seq<nat>)
    ensures forall c :: c in l <==> c < added && c in users
    ensures forall i, j :: 0 <= i < j < |l| ==> l[i] != l[j]
  {
    if added == 0 then []
    else Listed(users, added - 1) + if added - 1 in users then [added - 1] else []
  }

  /** One more use of each client in `l`. */
  function Plus(users: map<nat, nat>, l: seq<nat>): map<nat, nat> {
    map c | c in users :: users[c] + if c in l then 1 else 0
  }

  function Writes(l: seq<nat>): (w: seq<Use>)
    ensures |w| == |l| && forall i :: 0 <= i < |l| ==> w[i] == Use(l[i], Outstanding)
  {
    seq(|l|, i requires 0 <= i < |l| => Use(l[i], Outstanding))
  }

  /** `distribute`: one more use of every client in the list, and one write to each. */
  function Written(s: Clients): Clients {
    var l := Listed(s.users, s.added);
    s.(users := Plus(s.users, l), uses := s.uses + Writes(l))
  }

  predicate Enabled(s: Clients, e: Event) {
    match e
    case Add => true
    case Distribute => true
    case End(u) => u < |s.uses| && s.uses[u].state.Outstanding?
    case Fail(u) => u < |s.uses| && s.uses[u].state.Outstanding?
  }

  function Ending(s: Clients, u: nat, state: UseState): Clients
    requires u < |s.uses|
  {
    s.(uses := s.uses[u := s.uses[u].(state := state)])
  }

  /** `None` stands for touching a client that was erased. Only an operation that ends with a value
      releases its use; one that fails or is stopped does not come to `remove_client`. */
  function Next(s: Clients, e: Event): Option<Clients>
    requires Enabled(s, e)
  {
    match e
    case Add =>
      Some(s.(users := s.users[s.added := 1], uses := s.uses + [Use(s.added, Outstanding)], added := s.added + 1))
    case Distribute => Some(Written(s))
    case End(u) =>
      var c := s.uses[u].client;
      if c in s.users && s.users[c] > 0 then Some(Ending(s, u, Ended).(users := Release(s.users, c))) else None
    case Fail(u) => Some(Ending(s, u, Failed))
  }

  /** The operations of client `c` that have not ended with a value. */
  function Unreleased(uses: seq<Use>, c: nat): nat {
    if uses == [] then 0
    else
      var last := uses[|uses| - 1];
      Unreleased(uses[..|uses| - 1], c) + if last.client == c && !last.state.Ended? then 1 else 0
  }

  /** A client is in the list exactly while it has unreleased uses, and its count is their number. */
  ghost predicate Inv(s: Clients) {
    && (forall c: nat :: c in s.users ==> c < s.added && s.users[c] > 0)
    && (forall i :: 0 <= i < |s.uses| ==> s.uses[i].client < s.added)
    && (forall c: nat {:trigger Unreleased(s.uses, c)} ::
      Unreleased(s.uses, c) == if c in s.users then s.users[c] else 0)
  }

  lemma {:induction false} UnreleasedSplit(a: seq<Use>, b: seq<Use>, c: nat)
    ensures Unreleased(a + b, c) == Unreleased(a, c) + Unreleased(b, c)
  {
    if b == [] {
      assert a + b == a;
    } else {
      assert (a + b)[..|a + b| - 1] == a + b[..|b| - 1];
      UnreleasedSplit(a, b[..|b| - 1], c);
    }
  }

  lemma UnreleasedOne(u: Use, c: nat)
    ensures Unreleased([u], c) == if u.client == c && !u.state.Ended? then 1 else 0
  {
    assert [u][..0] == [];
  }

  lemma UnreleasedUpdate(uses: seq<Use>, u: nat, state: UseState, c: nat)
    requires u < |uses| && uses[u].state.Outstanding?
    ensures var v := uses[u].(state := state);
      Unreleased(uses[u := v], c) + (if uses[u].client == c && state.Ended? then 1 else 0) == Unreleased(uses, c)
  {
    var v, a, b := uses[u].(state := state), uses[..u], uses[u + 1..];
    assert uses == a + [uses[u]] + b && uses[u := v] == a + [v] + b;
    UnreleasedSplit(a + [uses[u]], b, c);
    UnreleasedSplit(a + [v], b, c);
    UnreleasedSplit(a, [uses[u]], c);
    UnreleasedSplit(a, [v], c);
    UnreleasedOne(uses[u], c);
    UnreleasedOne(v, c);
  }

  lemma {:induction false} UnreleasedOneEach(l: seq<nat>, uses: seq<Use>, c: nat)
    requires |uses| == |l| && forall i :: 0 <= i < |l| ==> uses[i] == Use(l[i], Outstanding)
    requires forall i, j :: 0 <= i < j < |l| ==> l[i] != l[j]
    ensures Unreleased(uses, c) == if c in l then 1 else 0
  {
    if l != [] {
      var n := |l| - 1;
      UnreleasedOneEach(l[..n], uses[..n], c);
      assert l == l[..n] + [l[n]];
    }
  }

  lemma {:induction false} UnreleasedMember(uses: seq<Use>, u: nat)
    requires u < |uses| && !uses[u].state.Ended?
    ensures Unreleased(uses, uses[u].client) > 0
  {
    if u < |uses| - 1 { UnreleasedMember(uses[..|uses| - 1], u); }
  }

  lemma AddKeeps(s: Clients)
    requires Inv(s)
    ensures Inv(Next(s, Add).value)
  {
    hide Unreleased;
    var n := Next(s, Add).value;
    forall c: nat ensures Unreleased(n.uses, c) == if c in n.users then n.users[c] else 0 {
      UnreleasedSplit(s.uses, [Use(s.added, Outstanding)], c);
      UnreleasedOne(Use(s.added, Outstanding), c);
    }
  }

  lemma DistributeKeeps(s: Clients)
    requires Inv(s)
    ensures Inv(Written(s))
  {
    hide Unreleased, Listed;
    var n, l := Written(s), Listed(s.users, s.added);
    var more := Writes(l);
    assert forall i :: 0 <= i < |l| ==> l[i] in l;
    forall c: nat ensures Unreleased(n.uses, c) == if c in n.users then n.users[c] else 0 {
      UnreleasedSplit(s.uses, more, c);
      UnreleasedOneEach(l, more, c);
    }
  }

  lemma EndKeeps(s: Clients, u: nat, ok: bool)
    requires Inv(s) && u < |s.uses| && s.uses[u].state.Outstanding?
    ensures var e := if ok then End(u) else Fail(u); Next(s, e).Some? && Inv(Next(s, e).value)
  {
    hide Unreleased;
    var e := if ok then End(u) else Fail(u);
    UnreleasedMember(s.uses, u);
    var n := Next(s, e).value;
    forall c: nat ensures Unreleased(n.uses, c) == if c in n.users then n.users[c] else 0 {
      UnreleasedUpdate(s.uses, u, if ok then Ended else Failed, c);
    }
  }

  // ---- what one step does ----

  /** A new client comes into the list with one use, its reader; nobody else is touched. */
  lemma AddDoes(s: Clients)
    requires Inv(s)
    ensures var n, k := Next(s, Add).value, |s.uses|;
      && n.users.Keys == s.users.Keys + {s.added} && s.added !in s.users && n.users[s.added] == 1
      && (forall c :: c in s.users ==> n.users[c] == s.users[c])
      && n.uses[..k] == s.uses && forall c: nat :: StartedFor(n.uses[k..], c) == if c == s.added then 1 else 0
  {
    hide Unreleased;
    var n, k := Next(s, Add).value, |s.uses|;
    forall c: nat ensures StartedFor(n.uses[k..], c) == if c == s.added then 1 else 0 {
      assert n.uses[k..] == [Use(s.added, Outstanding)];
      assert n.uses[k..][..0] == [];
    }
  }

  /** How many operations on `c` there are in `uses` that are still to end. */
  function StartedFor(uses: seq<Use>, c: nat): nat {
    if uses == [] then 0
    else StartedFor(uses[..|uses| - 1], c) + if uses[|uses| - 1] == Use(c, Outstanding) then 1 else 0
  }

  lemma {:induction false} StartedOneEach(l: seq<nat>, uses: seq<Use>, c: nat)
    requires |uses| == |l| && forall i :: 0 <= i < |l| ==> uses[i] == Use(l[i], Outstanding)
    requires forall i, j :: 0 <= i < j < |l| ==> l[i] != l[j]
    ensures StartedFor(uses, c) == if c in l then 1 else 0
  {
    if l != [] {
      var n := |l| - 1;
      StartedOneEach(l[..n], uses[..n], c);
      assert l == l[..n] + [l[n]];
    }
  }

  /** A message goes to every client in the list: each gets one more use, and for each exactly one write
      was started and has not ended. */
  lemma DistributeDoes(s: Clients)
    requires Inv(s)
    ensures var n, k := Next(s, Distribute).value, |s.uses|;
      && n.users.Keys == s.users.Keys && n.added == s.added
      && (forall c :: c in s.users ==> n.users[c] == s.users[c] + 1)
      && |n.uses| == k + |s.users| && n.uses[..k] == s.uses
      && forall c: nat :: StartedFor(n.uses[k..], c) == if c in s.users then 1 else 0
  {
    hide Unreleased, Listed, StartedFor;
    var n, k, l := Next(s, Distribute).value, |s.uses|, Listed(s.users, s.added);
    assert n.uses[k..] == Writes(l);
    ListedAll(s.users, l);
    forall c: nat ensures StartedFor(n.uses[k..], c) == if c in s.users then 1 else 0 {
      StartedOneEach(l, Writes(l), c);
      assert c in l <==> c < s.added && c in s.users;
    }
  }

  lemma {:induction false} ListedAll(users: map<nat, nat>, l: seq<nat>)
    requires forall c :: c in l <==> c in users
    requires forall i, j :: 0 <= i < j < |l| ==> l[i] != l[j]
    ensures |l| == |users|
  {
    if l == [] {
      assert users.Keys == {};
    } else {
      var n := |l| - 1;
      assert l == l[..n] + [l[n]];
      var less := users - {l[n]};
      forall c ensures c in l[..n] <==> c in less { }
      ListedAll(less, l[..n]);
      assert users.Keys == less.Keys + {l[n]};
    }
  }

  /** An operation that ends with a value gives its use back, and the last one takes the client out of the
      list; one that does not gives nothing back. Nobody else is touched. */
  lemma EndDoes(s: Clients, u: nat, ok: bool)
    requires Inv(s) && u < |s.uses| && s.uses[u].state.Outstanding?
    ensures var e, c := if ok then End(u) else Fail(u), s.uses[u].client;
      && c in s.users && Next(s, e).Some?
      && var n := Next(s, e).value;
        && n.users.Keys == (if ok && s.users[c] == 1 then s.users.Keys - {c} else s.users.Keys)
        && (forall d :: d in n.users ==> n.users[d] == s.users[d] - if ok && d == c then 1 else 0)
        && n.added == s.added && |n.uses| == |s.uses|
        && n.uses[u] == Use(c, if ok then Ended else Failed)
        && forall i :: 0 <= i < |s.uses| && i != u ==> n.uses[i] == s.uses[i]
  {
    hide Unreleased;
    UnreleasedMember(s.uses, u);
  }

  const Nobody: Clients := Clients(map[], [], 0)

  ghost predicate Leads(s: Clients, events: seq<Event>, n: Clients)
    decreases |events|
  {
    if events == [] then s == n
    else Enabled(s, events[0]) && Next(s, events[0]).Some? && Leads(Next(s, events[0]).value, events[1..], n)
  }

  lemma NextKeeps(s: Clients, e: Event)
    requires Inv(s) && Enabled(s, e)
    ensures Next(s, e).Some? && Inv(Next(s, e).value)
  {
    hide Inv;
    match e
    case Add => AddKeeps(s);
    case Distribute => DistributeKeeps(s);
    case End(u) => EndKeeps(s, u, true);
    case Fail(u) => EndKeeps(s, u, false);
  }

  lemma {:induction false} InvAlways(s: Clients, events: seq<Event>, n: Clients)
    requires Inv(s) && Leads(s, events, n)
    ensures Inv(n)
    decreases |events|
  {
    hide Inv;
    if events != [] {
      NextKeeps(s, events[0]);
      InvAlways(Next(s, events[0]).value, events[1..], n);
    }
  }

  /** In every run: no operation ever touches an erased client, a client with an outstanding reader or
      write is in the list, and a client is gone exactly when its reader and all writes to it ended
      with a value. One failed operation keeps it in the list for ever. */
  lemma ErasedIffAllEnded(events: seq<Event>, s: Clients)
    requires Leads(Nobody, events, s)
    ensures forall e :: Enabled(s, e) ==> Next(s, e).Some?
    ensures forall i :: 0 <= i < |s.uses| && s.uses[i].state.Outstanding? ==> s.uses[i].client in s.users
    ensures forall c: nat :: c < s.added ==>
      (c in s.users <==> exists i :: 0 <= i < |s.uses| && s.uses[i].client == c && !s.uses[i].state.Ended?)
  {
    assert Inv(Nobody) by {
      forall c: nat ensures Unreleased(Nobody.uses, c) == 0 {}
    }
    InvAlways(Nobody, events, s);
    forall e | Enabled(s, e) ensures Next(s, e).Some? { NextKeeps(s, e); }
    forall i | 0 <= i < |s.uses| && !s.uses[i].state.Ended? ensures s.uses[i].client in s.users {
      UnreleasedMember(s.uses, i);
    }
    forall c: nat | c < s.added && c in s.users
      ensures exists i :: 0 <= i < |s.uses| && s.uses[i].client == c && !s.uses[i].state.Ended?
    {
      if forall i :: 0 <= i < |s.uses| && s.uses[i].client == c ==> s.uses[i].state.Ended? {
        AllEnded(s.uses, c);
      }
    }
  }

  lemma {:induction false} AllEnded(uses: seq<Use>, c: nat)
    requires forall i :: 0 <= i < |uses| && uses[i].client == c ==> uses[i].state.Ended?
    ensures Unreleased(uses, c) == 0
  {
    if uses != [] { AllEnded(uses[..|uses| - 1], c); }
  }

  // ---- the object ----

  lemma OneMore(users: map<nat, nat>, l: seq<nat>, i: nat)
    requires i <= |l| && forall j, k :: 0 <= j < k < |l| ==> l[j] != l[k]
    requires forall c :: c in l ==> c in users
    ensures i == 0 ==> Plus(users, l[..i]) == users && Writes(l[..i]) == []
    ensures i < |l| ==> l[i] in Plus(users, l[..i])
    ensures i < |l| ==> Plus(users, l[..i + 1]) == Plus(users, l[..i])[l[i] := Plus(users, l[..i])[l[i]] + 1]
    ensures i < |l| ==> Writes(l[..i + 1]) == Writes(l[..i]) + [Use(l[i], Outstanding)]
  {
    if i < |l| {
      assert l[..i + 1] == l[..i] + [l[i]];
      assert l[i] in l && l[i] !in l[..i];
    }
  }

  /** The client list; what happens to it is proved against `Next`. */
  class ClientList {
    var users: map<nat, nat>
    var uses: seq<Use>
    var added: nat

    function Model(): Clients
      reads this
    {
      Clients(users, uses, added)
    }

    constructor ()
      ensures Model() == Nobody
    {
      users, uses, added := map[], [], 0;
    }

    method AddClient()
      modifies this
      ensures Some(Model()) == Next(old(Model()), Add)
    {
      users, uses, added := users[added := 1], uses + [Use(added, Outstanding)], added + 1;
    }

    /** Goes through the list once, taking a use of every client and starting a write to it. */
    method Distribute()
      modifies this
      ensures Model() == Written(old(Model()))
    {
      hide Plus, Writes;
      ghost var s := Model();
      var l := Listed(users, added);
      var i := 0;
      OneMore(users, l, 0);
      while i < |l|
        invariant i <= |l| && added == s.added
        invariant users == Plus(s.users, l[..i]) && uses == s.uses + Writes(l[..i])
      {
        OneMore(s.users, l, i);
        users := users[l[i] := users[l[i]] + 1];
        uses := uses + [Use(l[i], Outstanding)];
        i := i + 1;
      }
      assert l[..i] == l;
    }

    /** `remove_client` at the end of an operation. */
    method RemoveClient(u: nat)
      requires Inv(Model()) && Enabled(Model(), End(u))
      modifies this
      ensures Some(Model()) == Next(old(Model()), End(u)) && Inv(Model())
    {
      NextKeeps(Model(), End(u));
      var c := uses[u].client;
      uses := uses[u := uses[u].(state := Ended)];
      ghost var was := users;
      users := users[c := users[c] - 1];
      if users[c] == 0 {
        users := users - {c};
        assert users == was - {c};
      }
    }
  }
}
