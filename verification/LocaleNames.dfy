/** Composite locale names: six component names separated by semicolons. */
module LocaleNames {
  import opened Wrappers

  const SEPARATOR: char := ';'

  datatype Category = Ctype | Numeric | Time | Collate | Monetary | Messages {
    /** The place of the category's component in a composite name. */
    function Place(): (k: nat)
      ensures k < 6
    {
      match this
      case Ctype => 0
      case Numeric => 1
      case Time => 2
      case Collate => 3
      case Monetary => 4
      case Messages => 5
    }
  }

  predicate Plain(s: string) { SEPARATOR !in s }

  // ---- names as lists of components ----

  /** `strchr(s + from, separator)` as an index. */
  function Find(s: string, from: nat): (r: Option<nat>)
    requires from <= |s|
    ensures r.Some? ==> from <= r.value < |s| && s[r.value] == SEPARATOR && Plain(s[from..r.value])
    ensures r.None? ==> Plain(s[from..])
    decreases |s| - from
  {
    if from == |s| then None
    else if s[from] == SEPARATOR then Some(from)
    else
      var r := Find(s, from + 1);
      assert s[from..] == [s[from]] + s[from + 1..];
      assert r.Some? ==> s[from..r.value] == [s[from]] + s[from + 1..r.value];
      r
  }

  /** The pieces between separators. */
  function Split(s: string): (p: seq<string>)
    ensures |p| > 0 && forall i :: 0 <= i < |p| ==> Plain(p[i])
    decreases |s|
  {
    match Find(s, 0)
    case None => assert s[0..] == s; [s]
    case Some(k) => assert s[0..k] == s[..k]; [s[..k]] + Split(s[k + 1..])
  }

  function Join(names: seq<string>): string
    requires names != []
  {
    if |names| == 1 then names[0] else names[0] + [SEPARATOR] + Join(names[1..])
  }

  lemma {:induction false} JoinOfSplit(s: string)
    ensures Join(Split(s)) == s
    decreases |s|
  {
    match Find(s, 0)
    case None =>
    case Some(k) =>
      JoinOfSplit(s[k + 1..]);
      assert Split(s)[1..] == Split(s[k + 1..]);
      assert s == s[..k] + [SEPARATOR] + s[k + 1..];
  }

  lemma {:induction false} FindFirst(a: string, rest: string, from: nat)
    requires Plain(a) && from <= |a|
    ensures Find(a + [SEPARATOR] + rest, from) == Some(|a|)
    decreases |a| - from
  {
    var s := a + [SEPARATOR] + rest;
    if from < |a| {
      assert s[from] == a[from];
      FindFirst(a, rest, from + 1);
    }
  }

  lemma {:induction false} FindNone(s: string, from: nat)
    requires Plain(s) && from <= |s|
    ensures Find(s, from) == None
    decreases |s| - from
  {
    if from < |s| { FindNone(s, from + 1); }
  }

  /** Printing plain names and splitting the result gives the names back. */
  lemma {:induction false} SplitOfJoin(names: seq<string>)
    requires names != [] && forall i :: 0 <= i < |names| ==> Plain(names[i])
    ensures Split(Join(names)) == names
  {
    var s := Join(names);
    if |names| == 1 {
      FindNone(s, 0);
    } else {
      var rest := Join(names[1..]);
      FindFirst(names[0], rest, 0);
      SplitOfJoin(names[1..]);
      assert s[..|names[0]|] == names[0] && s[|names[0]| + 1..] == rest;
    }
  }

  // ---- extraction ----

  /** What the environment offers for a component: its own variable, `LOCALE`, or "C". */
  datatype Environment = Environment(specific: map<Category, string>, general: Option<string>) {
    function Name(c: Category): string {
      if c in specific then specific[c] else if general.Some? then general.value else "C"
    }
  }

  /** The component of `full` for a category; `None` stands for a null result. */
  function Part(full: string, c: Category, env: Environment): Option<string> {
    if full == "" then Some(env.Name(c))
    else if Plain(full) then Some(full)
    else
      var p, k := Split(full), c.Place();
      if k >= |p| || (k == |p| - 1 && p[k] == "") then None else Some(p[k])
  }

  /** A character buffer the caller supplies, up to its terminating zero. */
  class Buffer {
    var text: string

    constructor () { text := ""; }

    method StrCpy(s: string)
      modifies this
      ensures text == s
    {
      text := s;
    }

    method StrCat(s: string)
      modifies this
      ensures text == old(text) + s
    {
      text := text + s;
    }
  }

  /** After `k` separators the rest of the pieces is the pieces of the rest. */
  lemma SplitStep(s: string, tmp: nat)
    requires tmp <= |s|
    ensures var r := Find(s, tmp);
      && (r.None? ==> Split(s[tmp..]) == [s[tmp..]])
      && (r.Some? ==> Split(s[tmp..]) == [s[tmp..r.value]] + Split(s[r.value + 1..]))
  {
    var t := s[tmp..];
    FindShift(s, tmp, tmp);
    assert t[0..] == t;
    hide Find, Plain;
    var r := Find(s, tmp);
    if r.Some? {
      assert t[..r.value - tmp] == s[tmp..r.value] && t[r.value - tmp + 1..] == s[r.value + 1..];
    }
  }

  lemma {:induction false} FindShift(s: string, tmp: nat, from: nat)
    requires tmp <= from <= |s|
    ensures Find(s, from) ==
      match Find(s[tmp..], from - tmp) case None => None case Some(k) => Some(k + tmp)
    decreases |s| - from
  {
    if from < |s| && s[from] != SEPARATOR {
      FindShift(s, tmp, from + 1);
    }
  }

  /** The loop that moves `tmp` behind `count` separators. */
  method Skip(full: string, count0: nat) returns (tmp: Option<nat>)
    ensures tmp.None? ==> |Split(full)| <= count0
    ensures tmp.Some? ==> tmp.value <= |full| && count0 < |Split(full)|
    ensures tmp.Some? ==> Split(full)[count0..] == Split(full[tmp.value..])
  {
    hide Find, Split;
    ghost var all := Split(full);
    var count, t: nat := count0, 0;
    assert full[0..] == full && all[0..] == all;
    while count != 0
      invariant 0 <= count <= count0 && t <= |full|
      invariant count0 - count < |all| && all[count0 - count..] == Split(full[t..])
      decreases count
    {
      SplitStep(full, t);
      ghost var rest := all[count0 - count..];
      var next := Find(full, t);
      if next.None? {
        return None;
      }
      assert all[count0 - count + 1..] == rest[1..];
      t := next.value + 1;
      count := count - 1;
    }
    tmp := Some(t);
  }

  lemma PlainIsOnePiece(s: string)
    ensures Find(s, 0).None? <==> Plain(s)
  {
    assert s[0..] == s;
  }

  /** `extract_part`: walks over the separators in front of the component and copies it. */
  method ExtractPart(full: string, part: Buffer, c: Category, env: Environment) returns (found: bool)
    modifies part
    ensures found <==> Part(full, c, env).Some?
    ensures found ==> part.text == Part(full, c, env).value
  {
    hide Find, Split;
    PlainIsOnePiece(full);
    if full == "" {
      part.StrCpy(env.Name(c));
      return true;
    }
    if Find(full, 0).None? {
      part.StrCpy(full);
      return true;
    }
    var k := c.Place();
    ghost var all := Split(full);
    var tmp := Skip(full, k);
    if tmp.None? {
      return false;
    }
    var t := tmp.value;
    SplitStep(full, t);
    assert all[k] == all[k..][0] && |all[k..]| == |all| - k;
    var end := Find(full, t);
    if end.Some? {
      part.StrCpy(full[t..end.value]);
      return true;
    }
    if |full[t..]| == 0 {
      return false;
    }
    part.StrCpy(full[t..]);
    found := true;
  }

  // ---- composition ----

  lemma {:induction false} JoinSnoc(names: seq<string>, x: string)
    requires names != []
    ensures Join(names + [x]) == Join(names) + [SEPARATOR] + x
  {
    var all := names + [x];
    assert all[1..] == names[1..] + [x];
    if |names| > 1 {
      JoinSnoc(names[1..], x);
      assert Join(all) == names[0] + [SEPARATOR] + (Join(names[1..]) + [SEPARATOR] + x);
    }
  }

  lemma JoinSix(a: string, b: string, c: string, d: string, e: string, f: string)
    ensures Join([a, b, c, d, e, f]) ==
      a + [SEPARATOR] + b + [SEPARATOR] + c + [SEPARATOR] + d + [SEPARATOR] + e + [SEPARATOR] + f
  {
    assert Join([a]) == a;
    hide Join;
    JoinSnoc([a], b);
    assert [a] + [b] == [a, b];
    JoinSnoc([a, b], c);
    assert [a, b] + [c] == [a, b, c];
    JoinSnoc([a, b, c], d);
    assert [a, b, c] + [d] == [a, b, c, d];
    JoinSnoc([a, b, c, d], e);
    assert [a, b, c, d] + [e] == [a, b, c, d, e];
    JoinSnoc([a, b, c, d, e], f);
    assert [a, b, c, d, e] + [f] == [a, b, c, d, e, f];
  }

  /** `_Locale_compose_name`. */
  method ComposeName(buf: Buffer, ctype: string, numeric: string, time: string, collate: string,
                     monetary: string, messages: string)
    modifies buf
    ensures buf.text == Join([ctype, numeric, time, collate, monetary, messages])
  {
    var sep := [SEPARATOR];
    buf.StrCpy(ctype);
    buf.StrCat(sep);
    buf.StrCat(numeric);
    buf.StrCat(sep);
    buf.StrCat(time);
    buf.StrCat(sep);
    buf.StrCat(collate);
    buf.StrCat(sep);
    buf.StrCat(monetary);
    buf.StrCat(sep);
    buf.StrCat(messages);
    JoinSix(ctype, numeric, time, collate, monetary, messages);
  }

  lemma {:induction false} JoinNotPlain(names: seq<string>)
    requires |names| > 1
    ensures Join(names) != "" && !Plain(Join(names))
  {
    assert Join(names)[|names[0]|] == SEPARATOR;
  }

  lemma PartIsPlain(full: string, c: Category, env: Environment)
    requires Part(full, c, env).Some? && (full == "" ==> Plain(env.Name(c)))
    ensures Plain(Part(full, c, env).value)
  {
  }

  /** What a composite name of any number of components offers for a category: the component at its place,
      unless there is none or it is an empty last one. */
  lemma PartOfJoin(names: seq<string>, c: Category, env: Environment)
    requires |names| > 1 && forall i :: 0 <= i < |names| ==> Plain(names[i])
    ensures var k := c.Place();
      Part(Join(names), c, env)
        == if k < |names| - 1 || (k == |names| - 1 && names[k] != "") then Some(names[k]) else None
  {
    hide Join, Split, Plain;
    JoinNotPlain(names);
    SplitOfJoin(names);
  }

  lemma PlainRoundTrip(names: seq<string>, c: Category, env: Environment)
    requires |names| == 6 && forall i :: 0 <= i < 6 ==> Plain(names[i])
    ensures Part(Join(names), c, env) == if c.Messages? && names[5] == "" then None else Some(names[c.Place()])
  {
    hide Part, Join, Plain;
    PartOfJoin(names, c, env);
  }

  /** Every extractor gives its own component of a composed name back exactly if no component holds a
      separator and the last one is not empty. */
  lemma RoundTripIff(names: seq<string>, env: Environment)
    requires |names| == 6
    ensures (forall c: Category :: Part(Join(names), c, env) == Some(names[c.Place()]))
      <==> (forall i :: 0 <= i < 6 ==> Plain(names[i])) && names[5] != ""
  {
    hide Join, Split, Part;
    JoinNotPlain(names);
    if forall i :: 0 <= i < 6 ==> Plain(names[i]) {
      forall c: Category
        ensures Part(Join(names), c, env) == if c.Messages? && names[5] == "" then None else Some(names[c.Place()])
      {
        PlainRoundTrip(names, c, env);
      }
      assert Part(Join(names), Messages, env).None? <==> names[5] == "";
    } else {
      var i :| 0 <= i < 6 && !Plain(names[i]);
      var c := At(i);
      if Part(Join(names), c, env).Some? {
        PartIsPlain(Join(names), c, env);
      }
      assert Part(Join(names), c, env) != Some(names[c.Place()]);
    }
  }

  function At(k: nat): (c: Category)
    requires k < 6
    ensures c.Place() == k
  {
    match k
    case 0 => Ctype
    case 1 => Numeric
    case 2 => Time
    case 3 => Collate
    case 4 => Monetary
    case _ => Messages
  }

  // ---- combination ----

  /** The component a combined locale takes: from the second name if the category is selected. */
  function Chosen(n1: string, n2: string, selected: set<Category>, c: Category, env: Environment): Option<string> {
    Part(if c in selected then n2 else n1, c, env)
  }

  /** The name of a combined locale; `None` where a string would be made from a null result. */
  function Combined(n1: string, n2: string, selected: set<Category>, env: Environment): Option<string> {
    if n1 == "*" || n2 == "*" then Some("*")
    else if exists k :: 0 <= k < 6 && Chosen(n1, n2, selected, At(k), env).None? then None
    else Some(Join(seq(6, k requires 0 <= k < 6 => Chosen(n1, n2, selected, At(k), env).value)))
  }

  /** The naming half of `_CS_combine`, with its one scratch buffer. */
  method CombineNames(n1: string, n2: string, selected: set<Category>, env: Environment, buf: Buffer)
    returns (defined: bool)
    modifies buf
    ensures defined <==> Combined(n1, n2, selected, env).Some?
    ensures defined ==> buf.text == Combined(n1, n2, selected, env).value
  {
    hide Part, Join;
    if n1 != "*" && n2 != "*" {
      var parts := [];
      var k := 0;
      while k < 6
        invariant 0 <= k <= 6 && |parts| == k
        invariant forall i :: 0 <= i < k ==> Chosen(n1, n2, selected, At(i), env) == Some(parts[i])
      {
        defined := ExtractPart(if At(k) in selected then n2 else n1, buf, At(k), env);
        if !defined { return false; }
        parts := parts + [buf.text];
        k := k + 1;
      }
      ComposeName(buf, parts[0], parts[1], parts[2], parts[3], parts[4], parts[5]);
      assert parts == [parts[0], parts[1], parts[2], parts[3], parts[4], parts[5]];
      assert parts == seq(6, k requires 0 <= k < 6 => Chosen(n1, n2, selected, At(k), env).value);
    } else {
      buf.StrCpy("*");
    }
    defined := true;
  }

  /** What was chosen for each category. */
  function ChosenParts(n1: string, n2: string, selected: set<Category>, env: Environment): (parts: seq<string>)
    requires forall c: Category :: Chosen(n1, n2, selected, c, env).Some?
    ensures |parts| == 6 && forall c: Category :: Chosen(n1, n2, selected, c, env) == Some(parts[c.Place()])
  {
    var parts := seq(6, k requires 0 <= k < 6 => Chosen(n1, n2, selected, At(k), env).value);
    assert forall c: Category :: At(c.Place()) == c;
    parts
  }

  lemma CombinedIsJoin(n1: string, n2: string, selected: set<Category>, env: Environment)
    requires n1 != "*" && n2 != "*" && Combined(n1, n2, selected, env).Some?
    ensures forall c: Category :: Chosen(n1, n2, selected, c, env).Some?
    ensures Combined(n1, n2, selected, env).value == Join(ChosenParts(n1, n2, selected, env))
  {
    hide Join, Part;
    forall c: Category ensures Chosen(n1, n2, selected, c, env).Some? { assert At(c.Place()) == c; }
    assert ChosenParts(n1, n2, selected, env)
      == seq(6, k requires 0 <= k < 6 => Chosen(n1, n2, selected, At(k), env).value);
  }

  /** The name a component comes from names it itself, or the environment offers one without separator. */
  predicate PlainSource(full: string, c: Category, env: Environment) { full != "" || Plain(env.Name(c)) }

  lemma PartPlainIff(full: string, c: Category, env: Environment)
    requires Part(full, c, env).Some?
    ensures Plain(Part(full, c, env).value) <==> PlainSource(full, c, env)
  {
    if full != "" { PartIsPlain(full, c, env); }
  }

  ghost predicate PlainSources(n1: string, n2: string, selected: set<Category>, env: Environment) {
    forall c: Category :: PlainSource(if c in selected then n2 else n1, c, env)
  }

  lemma PartsPlainIff(n1: string, n2: string, selected: set<Category>, env: Environment)
    requires forall c: Category :: Chosen(n1, n2, selected, c, env).Some?
    ensures var parts := ChosenParts(n1, n2, selected, env);
      (forall i :: 0 <= i < 6 ==> Plain(parts[i])) <==> PlainSources(n1, n2, selected, env)
  {
    hide Part, Plain, PlainSource;
    var parts := ChosenParts(n1, n2, selected, env);
    forall c: Category
      ensures Plain(parts[c.Place()]) <==> PlainSource(if c in selected then n2 else n1, c, env)
    {
      PartPlainIff(if c in selected then n2 else n1, c, env);
    }
    forall i | 0 <= i < 6 ensures parts[i] == parts[At(i).Place()] { }
  }

  /** Every component of the combined name is the one that was chosen, exactly if the environment does
      not offer a name with a separator for an empty one, and the messages component is not empty. */
  lemma CombinedComponentsIff(n1: string, n2: string, selected: set<Category>, env: Environment)
    requires n1 != "*" && n2 != "*" && Combined(n1, n2, selected, env).Some?
    ensures var name := Combined(n1, n2, selected, env).value;
      (forall c: Category :: Part(name, c, env) == Chosen(n1, n2, selected, c, env))
      <==> (PlainSources(n1, n2, selected, env) && Chosen(n1, n2, selected, Messages, env) != Some(""))
  {
    hide Join, Part, Plain, Chosen, PlainSources;
    CombinedIsJoin(n1, n2, selected, env);
    RoundTripIff(ChosenParts(n1, n2, selected, env), env);
    PartsPlainIff(n1, n2, selected, env);
  }

  /** Where the environment offers no separator, an empty messages component is all that is lost. */
  lemma CombinedComponents(n1: string, n2: string, selected: set<Category>, env: Environment, c: Category)
    requires n1 != "*" && n2 != "*" && Combined(n1, n2, selected, env).Some?
    requires PlainSources(n1, n2, selected, env)
    ensures Part(Combined(n1, n2, selected, env).value, c, env)
      == if c.Messages? && Chosen(n1, n2, selected, c, env) == Some("") then None else Chosen(n1, n2, selected, c, env)
  {
    hide Join, Part, Plain, Chosen, PlainSources;
    CombinedIsJoin(n1, n2, selected, env);
    PartsPlainIff(n1, n2, selected, env);
    PlainRoundTrip(ChosenParts(n1, n2, selected, env), c, env);
  }

  /** An empty messages component is chosen exactly from a name with an empty sixth piece that is not
      the last, or where the environment offers the empty name. */
  lemma EmptyMessagesIff(full: string, env: Environment)
    ensures Part(full, Messages, env) == Some("") <==>
      if full == "" then env.Name(Messages) == "" else |Split(full)| > 6 && Split(full)[5] == ""
  {
    if full != "" && Plain(full) {
      FindNone(full, 0);
    }
  }

  // ---- names that say all their components ----

  /** `name` has the components `parts`: it is the same for all of them, or composed of them. */
  ghost predicate Says(name: string, parts: seq<string>) {
    && |parts| == 6 && (forall i :: 0 <= i < 6 ==> Plain(parts[i])) && parts[5] != ""
    && name != "*"
    && (name == Join(parts) || parts == [name, name, name, name, name, name])
  }

  /** Then each extractor finds its own. */
  lemma SaidParts(name: string, parts: seq<string>, c: Category, env: Environment)
    requires Says(name, parts)
    ensures Part(name, c, env) == Some(parts[c.Place()])
  {
    if name == Join(parts) {
      hide Part, Join, Plain;
      PlainRoundTrip(parts, c, env);
    } else {
      assert Plain(name) by { assert parts[0] == name; }
      assert name == parts[5];
    }
  }

  /** A name is never composed of six to be a single star. */
  lemma ComposedIsNotStar(parts: seq<string>)
    requires |parts| == 6
    ensures Join(parts) != "*"
  {
    hide Plain;
    JoinNotPlain(parts);
    assert !Plain(Join(parts));
    StarIsPlain();
  }

  lemma StarIsPlain()
    ensures Plain("*")
  {
  }

  /** The components a combined name should have. */
  function Mixed(p1: seq<string>, p2: seq<string>, selected: set<Category>): (p: seq<string>)
    requires |p1| == |p2| == 6
    ensures |p| == 6 && forall c: Category :: p[c.Place()] == if c in selected then p2[c.Place()] else p1[c.Place()]
  {
    var p := seq(6, k requires 0 <= k < 6 => if At(k) in selected then p2[k] else p1[k]);
    assert forall c: Category :: At(c.Place()) == c;
    p
  }

  /** Combining two names composes their components, those of the second name where selected; and the
      result says just these again. */
  lemma CombinedSays(n1: string, p1: seq<string>, n2: string, p2: seq<string>, selected: set<Category>,
                     env: Environment)
    requires Says(n1, p1) && Says(n2, p2)
    ensures Combined(n1, n2, selected, env) == Some(Join(Mixed(p1, p2, selected)))
    ensures Says(Join(Mixed(p1, p2, selected)), Mixed(p1, p2, selected))
  {
    hide Join, Part, Plain;
    var p := Mixed(p1, p2, selected);
    forall k | 0 <= k < 6 ensures Chosen(n1, n2, selected, At(k), env) == Some(p[k]) && Plain(p[k]) {
      SaidParts(n1, p1, At(k), env);
      SaidParts(n2, p2, At(k), env);
    }
    assert seq(6, k requires 0 <= k < 6 => Chosen(n1, n2, selected, At(k), env).value) == p;
    assert p[Messages.Place()] == p[5];
    ComposedIsNotStar(p);
  }

  /** Combining a name that is the same for all categories with itself composes it of six copies. */
  lemma CombinedWithItself(n: string, selected: set<Category>, env: Environment)
    requires Plain(n) && n != "" && n != "*"
    ensures Combined(n, n, selected, env) == Some(Join([n, n, n, n, n, n]))
    ensures forall c: Category :: Part(n, c, env) == Some(n)
  {
    hide Part, Join, Plain;
    var p := [n, n, n, n, n, n];
    CombinedSays(n, p, n, p, selected, env);
    assert Mixed(p, p, selected) == p;
    forall c: Category ensures Part(n, c, env) == Some(n) { SaidParts(n, p, c, env); }
  }

  /** Nothing but a star makes a star. */
  lemma StarIff(n1: string, n2: string, selected: set<Category>, env: Environment)
    ensures Combined(n1, n2, selected, env) == Some("*") <==> n1 == "*" || n2 == "*"
  {
    hide Part, Join;
    if n1 != "*" && n2 != "*" && Combined(n1, n2, selected, env).Some? {
      CombinedIsJoin(n1, n2, selected, env);
      ComposedIsNotStar(ChosenParts(n1, n2, selected, env));
    }
  }
}
