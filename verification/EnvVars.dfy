/** Environment substitution in raw configuration text (config/reader/preprocessor.go). The
    environment is a parameter; a name that is not set has the empty value. */
module EnvVars {
  import opened Common

  type Env = string -> string

  predicate IsNameChar(c: char) {
    'A' <= c <= 'Z' || 'a' <= c <= 'z' || '0' <= c <= '9' || c == '_'
  }

  function NameRun(t: string): (n: nat)
    ensures n <= |t|
  {
    if t == [] || !IsNameChar(t[0]) then 0 else 1 + NameRun(t[1..])
  }

  /** The length of the reference `t` starts with, 0 when it starts with none. */
  function RefLength(t: string): (n: nat)
    ensures n <= |t| && (n > 0 ==> n > 3)
  {
    if |t| < 2 || t[0] != '$' || t[1] != '{' then 0 else
    var n := NameRun(t[2..]);
    if n > 0 && 2 + n < |t| && t[2 + n] == '}' then n + 3 else 0
  }

  predicate HasReference(t: string) {
    t != [] && (RefLength(t) > 0 || HasReference(t[1..]))
  }

  /** The left-to-right replacement of every match. */
  function ReplaceAll(env: Env, t: string): string {
    if t == [] then [] else
    var n := RefLength(t);
    if n > 0 then env(t[2..n - 1]) + ReplaceAll(env, t[n..]) else [t[0]] + ReplaceAll(env, t[1..])
  }

  /** ReplaceEnvVars. */
  function ReplaceEnvVars(env: Env, raw: string): string {
    if HasReference(raw) then ReplaceAll(env, raw) else raw
  }

  // ----- Splitting a text into gaps and references -----

  datatype Split = End(gap: string) | Ref(gap: string, name: string, rest: Split)

  function Reference(name: string): string {
    "${" + name + "}"
  }

  function Text(p: Split): string {
    match p
    case End(gap) => gap
    case Ref(gap, name, rest) => gap + (Reference(name) + Text(rest))
  }

  predicate IsName(name: string) {
    name != [] && NameRun(name) == |name|
  }

  /** Names have letters, digits and underscores of ASCII, at least one. */
  lemma {:induction false} NamesAre(name: string)
    ensures IsName(name) <==>
      && name != []
      && forall i :: 0 <= i < |name| ==>
           var b := name[i] as int; 65 <= b <= 90 || 97 <= b <= 122 || 48 <= b <= 57 || b == 95
  {
    if |name| > 1 {
      NamesAre(name[1..]);
      forall i | 0 < i < |name| ensures name[i] == name[1..][i - 1] {
      }
      if IsName(name[1..]) {
        forall i | 0 < i < |name|
          ensures var b := name[i] as int; 65 <= b <= 90 || 97 <= b <= 122 || 48 <= b <= 57 || b == 95
        {
          assert name[1..][i - 1] == name[i];
        }
      }
    }
  }

  /** A text without a dollar sign stays as it is. */
  lemma {:induction false} NoDollarNoChange(env: Env, t: string)
    requires '$' !in t
    ensures ReplaceEnvVars(env, t) == t
  {
    if t != [] {
      NoDollarNoChange(env, t[1..]);
    }
  }

  /** The gaps contain no reference and the names are names. */
  predicate Clean(p: Split) {
    match p
    case End(gap) => !HasReference(gap)
    case Ref(gap, name, rest) => !HasReference(gap) && IsName(name) && Clean(rest)
  }

  /** The gaps as they are, the references replaced. */
  function Fill(env: Env, p: Split): string {
    match p
    case End(gap) => gap
    case Ref(gap, name, rest) => gap + (env(name) + Fill(env, rest))
  }

  function Prepend(c: char, p: Split): Split {
    match p
    case End(gap) => End([c] + gap)
    case Ref(gap, name, rest) => Ref([c] + gap, name, rest)
  }

  function Parse(t: string): Split {
    if t == [] then End([]) else
    var n := RefLength(t);
    if n > 0 then Ref([], t[2..n - 1], Parse(t[n..])) else Prepend(t[0], Parse(t[1..]))
  }

  // ----- References do not overlap -----

  lemma {:induction false} NameRunConcat(name: string, u: string)
    requires NameRun(name) == |name| && (u == [] || !IsNameChar(u[0]))
    ensures NameRun(name + u) == |name|
  {
    if name == [] {
      assert name + u == u;
    } else {
      NameRunConcat(name[1..], u);
      assert (name + u)[1..] == name[1..] + u;
    }
  }

  lemma {:induction false} NameRunStable(t: string, u: string)
    requires NameRun(t) < |t|
    ensures NameRun(t + u) == NameRun(t)
  {
    if IsNameChar(t[0]) {
      NameRunStable(t[1..], u);
      assert (t + u)[1..] == t[1..] + u;
    }
  }

  /** A reference is recognized whatever follows it. */
  lemma RefLengthStable(t: string, u: string)
    requires RefLength(t) > 0
    ensures RefLength(t + u) == RefLength(t)
  {
    NameRunStable(t[2..], u);
    assert (t + u)[2..] == t[2..] + u;
  }

  lemma RefLengthReference(name: string, u: string)
    requires IsName(name)
    ensures RefLength(Reference(name) + u) == |Reference(name)|
    ensures (Reference(name) + u)[2..|name| + 2] == name
  {
    var t := Reference(name) + u;
    assert t[2..] == name + ("}" + u);
    NameRunConcat(name, "}" + u);
  }

  /** A reference cannot start in a text without references and end in a following one that
      starts with '$': what it would contain of the latter starts with '$'. */
  lemma NoStraddling(t: string, u: string)
    requires t != [] && RefLength(t) == 0 && (u == [] || u[0] == '$')
    ensures RefLength(t + u) == 0
  {
    if u == [] {
      assert t + u == t;
    } else {
      assert (t + u)[|t|] == '$';
      if |t| >= 2 {
        assert (t + u)[2..] == t[2..] + u;
        assert (t[2..] + u)[|t| - 2] == '$';
        NameRunPrefix(t[2..], u);
      }
    }
  }

  lemma {:induction false} NameRunPrefix(t: string, u: string)
    requires u != [] && u[0] == '$'
    ensures NameRun(t + u) == NameRun(t)
  {
    if t == [] {
      assert t + u == u;
    } else {
      assert (t + u)[1..] == t[1..] + u;
      NameRunPrefix(t[1..], u);
    }
  }

  // ----- The split is unique and replacement follows it -----

  /** Where a gap may end: at the end of the text or at a reference. */
  predicate Boundary(u: string) {
    u == [] || RefLength(u) > 0
  }

  function PrependAll(gap: string, p: Split): Split {
    match p
    case End(g) => End(gap + g)
    case Ref(g, name, rest) => Ref(gap + g, name, rest)
  }

  lemma PrependAllNothing(p: Split)
    ensures PrependAll([], p) == p
  {
    assert [] + p.gap == p.gap;
  }

  lemma PrependAllMore(c: char, gap: string, p: Split)
    ensures Prepend(c, PrependAll(gap, p)) == PrependAll([c] + gap, p)
  {
    assert [c] + (gap + p.gap) == [c] + gap + p.gap;
  }

  /** One character that starts no reference. */
  lemma OneStep(env: Env, c: char, u: string)
    requires RefLength([c] + u) == 0
    ensures Parse([c] + u) == Prepend(c, Parse(u))
    ensures ReplaceAll(env, [c] + u) == [c] + ReplaceAll(env, u)
  {
    assert ([c] + u)[1..] == u;
  }

  /** A gap is kept as it is. */
  lemma {:induction false} KeepGap(env: Env, gap: string, u: string)
    requires !HasReference(gap) && Boundary(u)
    ensures Parse(gap + u) == PrependAll(gap, Parse(u))
    ensures ReplaceAll(env, gap + u) == gap + ReplaceAll(env, u)
  {
    if gap == [] {
      assert gap + u == u && gap + ReplaceAll(env, u) == ReplaceAll(env, u);
      PrependAllNothing(Parse(u));
    } else {
      var c, g := gap[0], gap[1..];
      NoStraddling(gap, u);
      KeepGap(env, g, u);
      Rejoin(c, g, gap, u);
      KeepOne(env, c, g, u);
      Rejoin(c, g, gap, ReplaceAll(env, u));
    }
  }

  lemma Rejoin(c: char, g: string, gap: string, u: string)
    requires gap != [] && c == gap[0] && g == gap[1..]
    ensures gap == [c] + g && gap + u == [c] + (g + u)
  {
  }

  lemma KeepOne(env: Env, c: char, g: string, u: string)
    requires RefLength([c] + (g + u)) == 0
    requires Parse(g + u) == PrependAll(g, Parse(u)) && ReplaceAll(env, g + u) == g + ReplaceAll(env, u)
    ensures Parse([c] + (g + u)) == PrependAll([c] + g, Parse(u))
    ensures ReplaceAll(env, [c] + (g + u)) == [c] + (g + ReplaceAll(env, u))
  {
    OneStep(env, c, g + u);
    PrependAllMore(c, g, Parse(u));
  }

  lemma RefParts(name: string, u: string)
    requires IsName(name)
    ensures var t := Reference(name) + u;
            RefLength(t) == |name| + 3 && t[2..RefLength(t) - 1] == name && t[RefLength(t)..] == u
  {
    RefLengthReference(name, u);
  }

  /** Any clean split of a text is the one Parse finds. */
  lemma {:induction false} SplitIsUnique(env: Env, p: Split)
    requires Clean(p)
    ensures Parse(Text(p)) == p
  {
    match p
    case End(gap) =>
      KeepGap(env, gap, []);
      assert gap + [] == gap;
    case Ref(gap, name, rest) =>
      SplitIsUnique(env, rest);
      RefParts(name, Text(rest));
      KeepGap(env, gap, Reference(name) + Text(rest));
      assert gap + [] == gap;
  }

  /** The split Parse finds is clean and spells the text. */
  lemma {:induction false} SplitExists(t: string)
    ensures Clean(Parse(t)) && Text(Parse(t)) == t
  {
    if t != [] {
      var n := RefLength(t);
      if n > 0 {
        SplitExists(t[n..]);
        NameOfReference(t);
      } else {
        SplitExists(t[1..]);
        assert t == [t[0]] + t[1..];
        PrependIsClean(t[0], t[1..], Parse(t[1..]));
      }
    }
  }

  lemma PrependIsClean(c: char, t: string, p: Split)
    requires RefLength([c] + t) == 0 && Clean(p) && Text(p) == t
    ensures Clean(Prepend(c, p)) && Text(Prepend(c, p)) == [c] + t
  {
    var gap := [c] + p.gap;
    var u := if p.End? then [] else Reference(p.name) + Text(p.rest);
    assert [c] + (p.gap + u) == gap + u && p.gap + [] == p.gap;
    if RefLength(gap) > 0 {
      RefLengthStable(gap, u);
      assert false;
    }
    assert gap[1..] == p.gap;
  }

  lemma NameOfReference(t: string)
    requires RefLength(t) > 0
    ensures var n := RefLength(t); IsName(t[2..n - 1]) && t == [] + (Reference(t[2..n - 1]) + t[n..])
  {
    var n := RefLength(t);
    assert t[2..][..n - 3] == t[2..n - 1];
    NameRunIsName(t[2..], n - 3);
  }

  lemma {:induction false} NameRunIsName(t: string, n: nat)
    requires n <= NameRun(t)
    ensures NameRun(t[..n]) == n
  {
    if n > 0 {
      NameRunIsName(t[1..], n - 1);
      assert t[..n][1..] == t[1..][..n - 1];
    }
  }

  lemma {:induction false} ReplaceFollowsSplit(env: Env, p: Split)
    requires Clean(p)
    ensures ReplaceAll(env, Text(p)) == Fill(env, p)
  {
    match p
    case End(gap) =>
      KeepGap(env, gap, []);
      assert gap + [] == gap;
    case Ref(gap, name, rest) =>
      ReplaceFollowsSplit(env, rest);
      RefParts(name, Text(rest));
      KeepGap(env, gap, Reference(name) + Text(rest));
  }

  lemma HasReferenceIff(t: string)
    ensures HasReference(t) <==> Parse(t).Ref?
  {
    if t != [] && RefLength(t) == 0 {
      HasReferenceIff(t[1..]);
    }
  }

  /** Every text has exactly one split into reference-free gaps and references, and the
      substitution keeps its gaps and replaces its references, each once. */
  lemma SubstitutionIsPiecewise(env: Env, t: string, p: Split)
    requires Clean(p) && Text(p) == t
    ensures p == Parse(t)
    ensures ReplaceEnvVars(env, t) == Fill(env, p)
  {
    SplitIsUnique(env, p);
    HasReferenceIff(t);
    ReplaceFollowsSplit(env, p);
  }

  // ----- Applying it twice -----

  /** The identity when every name stands for its own reference. */
  lemma {:induction false} IdentityOnSelfReferences(env: Env, t: string)
    requires forall name :: IsName(name) ==> env(name) == Reference(name)
    ensures ReplaceEnvVars(env, t) == t
  {
    SplitExists(t);
    SubstitutionIsPiecewise(env, t, Parse(t));
    FillSelf(env, Parse(t));
  }

  lemma {:induction false} FillSelf(env: Env, p: Split)
    requires Clean(p) && forall name :: IsName(name) ==> env(name) == Reference(name)
    ensures Fill(env, p) == Text(p)
  {
    if p.Ref? {
      FillSelf(env, p.rest);
    }
  }

  // ----- Scanning for references -----

  /** How much of a reference a text ends with. */
  datatype Scan = Out | Dollar | Name(prefix: string) | Found

  /** One character further. References to names in `keep` are passed over. */
  function Next(keep: string -> bool, q: Scan, c: char): Scan {
    if q.Found? then Found
    else if c == '$' then Dollar
    else if q.Dollar? && c == '{' then Name([])
    else if q.Name? && IsNameChar(c) then Name(q.prefix + [c])
    else if q.Name? && q.prefix != [] && c == '}' && !keep(q.prefix) then Found
    else Out
  }

  function ScanText(keep: string -> bool, q: Scan, t: string): Scan
    decreases |t|
  {
    if t == [] then q else ScanText(keep, Next(keep, q, t[0]), t[1..])
  }

  lemma {:induction false} ScanConcat(keep: string -> bool, q: Scan, a: string, b: string)
    ensures ScanText(keep, q, a + b) == ScanText(keep, ScanText(keep, q, a), b)
    decreases |a|
  {
    if a == [] {
      assert a + b == b;
    } else {
      assert (a + b)[1..] == a[1..] + b;
      ScanConcat(keep, Next(keep, q, a[0]), a[1..], b);
    }
  }

  function None(name: string): bool { false }

  predicate ClosesName(t: string) {
    NameRun(t) < |t| && t[NameRun(t)] == '}'
  }

  /** Whether `t`, after what `q` stands for, completes or contains a reference. */
  predicate Completes(q: Scan, t: string) {
    || HasReference(t)
    || match q
       case Out => false
       case Dollar => t != [] && t[0] == '{' && NameRun(t[1..]) > 0 && ClosesName(t[1..])
       case Name(prefix) => (prefix != [] || NameRun(t) > 0) && ClosesName(t)
       case Found => true
  }

  lemma {:induction false} ScanFinds(q: Scan, t: string)
    ensures ScanText(None, q, t).Found? <==> Completes(q, t)
    decreases |t|
  {
    if t != [] {
      ScanFinds(Next(None, q, t[0]), t[1..]);
      if t[0] == '$' {
        DollarStarts(t);
      } else if IsNameChar(t[0]) {
        assert ClosesName(t) <==> ClosesName(t[1..]);
      }
    }
  }

  lemma DollarStarts(t: string)
    requires t != [] && t[0] == '$'
    ensures RefLength(t) > 0 <==> |t| > 1 && t[1] == '{' && NameRun(t[2..]) > 0 && ClosesName(t[2..])
    ensures t[1..] != [] ==> t[1..][1..] == t[2..]
  {
  }

  /** A text in which the scan finds nothing is scanned alike whatever is kept. */
  lemma {:induction false} ScanWithout(keep: string -> bool, q: Scan, t: string)
    requires !ScanText(None, q, t).Found?
    ensures ScanText(keep, q, t) == ScanText(None, q, t)
    decreases |t|
  {
    if t != [] {
      FoundStays(None, Next(None, q, t[0]), t[1..]);
      ScanWithout(keep, Next(None, q, t[0]), t[1..]);
    }
  }

  lemma {:induction false} FoundStays(keep: string -> bool, q: Scan, t: string)
    ensures q.Found? ==> ScanText(keep, q, t).Found?
    decreases |t|
  {
    if t != [] {
      FoundStays(keep, Next(keep, q, t[0]), t[1..]);
    }
  }

  lemma {:induction false} ScanName(keep: string -> bool, prefix: string, name: string)
    requires NameRun(name) == |name|
    ensures ScanText(keep, Name(prefix), name) == Name(prefix + name)
    decreases |name|
  {
    if name == [] {
      assert prefix + name == prefix;
    } else {
      ScanName(keep, prefix + [name[0]], name[1..]);
      assert prefix + [name[0]] + name[1..] == prefix + name;
    }
  }

  lemma ScanReference(keep: string -> bool, q: Scan, name: string)
    requires IsName(name) && !q.Found?
    ensures ScanText(keep, q, Reference(name)) == if keep(name) then Out else Found
  {
    assert Reference(name) == ['$'] + (['{'] + (name + ['}']));
    ScanConcat(keep, q, ['$'], ['{'] + (name + ['}']));
    ScanConcat(keep, Dollar, ['{'], name + ['}']);
    ScanConcat(keep, Name([]), name, ['}']);
    ScanName(keep, [], name);
    assert [] + name == name;
    ScanOne(keep, q, '$');
    ScanOne(keep, Dollar, '{');
    ScanOne(keep, Name(name), '}');
  }

  lemma ScanOne(keep: string -> bool, q: Scan, c: char)
    ensures ScanText(keep, q, [c]) == Next(keep, q, c)
  {
    assert [c][1..] == [];
  }

  /** All references are to kept names. */
  predicate AllKept(keep: string -> bool, p: Split) {
    p.Ref? ==> keep(p.name) && AllKept(keep, p.rest)
  }

  /** The scan of a text finds a reference exactly when its split has one to a name that is not
      kept. */
  lemma {:induction false} ScanOfSplit(keep: string -> bool, p: Split)
    requires Clean(p)
    ensures ScanText(keep, Out, Text(p)).Found? <==> !AllKept(keep, p)
  {
    ScanFinds(Out, p.gap);
    ScanWithout(keep, Out, p.gap);
    if p.Ref? {
      ScanConcat(keep, Out, p.gap, Reference(p.name) + Text(p.rest));
      ScanConcat(keep, ScanText(keep, Out, p.gap), Reference(p.name), Text(p.rest));
      ScanReference(keep, ScanText(keep, Out, p.gap), p.name);
      ScanOfSplit(keep, p.rest);
      FoundStays(keep, Found, Text(p.rest));
    }
  }

  /** The scan of the text after substitution, piece by piece. */
  function ScanSplit(keep: string -> bool, env: Env, q: Scan, p: Split): Scan
    decreases p
  {
    match p
    case End(gap) => ScanText(keep, q, gap)
    case Ref(gap, name, rest) =>
      ScanSplit(keep, env, ScanText(keep, ScanText(keep, q, gap), env(name)), rest)
  }

  lemma {:induction false} ScanOfFill(keep: string -> bool, env: Env, q: Scan, p: Split)
    ensures ScanText(keep, q, Fill(env, p)) == ScanSplit(keep, env, q, p)
    decreases p
  {
    if p.Ref? {
      ScanConcat(keep, q, p.gap, env(p.name) + Fill(env, p.rest));
      ScanConcat(keep, ScanText(keep, q, p.gap), env(p.name), Fill(env, p.rest));
      ScanOfFill(keep, env, ScanText(keep, ScanText(keep, q, p.gap), env(p.name)), p.rest);
    }
  }

  // ----- Substituting twice -----

  /** The names that stand for their own references. */
  function Fixed(env: Env): string -> bool {
    (name: string) => env(name) == Reference(name)
  }

  predicate IsAt(s: string, t: string, i: nat) {
    i + |t| <= |s| && s[i..i + |t|] == t
  }

  ghost predicate Contains(s: string, t: string) {
    exists i: nat :: IsAt(s, t, i)
  }

  /** The value is the variable's own reference, or does not contain it. */
  ghost predicate Modest(env: Env, name: string) {
    env(name) == Reference(name) || !Contains(env(name), Reference(name))
  }

  ghost predicate AllModest(env: Env, p: Split) {
    p.Ref? ==> Modest(env, p.name) && AllModest(env, p.rest)
  }

  /** The text of a split can only be found in its substitution, behind some `d`, if `d` is empty
      and all its references are to fixed names: each other reference puts the substitution
      further behind, because the value that replaces it would have to contain it. */
  lemma {:induction false} NoLag(env: Env, d: string, p: Split)
    requires AllModest(env, p) && d + Text(p) == Fill(env, p)
    ensures d == [] && AllKept(Fixed(env), p)
    decreases p
  {
    if p.Ref? {
      var x := Behind(env, d, p);
      var v := env(p.name);
      var t, f := Text(p.rest), Fill(env, p.rest);
      if |v| < |x| {
        ShorterValue(x, t, v, f);
        NoLag(env, x[|v|..], p.rest);
      } else {
        LongerValue(x, t, v, f);
        assert v[|d|..|x|] == x[|d|..];
        assert IsAt(v, Reference(p.name), |d|);
        assert d == [] && x == v;
        ShorterValue(x, t, v, f);
        NoLag(env, x[|v|..], p.rest);
      }
    } else {
      assert |d| == 0;
    }
  }

  /** What the value and the rest have to spell: `d` shifted over the gap, and the reference. */
  lemma Behind(env: Env, d: string, p: Split) returns (x: string)
    requires p.Ref? && d + Text(p) == Fill(env, p)
    ensures x + Text(p.rest) == env(p.name) + Fill(env, p.rest)
    ensures |x| == |d| + |Reference(p.name)| && x[|d|..] == Reference(p.name)
  {
    x := Shifted(d, p.gap, Reference(p.name), Text(p.rest), env(p.name) + Fill(env, p.rest));
  }

  lemma Shifted(d: string, g: string, r: string, t: string, f: string) returns (x: string)
    requires d + (g + (r + t)) == g + f
    ensures x + t == f && |x| == |d| + |r| && x[|d|..] == r
  {
    var front := d + (g + r);
    x := front[|g|..];
    assert x[|d|..] == front[|d| + |g|..] == r;
    assert d + (g + (r + t)) == front + t by {
      TextAfter(g, r, t);
      TextAfter(d, g + r, t);
    }
    assert (front + t)[|g|..] == x + t;
    assert (g + f)[|g|..] == f;
  }

  lemma ShorterValue(x: string, t: string, v: string, f: string)
    requires x + t == v + f && |v| <= |x|
    ensures x[|v|..] + t == f
  {
    assert (x + t)[|v|..] == x[|v|..] + t && (v + f)[|v|..] == f;
  }

  lemma LongerValue(x: string, t: string, v: string, f: string)
    requires x + t == v + f && |x| <= |v|
    ensures v[..|x|] == x
  {
    assert (x + t)[..|x|] == x && (v + f)[..|x|] == v[..|x|];
  }

  lemma {:induction false} KeptIsFilled(env: Env, p: Split)
    requires AllKept(Fixed(env), p)
    ensures Fill(env, p) == Text(p)
  {
    if p.Ref? {
      KeptIsFilled(env, p.rest);
    }
  }

  /** What the text after one substitution refers to. */
  function Left(env: Env, t: string): Split {
    Parse(ReplaceEnvVars(env, t))
  }

  lemma LeftIsScanned(env: Env, t: string)
    ensures var q := Left(env, t);
            && Clean(q) && Text(q) == ReplaceEnvVars(env, t)
            && ReplaceEnvVars(env, ReplaceEnvVars(env, t)) == Fill(env, q)
            && (AllKept(Fixed(env), q) <==> !ScanSplit(Fixed(env), env, Out, Parse(t)).Found?)
  {
    var once := ReplaceEnvVars(env, t);
    SplitExists(t);
    SubstitutionIsPiecewise(env, t, Parse(t));
    SplitExists(once);
    SubstitutionIsPiecewise(env, once, Parse(once));
    ScanOfFill(Fixed(env), env, Out, Parse(t));
    ScanOfSplit(Fixed(env), Parse(once));
  }

  /** Hot updates substitute twice. For every text and environment the second time changes
      nothing when the gaps of the text and the values put between them make up no reference
      other than to names that stand for their own. */
  lemma {:induction false} TwiceIsOnce(env: Env, t: string)
    requires !ScanSplit(Fixed(env), env, Out, Parse(t)).Found?
    ensures ReplaceEnvVars(env, ReplaceEnvVars(env, t)) == ReplaceEnvVars(env, t)
  {
    LeftIsScanned(env, t);
    KeptIsFilled(env, Left(env, t));
  }

  /** And only then, unless a variable that is left has a value that contains its own reference
      together with other text. */
  lemma {:induction false} TwiceIsOnceIff(env: Env, t: string)
    requires AllModest(env, Left(env, t))
    ensures var once := ReplaceEnvVars(env, t);
            ReplaceEnvVars(env, once) == once <==> !ScanSplit(Fixed(env), env, Out, Parse(t)).Found?
  {
    var q := Left(env, t);
    LeftIsScanned(env, t);
    if Text(q) == Fill(env, q) {
      assert [] + Text(q) == Text(q);
      NoLag(env, [], q);
    } else if AllKept(Fixed(env), q) {
      KeptIsFilled(env, q);
    }
  }

  /** The exception is one: two variables can cancel out, the value of one containing both
      references and the other being empty. */
  lemma {:induction false} SelfReferenceCanSettle(env: Env, a: string, b: string)
    requires IsName(a) && IsName(b) && env(a) == [] && env(b) == Reference(a) + Reference(b)
    ensures var once := ReplaceEnvVars(env, Reference(b));
            && ReplaceEnvVars(env, once) == once
            && ScanSplit(Fixed(env), env, Out, Parse(Reference(b))).Found?
  {
    var p := Ref([], a, Ref([], b, End([])));
    OneReference(env, b);
    assert Text(Ref([], b, End([]))) == [] + (Reference(b) + []) == Reference(b);
    assert Text(p) == [] + (Reference(a) + Reference(b)) == Reference(a) + Reference(b);
    SubstitutionIsPiecewise(env, Reference(a) + Reference(b), p);
    assert Fill(env, Ref([], b, End([]))) == [] + (env(b) + []) == env(b);
    assert Fill(env, p) == [] + ([] + env(b)) == env(b);
    LeftIsScanned(env, Reference(b));
    assert !Fixed(env)(a);
  }

  /** A value without dollar signs contains no reference. */
  lemma {:induction false} PlainIsModest(env: Env, p: Split)
    requires Clean(p) && forall name :: IsName(name) ==> '$' !in env(name)
    ensures AllModest(env, p)
  {
    if p.Ref? {
      var v, r := env(p.name), Reference(p.name);
      assert r[0] == '$';
      forall i: nat ensures !IsAt(v, r, i) {
        if i + |r| <= |v| {
          assert v[i] in v && v[i..i + |r|][0] == v[i];
        }
      }
      PlainIsModest(env, p.rest);
    }
  }

  /** With values free of dollar signs: exactly when gaps and values make up no reference. */
  lemma {:induction false} PlainTwiceIsOnceIff(env: Env, t: string)
    requires forall name :: IsName(name) ==> '$' !in env(name)
    ensures var once := ReplaceEnvVars(env, t);
            ReplaceEnvVars(env, once) == once <==> !ScanSplit(None, env, Out, Parse(t)).Found?
  {
    LeftIsScanned(env, t);
    PlainIsModest(env, Left(env, t));
    TwiceIsOnceIff(env, t);
    SplitExists(t);
    SubstitutionIsPiecewise(env, t, Parse(t));
    ScanOfFill(None, env, Out, Parse(t));
    ScanOfFill(Fixed(env), env, Out, Parse(t));
    NothingIsFixed(env, Left(env, t));
    ScanOfSplit(None, Left(env, t));
  }

  lemma NothingIsFixed(env: Env, p: Split)
    requires Clean(p) && forall name :: IsName(name) ==> '$' !in env(name)
    ensures AllKept(Fixed(env), p) <==> p.End?
    ensures AllKept(None, p) <==> p.End?
  {
    if p.Ref? {
      assert Reference(p.name)[0] == '$';
    }
  }

  // ----- Values with references -----

  /** No gap ends in the beginning of a reference. */
  predicate Closed(p: Split) {
    ScanText(None, Out, p.gap) == Out && (p.Ref? ==> Closed(p.rest))
  }

  function Join(p: Split, q: Split): Split {
    match p
    case End(gap) => PrependAll(gap, q)
    case Ref(gap, name, rest) => Ref(gap, name, Join(rest, q))
  }

  lemma {:induction false} JoinKeeps(p: Split, q: Split)
    requires Clean(p) && Closed(p) && Clean(q) && Closed(q)
    ensures Clean(Join(p, q)) && Closed(Join(p, q)) && Text(Join(p, q)) == Text(p) + Text(q)
  {
    if p.Ref? {
      JoinKeeps(p.rest, q);
      TextAfter(Reference(p.name), Text(p.rest), Text(q));
      TextAfter(p.gap, Reference(p.name) + Text(p.rest), Text(q));
    } else {
      GapJoins(p.gap, q);
    }
  }

  lemma GapJoins(gap: string, q: Split)
    requires ScanText(None, Out, gap) == Out && Clean(q) && Closed(q)
    ensures var p := PrependAll(gap, q); Clean(p) && Closed(p) && Text(p) == gap + Text(q)
  {
    GapsJoin(gap, q.gap);
    if q.Ref? {
      TextAfter(gap, q.gap, Reference(q.name) + Text(q.rest));
    }
  }

  lemma GapsJoin(a: string, b: string)
    requires ScanText(None, Out, a) == Out && ScanText(None, Out, b) == Out
    ensures ScanText(None, Out, a + b) == Out && !HasReference(a + b)
  {
    ScanConcat(None, Out, a, b);
    ScanFinds(Out, a + b);
  }

  lemma TextAfter(a: string, b: string, c: string)
    ensures (a + b) + c == a + (b + c)
  {
  }

  /** The split after one substitution, when nothing is open. */
  function Expand(env: Env, p: Split): Split {
    match p
    case End(gap) => p
    case Ref(gap, name, rest) => PrependAll(gap, Join(Parse(env(name)), Expand(env, rest)))
  }

  ghost predicate ClosedValues(env: Env) {
    forall name :: IsName(name) ==> Closed(Parse(env(name)))
  }

  /** One substitution, on splits: what it leaves is spelled by the expanded split, and by no
      other. */
  lemma {:induction false} ExpandIsParse(env: Env, p: Split)
    requires Clean(p) && Closed(p) && ClosedValues(env)
    ensures Clean(Expand(env, p)) && Closed(Expand(env, p))
    ensures Text(Expand(env, p)) == Fill(env, p) && Parse(Fill(env, p)) == Expand(env, p)
  {
    if p.Ref? {
      var value, rest := Parse(env(p.name)), Expand(env, p.rest);
      ExpandIsParse(env, p.rest);
      SplitExists(env(p.name));
      JoinKeeps(value, rest);
      assert Join(End(p.gap), Join(value, rest)) == PrependAll(p.gap, Join(value, rest));
      JoinKeeps(End(p.gap), Join(value, rest));
    }
    SplitIsUnique(env, Expand(env, p));
  }

  /** The value of every variable referred to is free of references, other than to names that
      stand for their own. */
  predicate Flat(env: Env, p: Split) {
    p.Ref? ==> AllKept(Fixed(env), Parse(env(p.name))) && Flat(env, p.rest)
  }

  lemma {:induction false} ScanOfClosed(keep: string -> bool, p: Split)
    requires Clean(p) && Closed(p) && AllKept(keep, p)
    ensures ScanText(keep, Out, Text(p)) == Out
  {
    ScanWithout(keep, Out, p.gap);
    if p.Ref? {
      ScanConcat(keep, Out, p.gap, Reference(p.name) + Text(p.rest));
      ScanConcat(keep, Out, Reference(p.name), Text(p.rest));
      ScanReference(keep, Out, p.name);
      ScanOfClosed(keep, p.rest);
    }
  }

  lemma {:induction false} FlatScans(env: Env, p: Split)
    requires Clean(p) && Closed(p) && ClosedValues(env)
    ensures ScanSplit(Fixed(env), env, Out, p).Found? <==> !Flat(env, p)
  {
    var keep := Fixed(env);
    ScanWithout(keep, Out, p.gap);
    if p.Ref? {
      var v := env(p.name);
      SplitExists(v);
      ScanOfSplit(keep, Parse(v));
      if AllKept(keep, Parse(v)) {
        ScanOfClosed(keep, Parse(v));
      }
      FlatScans(env, p.rest);
      ScanOfFill(keep, env, Found, p.rest);
      FoundStays(keep, Found, Fill(env, p.rest));
    }
  }

  /** When no gap and no value ends in the beginning of a reference, the condition is that no
      variable the text refers to has a value with a reference, other than to names that stand for
      their own. */
  lemma {:induction false} FlatTwiceIsOnceIff(env: Env, t: string)
    requires AllModest(env, Left(env, t)) && ClosedValues(env) && Closed(Parse(t))
    ensures var once := ReplaceEnvVars(env, t);
            ReplaceEnvVars(env, once) == once <==> Flat(env, Parse(t))
  {
    TwiceIsOnceIff(env, t);
    SplitExists(t);
    FlatScans(env, Parse(t));
  }

  /** A variable whose value is a reference to another: once gives that reference, twice its
      value. */
  lemma {:induction false} ChainTakesTwo(env: Env, name: string, other: string)
    requires IsName(name) && IsName(other) && env(name) == Reference(other) && env(other) != Reference(other)
    ensures var once := ReplaceEnvVars(env, Reference(name));
            once == Reference(other) && ReplaceEnvVars(env, once) == env(other) && ReplaceEnvVars(env, once) != once
  {
    OneReference(env, name);
    OneReference(env, other);
  }

  lemma OneReference(env: Env, name: string)
    requires IsName(name)
    ensures ReplaceEnvVars(env, Reference(name)) == env(name)
    ensures ReplaceEnvVars(env, "${" + name + "}") == env(name)
  {
    var p := Ref([], name, End([]));
    assert Text(p) == Reference(name) && Fill(env, p) == env(name);
    SubstitutionIsPiecewise(env, Reference(name), p);
  }

  /** In general it is not: a reference built around a reference is resolved by the second
      substitution, so the two differ unless the inner name's value names itself. */
  lemma NestedReference(env: Env, name: string)
    requires IsName(name) && IsName(env(name))
    ensures var t := "${" + Reference(name) + "}";
            && ReplaceEnvVars(env, t) == Reference(env(name))
            && ReplaceEnvVars(env, ReplaceEnvVars(env, t)) == env(env(name))
  {
    var inner := Ref("${", name, End("}"));
    assert "${" + (Reference(name) + "}") == "${" + Reference(name) + "}";
    SubstitutionIsPiecewise(env, "${" + Reference(name) + "}", inner);
    assert "${" + (env(name) + "}") == Reference(env(name));
    var outer := Ref("", env(name), End(""));
    assert "" + (Reference(env(name)) + "") == Reference(env(name));
    SubstitutionIsPiecewise(env, Reference(env(name)), outer);
    assert "" + (env(env(name)) + "") == env(env(name));
  }
}
