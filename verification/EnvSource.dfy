/** The environment source (config/source/env/env.go): NAME_OF_KEY=value entries as nested,
    lowercased keys. mergo without override fills in what is missing or empty. Lowercasing is that of
    ASCII letters. */
module EnvSource {
  import opened Common
  import opened Reading
  import opened Paths
  import Merge
  import JsonValues
  import ReaderTheorems
  import V = Versions

  // ----- One entry -----

  function Lower(c: char): char {
    if 'A' <= c <= 'Z' then c - 'A' + 'a' else c
  }

  function ToLower(s: string): (r: string)
    ensures |r| == |s|
  {
    seq(|s|, i requires 0 <= i < |s| => Lower(s[i]))
  }

  const TRUE_WORDS := {"t", "T", "TRUE", "true", "True"}
  const FALSE_WORDS := {"f", "F", "FALSE", "false", "False"}

  /** strconv.Atoi, else strconv.ParseBool (whose "0" and "1" are integers already), else the
      text. */
  function ParseValue(text: string): (v: Json)
    ensures !v.Obj? && !v.Null?
  {
    var n := V.ParseInt(text);
    if n.Some? then Num(V.Format(n.value))
    else if text in TRUE_WORDS then Bool(true)
    else if text in FALSE_WORDS then Bool(false)
    else Str(text)
  }

  function Keys(name: string): (keys: seq<string>)
    ensures keys != []
  {
    Split(ToLower(name), '_')
  }

  /** The tree with `leaf` under `keys`. */
  function Nest(keys: seq<string>, leaf: Json): Json {
    if keys == [] then leaf else Obj(map[keys[0] := Nest(keys[1..], leaf)])
  }

  function Reversed(s: seq<string>): (r: seq<string>)
    ensures |r| == |s|
  {
    seq(|s|, i requires 0 <= i < |s| => s[|s| - 1 - i])
  }

  /** reverse, in place, from the middle outwards. */
  method Reverse(ss: array<string>)
    modifies ss
    ensures ss[..] == Reversed(old(ss[..]))
  {
    ghost var was := ss[..];
    var i := ss.Length / 2 - 1;
    while i >= 0
      invariant -1 <= i && 2 * i < ss.Length
      invariant forall k :: 0 <= k <= i ==> ss[k] == was[k]
      invariant forall k :: ss.Length - 1 - i <= k < ss.Length ==> ss[k] == was[k]
      invariant forall k :: i < k < ss.Length - 1 - i ==> ss[k] == was[ss.Length - 1 - k]
    {
      var opp := ss.Length - 1 - i;
      ss[i], ss[opp] := ss[opp], ss[i];
      i := i - 1;
    }
  }

  /** The tree of one entry, built from the innermost key outwards. */
  method ReadEntry(name: string, value: string) returns (tree: Json)
    ensures tree == Nest(Keys(name), ParseValue(value))
  {
    var parts := Split(ToLower(name), '_');
    var keys := new string[|parts|](i requires 0 <= i < |parts| => parts[i]);
    assert keys[..] == parts;
    Reverse(keys);
    var leaf := ParseValue(value);
    tree := leaf;
    for i := 0 to keys.Length
      invariant tree == Nest(parts[|parts| - i..], leaf)
    {
      var k := keys[i];
      assert keys[..][i] == k;
      assert k == parts[|parts| - 1 - i];
      assert parts[|parts| - 1 - i..][1..] == parts[|parts| - i..];
      tree := Obj(map[k := tree]);
    }
    assert parts[0..] == parts;
  }

  /** The tree has exactly one leaf, at the lowercased segments of the name. */
  lemma {:induction false} NestHasOneLeaf(keys: seq<string>, leaf: Json, path: Path)
    requires !leaf.Obj?
    ensures Merge.LeafAt(Nest(keys, leaf), path) == if path == keys then Some(leaf) else None
  {
    if keys != [] && path != [] && path[0] == keys[0] {
      NestHasOneLeaf(keys[1..], leaf, path[1..]);
      assert path == keys <==> path[1..] == keys[1..];
    }
  }

  lemma {:induction false} GetOfNest(keys: seq<string>, leaf: Json, path: Path)
    requires !leaf.Obj? && !leaf.Null?
    ensures JsonValues.GetPath(Nest(keys, leaf), path) == leaf <==> path == keys
  {
    if keys == [] {
      if path != [] {
        assert JsonValues.GetPath(leaf, path) == Null;
      }
    } else if path != [] && path[0] == keys[0] {
      GetOfNest(keys[1..], leaf, path[1..]);
      assert path[1..] == keys[1..] ==> path == keys;
    }
  }

  lemma LowerHasDotIff(s: string)
    ensures '.' in ToLower(s) <==> '.' in s
  {
    if '.' in s {
      var i :| 0 <= i < |s| && s[i] == '.';
      assert ToLower(s)[i] == '.';
    }
    if '.' in ToLower(s) {
      var i :| 0 <= i < |s| && ToLower(s)[i] == '.';
      assert s[i] == '.';
    }
  }

  lemma {:induction false} SegmentWithDotIff(s: string)
    ensures '.' in s <==> exists i :: 0 <= i < |Split(s, '_')| && '.' in Split(s, '_')[i]
  {
    if s != [] {
      SegmentWithDotIff(s[1..]);
      var rest := Split(s[1..], '_');
      var all := Split(s, '_');
      if '.' in s[1..] {
        var i :| 0 <= i < |rest| && '.' in rest[i];
        assert '.' in all[if s[0] == '_' then i + 1 else i];
      } else if s[0] == '.' {
        assert '.' in all[0];
      }
    }
  }

  lemma NameHasDotIff(name: string, keys: seq<string>)
    requires keys == Keys(name)
    ensures '.' !in name <==> forall i :: 0 <= i < |keys| ==> '.' !in keys[i]
  {
    var lower := ToLower(name);
    LowerHasDotIff(name);
    SegmentWithDotIff(lower);
    if '.' in name {
      var i :| 0 <= i < |Split(lower, '_')| && '.' in Split(lower, '_')[i];
      assert '.' in keys[i];
    } else {
      forall i | 0 <= i < |keys| ensures '.' !in keys[i] {
        assert keys[i] == Split(lower, '_')[i];
      }
    }
  }

  /** An environment variable is found under its name with the underscores as dots exactly when
      the name itself contains no dot. */
  lemma EntryIsReachableIff(name: string, value: string)
    ensures var tree := Nest(Keys(name), ParseValue(value));
            JsonValues.GetPath(tree, Normalized([Join(Keys(name), '.')])) == ParseValue(value) <==> '.' !in name
  {
    var keys, leaf := Keys(name), ParseValue(value);
    var path := Normalized([Join(keys, '.')]);
    assert path == keys <==> forall i :: 0 <= i < |keys| ==> '.' !in keys[i] by {
      JoinedIsSameIff(keys);
    }
    NameHasDotIff(name, keys);
    GetOfNest(keys, leaf, path);
  }

  // ----- The whole environment -----

  datatype Entry = Entry(name: string, value: string)

  function Tree(e: Entry): Json {
    Nest(Keys(e.name), ParseValue(e.value))
  }

  /** Entries merged in order; a later one does not replace what is there, unless that is empty. */
  function Collected(entries: seq<Entry>): Json {
    if entries == [] then Obj(map[])
    else Merge.MergeTrees(Merge.Filling, Collected(entries[..|entries| - 1]), Tree(Last(entries)))
  }

  /** matchPrefix. */
  function MatchPrefix(prefixes: seq<string>, s: string): Option<string> {
    if prefixes == [] then None
    else if prefixes[0] <= s then Some(prefixes[0])
    else MatchPrefix(prefixes[1..], s)
  }

  function StripPrefix(s: string, p: string): string {
    if p <= s then s[|p|..] else s
  }

  /** The entry to read for one line of the environment: none when prefixes are configured and
      none matches; a matching prefix to strip is removed. */
  function Selected(prefixes: seq<string>, stripped: seq<string>, line: string): Option<string> {
    if prefixes == [] && stripped == [] then Some(line) else
    match MatchPrefix(stripped, line)
    case Some(p) => Some(StripPrefix(line, p))
    case None => if MatchPrefix(prefixes, line).Some? then Some(line) else None
  }

  /** strings.SplitN(line, "=", 2): None when there is no second part, on which Read panics. */
  function Cut(line: string): (e: Option<Entry>)
    ensures e.Some? <==> '=' in line
    ensures e.Some? ==> '=' !in e.value.name && line == e.value.name + ("=" + e.value.value)
  {
    if line == [] then None
    else if line[0] == '=' then Some(Entry([], line[1..]))
    else match Cut(line[1..])
      case None => None
      case Some(e) => Some(Entry([line[0]] + e.name, e.value))
  }

  /** The entries read, in order; None when one of them has no '='. */
  function AllSelected(prefixes: seq<string>, stripped: seq<string>, environ: seq<string>): Option<seq<Entry>> {
    if environ == [] then Some([]) else
    match AllSelected(prefixes, stripped, environ[..|environ| - 1])
    case None => None
    case Some(before) =>
      match Selected(prefixes, stripped, Last(environ))
      case None => Some(before)
      case Some(line) => if Cut(line).None? then None else Some(before + [Cut(line).value])
  }

  lemma {:induction false} NoneStays(prefixes: seq<string>, stripped: seq<string>, environ: seq<string>, n: nat)
    requires n <= |environ| && AllSelected(prefixes, stripped, environ[..n]).None?
    ensures AllSelected(prefixes, stripped, environ).None?
  {
    if n < |environ| {
      assert environ[..|environ| - 1][..n] == environ[..n];
      NoneStays(prefixes, stripped, environ[..|environ| - 1], n);
    } else {
      assert environ[..n] == environ;
    }
  }

  /** The loop of Read; None stands for the panic. */
  method Read(prefixes: seq<string>, stripped: seq<string>, environ: seq<string>) returns (changes: Option<Json>)
    ensures changes == match AllSelected(prefixes, stripped, environ)
                       case None => None
                       case Some(entries) => Some(Collected(entries))
  {
    var merged := Obj(map[]);
    ghost var entries := [];
    for i := 0 to |environ|
      invariant AllSelected(prefixes, stripped, environ[..i]) == Some(entries) && merged == Collected(entries)
    {
      assert environ[..i + 1][..i] == environ[..i] && Last(environ[..i + 1]) == environ[i];
      var line := Selected(prefixes, stripped, environ[i]);
      if line.Some? {
        var e := Cut(line.value);
        if e.None? {
          NoneStays(prefixes, stripped, environ, i + 1);
          return None;
        }
        var tmp := ReadEntry(e.value.name, e.value.value);
        assert (entries + [e.value])[..|entries|] == entries;
        merged := Merge.MergeTrees(Merge.Filling, merged, tmp);
        entries := entries + [e.value];
      }
    }
    assert environ[..|environ|] == environ;
    changes := Some(merged);
  }

  /** Read never panics on NAME=value lines unless a prefix to strip contains the '='. */
  lemma {:induction false} ReadSucceeds(prefixes: seq<string>, stripped: seq<string>, environ: seq<string>)
    requires forall i :: 0 <= i < |environ| ==> '=' in environ[i]
    requires forall i :: 0 <= i < |stripped| ==> '=' !in stripped[i]
    ensures AllSelected(prefixes, stripped, environ).Some?
  {
    if environ != [] {
      ReadSucceeds(prefixes, stripped, environ[..|environ| - 1]);
      StrippedHasEquals(stripped, Last(environ));
    }
  }

  lemma {:induction false} StrippedHasEquals(stripped: seq<string>, line: string)
    requires '=' in line && forall i :: 0 <= i < |stripped| ==> '=' !in stripped[i]
    ensures var p := MatchPrefix(stripped, line); p.Some? ==> '=' in StripPrefix(line, p.value)
  {
    if stripped != [] {
      if stripped[0] <= line {
        assert line == stripped[0] + line[|stripped[0]|..];
      } else {
        StrippedHasEquals(stripped[1..], line);
      }
    }
  }

  /** No entry's keys lead to another entry's. */
  ghost predicate AllApart(entries: seq<Entry>) {
    forall i, j :: 0 <= i < j < |entries| ==> JsonValues.Apart(Keys(entries[i].name), Keys(entries[j].name))
  }

  lemma {:induction false} ApartIsSymmetric(p: Path, q: Path)
    ensures JsonValues.Apart(p, q) == JsonValues.Apart(q, p)
    ensures JsonValues.Apart(p, q) ==> p != q
  {
    if p != [] && q != [] {
      ApartIsSymmetric(p[1..], q[1..]);
    }
  }

  lemma {:induction false} ApartIsCompatible(p: Path, a: Json, q: Path, b: Json)
    requires JsonValues.Apart(p, q)
    ensures Merge.Compatible(Nest(p, a), Nest(q, b))
  {
    if p[0] == q[0] {
      ApartIsCompatible(p[1..], a, q[1..], b);
    }
  }

  /** No entry's keys lead to another entry's, but several entries may have the same. */
  ghost predicate AllAgree(entries: seq<Entry>) {
    forall i, j :: 0 <= i < j < |entries| ==> Agree(entries[i], entries[j])
  }

  ghost predicate Agree(a: Entry, b: Entry) {
    Keys(a.name) == Keys(b.name) || JsonValues.Apart(Keys(a.name), Keys(b.name))
  }

  lemma {:induction false} SameKeysAreCompatible(p: Path, a: Json, b: Json)
    requires !a.Obj? && !b.Obj?
    ensures Merge.Compatible(Nest(p, a), Nest(p, b))
  {
    if p != [] {
      SameKeysAreCompatible(p[1..], a, b);
    }
  }

  lemma AgreeIsCompatible(a: Entry, b: Entry)
    requires Agree(a, b)
    ensures Merge.Compatible(Tree(a), Tree(b))
  {
    if Keys(a.name) == Keys(b.name) {
      SameKeysAreCompatible(Keys(a.name), ParseValue(a.value), ParseValue(b.value));
    } else {
      ApartIsCompatible(Keys(a.name), ParseValue(a.value), Keys(b.name), ParseValue(b.value));
    }
  }

  lemma AgreeWithout(before: seq<Entry>, last: Entry, e: Entry)
    requires AllAgree(before + [last] + [e])
    ensures AllAgree(before + [last]) && AllAgree(before + [e]) && Agree(last, e)
  {
    var all, n := before + [last] + [e], |before|;
    assert all[n] == last && all[n + 1] == e;
    forall i, j | 0 <= i < j < n + 1 ensures Agree((before + [e])[i], (before + [e])[j]) {
      assert all[i] == (before + [e])[i] && all[if j == n then n + 1 else j] == (before + [e])[j];
    }
    forall i, j | 0 <= i < j < n + 1 ensures Agree((before + [last])[i], (before + [last])[j]) {
      assert all[i] == (before + [last])[i] && all[j] == (before + [last])[j];
    }
  }

  lemma {:induction false} CollectedCompatible(entries: seq<Entry>, e: Entry)
    requires AllAgree(entries + [e])
    ensures Collected(entries).Obj? && Merge.Compatible(Tree(e), Collected(entries))
    ensures Merge.Compatible(Collected(entries), Tree(e))
  {
    if entries != [] {
      var before, last := entries[..|entries| - 1], Last(entries);
      assert entries == before + [last];
      AgreeWithout(before, last, e);
      CollectedCompatible(before, e);
      CollectedCompatible(before, last);
      AgreeIsCompatible(last, e);
      Merge.MergeStaysCompatible(Merge.Filling, Collected(before), Tree(last), Tree(e));
      CompatibleIsSymmetric(Collected(entries), Tree(e));
    }
  }

  lemma {:induction false} CompatibleIsSymmetric(a: Json, b: Json)
    ensures Merge.Compatible(a, b) == Merge.Compatible(b, a)
    decreases b
  {
    if a.Obj? && b.Obj? {
      forall k | k in a.fields && k in b.fields
        ensures Merge.Compatible(a.fields[k], b.fields[k]) == Merge.Compatible(b.fields[k], a.fields[k])
      {
        CompatibleIsSymmetric(a.fields[k], b.fields[k]);
      }
    }
  }

  /** The leaves of the collected tree are those of the entries, each at its own keys: nothing
      is lost and nothing else appears. */
  lemma {:induction false} EveryEntryIsThere(entries: seq<Entry>, path: Path)
    requires AllApart(entries)
    ensures forall i :: 0 <= i < |entries| && Keys(entries[i].name) == path ==>
      Merge.LeafAt(Collected(entries), path) == Some(ParseValue(entries[i].value))
    ensures Merge.LeafAt(Collected(entries), path).Some? ==>
      exists i :: 0 <= i < |entries| && Keys(entries[i].name) == path
  {
    if entries != [] {
      var before, last := entries[..|entries| - 1], Last(entries);
      assert before + [last] == entries;
      assert AllAgree(entries);
      CollectedCompatible(before, last);
      EveryEntryIsThere(before, path);
      Merge.LeafOfMerge(Merge.Filling, Collected(before), Tree(last), path);
      NestHasOneLeaf(Keys(last.name), ParseValue(last.value), path);
      forall i | 0 <= i < |before| ensures Keys(before[i].name) != Keys(last.name) {
        assert JsonValues.Apart(Keys(entries[i].name), Keys(entries[|entries| - 1].name));
        ApartIsSymmetric(Keys(entries[i].name), Keys(last.name));
      }
      if Merge.LeafAt(Collected(before), path).Some? {
        var i :| 0 <= i < |before| && Keys(before[i].name) == path;
        assert Keys(entries[i].name) == path;
      } else if path == Keys(last.name) {
        assert Keys(entries[|entries| - 1].name) == path;
      }
    }
  }

  /** So each entry is what the configuration holds at its keys. */
  lemma {:induction false} EveryEntryIsRead(entries: seq<Entry>, i: nat)
    requires AllApart(entries) && i < |entries|
    ensures JsonValues.GetPath(Collected(entries), Keys(entries[i].name)) == ParseValue(entries[i].value)
  {
    EveryEntryIsThere(entries, Keys(entries[i].name));
    ReaderTheorems.GetOfLeaf(Collected(entries), Keys(entries[i].name));
  }

  // ----- Several entries with the same keys -----

  /** The leaf at `path` before and after one more entry. */
  lemma LeafOfOneMore(before: seq<Entry>, last: Entry, path: Path)
    requires AllAgree(before + [last])
    ensures var leaf := Merge.LeafAt(Collected(before), path);
            Merge.LeafAt(Collected(before + [last]), path)
            == if Keys(last.name) == path && (leaf.None? || Merge.Empty(leaf.value)) then Some(ParseValue(last.value))
               else leaf
  {
    assert (before + [last])[..|before|] == before;
    CollectedCompatible(before, last);
    Merge.LeafOfMerge(Merge.Filling, Collected(before), Tree(last), path);
    NestHasOneLeaf(Keys(last.name), ParseValue(last.value), path);
  }

  lemma {:induction false} EmptyValuesOnly(entries: seq<Entry>, path: Path)
    requires AllAgree(entries)
    requires forall j :: 0 <= j < |entries| && Keys(entries[j].name) == path ==>
      Merge.Empty(ParseValue(entries[j].value))
    ensures Merge.LeafAt(Collected(entries), path).Some? ==> Merge.Empty(Merge.LeafAt(Collected(entries), path).value)
  {
    if entries != [] {
      var before, last := entries[..|entries| - 1], Last(entries);
      assert entries == before + [last];
      EmptyValuesOnly(before, path);
      LeafOfOneMore(before, last, path);
    }
  }

  /** Of several entries with the same keys the first whose value is not empty (false, 0 or the empty
      text) decides. */
  lemma {:induction false} FirstValueWins(entries: seq<Entry>, i: nat)
    requires AllAgree(entries) && i < |entries| && !Merge.Empty(ParseValue(entries[i].value))
    requires forall j :: 0 <= j < i && Keys(entries[j].name) == Keys(entries[i].name) ==>
      Merge.Empty(ParseValue(entries[j].value))
    ensures Merge.LeafAt(Collected(entries), Keys(entries[i].name)) == Some(ParseValue(entries[i].value))
  {
    var before, last := entries[..|entries| - 1], Last(entries);
    assert entries == before + [last];
    if i < |before| {
      FirstValueWins(before, i);
    } else {
      EmptyValuesOnly(before, Keys(last.name));
    }
    LeafOfOneMore(before, last, Keys(entries[i].name));
  }

  // ----- Values and lines -----

  /** The keys are what stands between the underscores of the name, with the bytes of A to Z turned
      into those of a to z. */
  lemma KeysSpellName(name: string)
    ensures var lower := Join(Keys(name), '_');
            && |lower| == |name|
            && (forall i :: 0 <= i < |Keys(name)| ==> '_' !in Keys(name)[i])
            && forall i :: 0 <= i < |name| ==>
                 lower[i] as int == name[i] as int + if 65 <= name[i] as int <= 90 then 32 else 0
  {
    JoinSplit(ToLower(name), '_');
    SegmentsAreWhole(ToLower(name), '_');
  }

  /** The words strconv.ParseBool takes, other than 0 and 1. */
  lemma WordsAre(text: string)
    ensures text in TRUE_WORDS <==> text == "t" || text == "T" || text == "true" || text == "True" || text == "TRUE"
    ensures text in FALSE_WORDS <==> text == "f" || text == "F" || text == "false" || text == "False" || text == "FALSE"
  {
  }

  lemma WordsAreNoNumbers(text: string)
    requires text in TRUE_WORDS || text in FALSE_WORDS
    ensures V.ParseInt(text).None?
  {
    NotANumber(text, text[0]);
  }

  /** What a text means: any 64-bit integer as it is printed is that number, the words of ParseBool
      are booleans, and a text with another character than digits and signs is itself otherwise. */
  lemma ValueOfText(text: string)
    ensures (forall n :: V.MIN <= n <= V.MAX && text == V.Format(n) ==> ParseValue(text) == Num(text))
    ensures text in TRUE_WORDS ==> ParseValue(text) == Bool(true)
    ensures text in FALSE_WORDS ==> ParseValue(text) == Bool(false)
    ensures text !in TRUE_WORDS && text !in FALSE_WORDS ==>
      (exists c :: c in text && !('0' <= c <= '9') && c != '-' && c != '+') ==> ParseValue(text) == Str(text)
    ensures text == "" ==> ParseValue(text) == Str("")
  {
    forall n | V.MIN <= n <= V.MAX && text == V.Format(n) ensures ParseValue(text) == Num(text) {
      V.ParseFormat(n);
    }
    if text in TRUE_WORDS || text in FALSE_WORDS {
      WordsAre(text);
      WordsAreNoNumbers(text);
    } else if c :| c in text && !('0' <= c <= '9') && c != '-' && c != '+' {
      NotANumber(text, c);
    }
  }

  lemma NotANumber(text: string, c: char)
    requires c in text && !V.IsDigit(c) && c != '-' && c != '+'
    ensures V.ParseInt(text).None?
  {
    if text[0] == '-' || text[0] == '+' {
      assert c in text[1..];
      NotNatural(text[1..], c);
    } else {
      NotNatural(text, c);
    }
  }

  lemma {:induction false} NotNatural(s: string, c: char)
    requires c in s && !V.IsDigit(c)
    ensures V.Natural(s).None?
  {
    if V.IsDigit(Last(s)) && |s| > 1 {
      assert s == s[..|s| - 1] + [Last(s)];
      NotNatural(s[..|s| - 1], c);
    }
  }

  /** `p` is the first of the prefixes that `line` starts with. */
  ghost predicate FirstMatch(prefixes: seq<string>, line: string, k: nat) {
    k < |prefixes| && prefixes[k] <= line && forall j :: 0 <= j < k ==> !(prefixes[j] <= line)
  }

  ghost predicate NoMatch(prefixes: seq<string>, line: string) {
    forall j :: 0 <= j < |prefixes| ==> !(prefixes[j] <= line)
  }

  lemma {:induction false} MatchPrefixIs(prefixes: seq<string>, line: string)
    ensures NoMatch(prefixes, line) <==> MatchPrefix(prefixes, line).None?
    ensures forall k: nat :: FirstMatch(prefixes, line, k) ==> MatchPrefix(prefixes, line) == Some(prefixes[k])
  {
    if prefixes != [] {
      MatchPrefixIs(prefixes[1..], line);
      if !(prefixes[0] <= line) {
        forall k: nat | FirstMatch(prefixes, line, k) ensures FirstMatch(prefixes[1..], line, k - 1) {
          forall j | 0 <= j < k - 1 ensures !(prefixes[1..][j] <= line) {
            assert !(prefixes[j + 1] <= line);
          }
        }
        if NoMatch(prefixes[1..], line) {
          forall j | 0 <= j < |prefixes| ensures !(prefixes[j] <= line) {
            assert j > 0 ==> !(prefixes[1..][j - 1] <= line);
          }
        }
        if NoMatch(prefixes, line) {
          forall j | 0 <= j < |prefixes[1..]| ensures !(prefixes[1..][j] <= line) {
            assert !(prefixes[j + 1] <= line);
          }
        }
      }
    }
  }

  /** Which lines are read: all when no prefixes are configured; otherwise those that start with a
      prefix to strip, without the first one that matches, and those that start with a prefix to
      keep, as they are. */
  lemma SelectedIff(prefixes: seq<string>, stripped: seq<string>, line: string)
    ensures prefixes == [] && stripped == [] ==> Selected(prefixes, stripped, line) == Some(line)
    ensures forall k: nat :: FirstMatch(stripped, line, k) ==>
      Selected(prefixes, stripped, line) == Some(line[|stripped[k]|..])
    ensures (prefixes != [] || stripped != []) && NoMatch(stripped, line) ==>
      Selected(prefixes, stripped, line) == if NoMatch(prefixes, line) then None else Some(line)
  {
    MatchPrefixIs(prefixes, line);
    MatchPrefixIs(stripped, line);
  }

  /** Lines are read one after the other: the entries of two runs of lines are those of the first
      followed by those of the second. */
  lemma {:induction false} SelectedInOrder(prefixes: seq<string>, stripped: seq<string>, a: seq<string>, b: seq<string>)
    ensures var before, after := AllSelected(prefixes, stripped, a), AllSelected(prefixes, stripped, b);
            AllSelected(prefixes, stripped, a + b)
            == if before.None? || after.None? then None else Some(before.value + after.value)
    decreases |b|
  {
    if b == [] {
      assert a + b == a;
      if AllSelected(prefixes, stripped, a).Some? {
        assert AllSelected(prefixes, stripped, a).value + [] == AllSelected(prefixes, stripped, a).value;
      }
    } else {
      assert (a + b)[..|a + b| - 1] == a + b[..|b| - 1];
      SelectedInOrder(prefixes, stripped, a, b[..|b| - 1]);
      var before, mid := AllSelected(prefixes, stripped, a), AllSelected(prefixes, stripped, b[..|b| - 1]);
      var line := Selected(prefixes, stripped, Last(b));
      if before.Some? && mid.Some? && line.Some? && Cut(line.value).Some? {
        var e := Cut(line.value).value;
        assert before.value + mid.value + [e] == before.value + (mid.value + [e]);
      }
    }
  }
}
