/** Merging change sets (config/reader/json/json.go). What is assumed of mergo is that it merges
    maps recursively. What it does with a value that is empty (null, false, 0, "", an empty list or
    object) where there is already another is not assumed: a rule says so, and the theorems hold
    for each rule. */
module Merge {
  import opened Common
  import opened Reading
  import LoaderRuns
  import LoaderTheorems

  // ----- The merge of two trees -----

  /** With override a source value replaces what is there, always (Replacing) or unless it is
      empty and what is there is not (Skipping). Without override it fills in what is missing or
      empty (Filling). */
  datatype Rule = Replacing | Skipping | Filling

  predicate IsZero(text: string) {
    text == [] || text[0] in "eE" || (!('1' <= text[0] <= '9') && IsZero(text[1..]))
  }

  predicate Empty(v: Json) {
    match v
    case Null => true
    case Bool(b) => !b
    case Num(text) => IsZero(text)
    case Str(s) => s == ""
    case Arr(items) => items == []
    case Obj(fields) => fields == map[]
  }

  /** What counts as empty. */
  lemma EmptyValues(zero: string, one: string)
    requires zero == "0" && one == "1"
    ensures Empty(Null) && Empty(Bool(false)) && Empty(Num(zero)) && Empty(Str([]))
    ensures Empty(Arr([])) && Empty(Obj(map[]))
    ensures !Empty(Bool(true)) && !Empty(Num(one)) && !Empty(Str(zero)) && !Empty(Arr([Null]))
    ensures !Empty(Obj(map[zero := Null]))
  {
    assert zero[1..] == [] && one[1..] == [];
    assert zero in map[zero := Null];
  }

  /** What becomes of `a` when the source has `b`, not both being objects. */
  function Pick(rule: Rule, a: Json, b: Json): Json {
    match rule
    case Replacing => b
    case Skipping => if Empty(b) && !Empty(a) then a else b
    case Filling => if Empty(a) then b else a
  }

  function MergeTrees(rule: Rule, a: Json, b: Json): Json
    decreases b
  {
    if a.Obj? && b.Obj? then Obj(MergeFields(rule, a.fields, b)) else Pick(rule, a, b)
  }

  function MergeFields(rule: Rule, a: map<string, Json>, b: Json): (m: map<string, Json>)
    requires b.Obj?
    ensures m.Keys == a.Keys + b.fields.Keys
    decreases b, 0
  {
    map k | k in a.Keys + b.fields.Keys ::
      if k !in b.fields then a[k] else if k !in a then b.fields[k] else MergeTrees(rule, a[k], b.fields[k])
  }

  /** A non-object at `path`. */
  function LeafAt(v: Json, path: Path): Option<Json> {
    if !v.Obj? then (if path == [] then Some(v) else None)
    else if path == [] || path[0] !in v.fields then None
    else LeafAt(v.fields[path[0]], path[1..])
  }

  /** Wherever both have a value, both have an object or neither has. */
  predicate Compatible(a: Json, b: Json) {
    if a.Obj? && b.Obj? then forall k :: k in a.fields && k in b.fields ==> Compatible(a.fields[k], b.fields[k])
    else !a.Obj? && !b.Obj?
  }

  lemma {:induction false} LeafOfMerge(rule: Rule, a: Json, b: Json, path: Path)
    requires Compatible(a, b)
    ensures var la, lb := LeafAt(a, path), LeafAt(b, path);
            LeafAt(MergeTrees(rule, a, b), path)
            == if la.None? then lb else if lb.None? then la else Some(Pick(rule, la.value, lb.value))
    decreases b
  {
    if a.Obj? && path != [] && path[0] in a.fields && path[0] in b.fields {
      LeafOfMerge(rule, a.fields[path[0]], b.fields[path[0]], path[1..]);
    }
  }

  lemma {:induction false} MergeStaysCompatible(rule: Rule, a: Json, b: Json, c: Json)
    requires Compatible(a, b) && Compatible(a, c) && Compatible(b, c)
    ensures Compatible(MergeTrees(rule, a, b), c)
    decreases b
  {
    if a.Obj? {
      var m := MergeTrees(rule, a, b);
      assert m == Obj(MergeFields(rule, a.fields, b));
      forall k | k in m.fields && k in c.fields ensures Compatible(m.fields[k], c.fields[k]) {
        if k in a.fields && k in b.fields {
          MergeStaysCompatible(rule, a.fields[k], b.fields[k], c.fields[k]);
        } else if k in a.fields {
          assert m.fields[k] == a.fields[k];
        } else {
          assert m.fields[k] == b.fields[k];
        }
      }
    }
  }

  /** What the sources contribute, merged from the first to the last. */
  function MergeSources(rule: Rule, trees: seq<Json>): Json {
    if trees == [] then Obj(map[]) else MergeTrees(rule, MergeSources(rule, trees[..|trees| - 1]), Last(trees))
  }

  /** The leaf of the last source that has one at `path`. */
  function LastLeaf(trees: seq<Json>, path: Path): Option<Json> {
    if trees == [] then None
    else if LeafAt(Last(trees), path).Some? then LeafAt(Last(trees), path)
    else LastLeaf(trees[..|trees| - 1], path)
  }

  ghost predicate AllCompatible(trees: seq<Json>) {
    && (forall i :: 0 <= i < |trees| ==> trees[i].Obj?)
    && (forall i, j :: 0 <= i < j < |trees| ==> Compatible(trees[i], trees[j]))
  }

  lemma {:induction false} MergedCompatible(rule: Rule, trees: seq<Json>, t: Json)
    requires AllCompatible(trees) && t.Obj? && forall i :: 0 <= i < |trees| ==> Compatible(trees[i], t)
    ensures MergeSources(rule, trees).Obj? && Compatible(MergeSources(rule, trees), t)
  {
    if trees != [] {
      var before := trees[..|trees| - 1];
      MergedCompatible(rule, before, Last(trees));
      MergedCompatible(rule, before, t);
      MergeStaysCompatible(rule, MergeSources(rule, before), Last(trees), t);
    }
  }

  /** The last leaf at `path` that is not empty. */
  function LastFull(trees: seq<Json>, path: Path): Option<Json> {
    if trees == [] then None
    else if LeafAt(Last(trees), path).Some? && !Empty(LeafAt(Last(trees), path).value) then LeafAt(Last(trees), path)
    else LastFull(trees[..|trees| - 1], path)
  }

  /** For sources that agree on what is an object, every path has the leaf of the last source
      that defines it or, under the rule that skips empty values, of the last source that defines
      it with a value that is not empty, if there is one. */
  lemma {:induction false} LeafOfSources(rule: Rule, trees: seq<Json>, path: Path)
    requires AllCompatible(trees) && !rule.Filling?
    ensures LeafAt(MergeSources(rule, trees), path)
         == if rule.Skipping? && LastFull(trees, path).Some? then LastFull(trees, path) else LastLeaf(trees, path)
  {
    if trees != [] {
      var before := trees[..|trees| - 1];
      MergedCompatible(rule, before, Last(trees));
      LeafOfSources(rule, before, path);
      LeafOfMerge(rule, MergeSources(rule, before), Last(trees), path);
      FullIsLeaf(before, path);
    }
  }

  lemma {:induction false} FullIsLeaf(trees: seq<Json>, path: Path)
    ensures LastFull(trees, path).Some? ==> LastLeaf(trees, path).Some? && !Empty(LastFull(trees, path).value)
    ensures LastFull(trees, path).None? && LastLeaf(trees, path).Some? ==> Empty(LastLeaf(trees, path).value)
    ensures LastLeaf(trees, path).Some? && !Empty(LastLeaf(trees, path).value) ==>
              LastFull(trees, path) == LastLeaf(trees, path)
  {
    if trees != [] {
      FullIsLeaf(trees[..|trees| - 1], path);
    }
  }

  /** So the last source defining a path wins exactly when empty values replace, or its value is
      not empty, or no source has one that is not. */
  lemma {:induction false} LastSourceWinsIff(rule: Rule, trees: seq<Json>, path: Path)
    requires AllCompatible(trees) && !rule.Filling?
    ensures LeafAt(MergeSources(rule, trees), path) == LastLeaf(trees, path)
      <==> rule.Replacing? || LastFull(trees, path).None? ||
           (LastLeaf(trees, path).Some? && !Empty(LastLeaf(trees, path).value))
  {
    LeafOfSources(rule, trees, path);
    FullIsLeaf(trees, path);
  }

  /** A source that turns a flag off again: whether it does depends on the rule. */
  lemma FalseIsSkipped(on: Json, off: Json)
    requires on == Obj(map["debug" := Bool(true)]) && off == Obj(map["debug" := Bool(false)])
    ensures LeafAt(MergeTrees(Replacing, on, off), ["debug"]) == Some(Bool(false))
    ensures LeafAt(MergeTrees(Skipping, on, off), ["debug"]) == Some(Bool(true))
  {
    LeafOfMerge(Replacing, on, off, ["debug"]);
    LeafOfMerge(Skipping, on, off, ["debug"]);
    assert ["debug"][1..] == [];
  }

  // ----- Associativity -----

  /** `c` has every key that `a` has, also inside the objects below, and under the rule that skips
      empty values it is not empty where `a` is not. */
  predicate Overlays(rule: Rule, a: Json, c: Json)
    decreases c
  {
    if a.Obj? && c.Obj? then forall k :: k in a.fields ==> k in c.fields && Overlays(rule, a.fields[k], c.fields[k])
    else rule.Skipping? && Empty(c) ==> Empty(a)
  }

  /** Exactly then nothing of `a` is left when `c` is merged into it. */
  lemma {:induction false} OverlaysIff(rule: Rule, a: Json, c: Json)
    requires !rule.Filling?
    ensures Overlays(rule, a, c) <==> MergeTrees(rule, a, c) == c
    decreases c
  {
    if a.Obj? && c.Obj? {
      var m := MergeFields(rule, a.fields, c);
      forall k | k in a.fields && k in c.fields
        ensures Overlays(rule, a.fields[k], c.fields[k]) <==> m[k] == c.fields[k]
      {
        OverlaysIff(rule, a.fields[k], c.fields[k]);
      }
      if Overlays(rule, a, c) {
        assert m == c.fields;
      }
    }
  }

  /** Nowhere does `b` put a leaf between an object of `a` and an object of `c` that does not
      overlay it; under the rule that skips empty values, a leaf or an object that is empty does
      not count. */
  predicate Covered(rule: Rule, a: Json, b: Json, c: Json)
    decreases c
  {
    if !a.Obj? || !c.Obj? then true
    else if !b.Obj? then (rule.Skipping? && (Empty(b) || Empty(c))) || Overlays(rule, a, c)
    else
      forall k :: k in a.fields && k in b.fields && k in c.fields ==>
        Covered(rule, a.fields[k], b.fields[k], c.fields[k])
  }

  /** Merging is associative exactly then, so that in general the loader has to merge all its
      sets again rather than merge a change into its last snapshot. */
  lemma {:induction false} AssociativeIff(rule: Rule, a: Json, b: Json, c: Json)
    requires !rule.Filling?
    ensures MergeTrees(rule, MergeTrees(rule, a, b), c) == MergeTrees(rule, a, MergeTrees(rule, b, c))
      <==> Covered(rule, a, b, c)
    decreases c
  {
    if a.Obj? && !b.Obj? && c.Obj? {
      OverlaysIff(rule, a, c);
    } else if a.Obj? && c.Obj? {
      var left, right := MergeTrees(rule, MergeTrees(rule, a, b), c), MergeTrees(rule, a, MergeTrees(rule, b, c));
      assert left.fields.Keys == right.fields.Keys;
      forall k | k in left.fields
        ensures left.fields[k] == right.fields[k] <==>
          (k in a.fields && k in b.fields && k in c.fields ==> Covered(rule, a.fields[k], b.fields[k], c.fields[k]))
      {
        AssociativeAt(rule, a, b, c, k);
        if k in a.fields && k in b.fields && k in c.fields {
          AssociativeIff(rule, a.fields[k], b.fields[k], c.fields[k]);
        }
      }
      if Covered(rule, a, b, c) {
        assert left.fields == right.fields;
      } else {
        var k :| k in a.fields && k in b.fields && k in c.fields &&
          !Covered(rule, a.fields[k], b.fields[k], c.fields[k]);
        assert left.fields[k] != right.fields[k];
      }
    }
  }

  /** Both groupings at one key. */
  lemma AssociativeAt(rule: Rule, a: Json, b: Json, c: Json, k: string)
    requires a.Obj? && b.Obj? && c.Obj? && (k in a.fields || k in b.fields || k in c.fields)
    ensures var left, right := MergeTrees(rule, MergeTrees(rule, a, b), c), MergeTrees(rule, a, MergeTrees(rule, b, c));
            && k in left.fields && k in right.fields
            && if k in a.fields && k in b.fields && k in c.fields then
                 && left.fields[k] == MergeTrees(rule, MergeTrees(rule, a.fields[k], b.fields[k]), c.fields[k])
                 && right.fields[k] == MergeTrees(rule, a.fields[k], MergeTrees(rule, b.fields[k], c.fields[k]))
               else left.fields[k] == right.fields[k]
  {
    var ab, bc := MergeTrees(rule, a, b), MergeTrees(rule, b, c);
    assert ab == Obj(MergeFields(rule, a.fields, b)) && bc == Obj(MergeFields(rule, b.fields, c));
    assert MergeTrees(rule, ab, c) == Obj(MergeFields(rule, ab.fields, c));
    assert MergeTrees(rule, a, bc) == Obj(MergeFields(rule, a.fields, bc));
  }

  lemma {:induction false} CompatibleIsAssociative(rule: Rule, a: Json, b: Json, c: Json)
    requires !rule.Filling? && Compatible(a, b) && Compatible(b, c)
    ensures MergeTrees(rule, MergeTrees(rule, a, b), c) == MergeTrees(rule, a, MergeTrees(rule, b, c))
    decreases c
  {
    CompatibleIsCovered(rule, a, b, c);
    AssociativeIff(rule, a, b, c);
  }

  lemma {:induction false} CompatibleIsCovered(rule: Rule, a: Json, b: Json, c: Json)
    requires Compatible(a, b) && Compatible(b, c)
    ensures Covered(rule, a, b, c)
    decreases c
  {
    if a.Obj? {
      forall k | k in a.fields && k in b.fields && k in c.fields
        ensures Covered(rule, a.fields[k], b.fields[k], c.fields[k])
      {
        CompatibleIsCovered(rule, a.fields[k], b.fields[k], c.fields[k]);
      }
    }
  }

  /** The clash: an object with a leaf at `x`, then a leaf that is not empty, then an object
      without `x`, all at `k`. Merged from the left x is gone; merging the last two first brings it
      back. For example {"k": {"x": 1}}, {"k": 5}, {"k": {"y": 2}}. */
  lemma ClashIsNotAssociative(rule: Rule, k: string, x: string, y: string, ka: Json, kb: Json, kc: Json)
    requires !rule.Filling? && x != y && !kb.Obj? && !Empty(kb)
    requires ka == Obj(map[x := Num("1")]) && kc == Obj(map[y := Num("2")])
    ensures var a, b, c := Obj(map[k := ka]), Obj(map[k := kb]), Obj(map[k := kc]);
            && !Covered(rule, a, b, c)
            && LeafAt(MergeTrees(rule, MergeTrees(rule, a, b), c), [k, x]) == None
            && LeafAt(MergeTrees(rule, a, MergeTrees(rule, b, c)), [k, x]) == Some(Num("1"))
  {
    var a, b, c := Obj(map[k := ka]), Obj(map[k := kb]), Obj(map[k := kc]);
    assert x in ka.fields && y in kc.fields && x !in kc.fields;
    assert !Empty(ka) && !Empty(kc);
    AssociativeAt(rule, a, b, c, k);
    assert MergeTrees(rule, MergeTrees(rule, ka, kb), kc) == kc;
    var both := MergeTrees(rule, ka, kc);
    assert MergeTrees(rule, ka, MergeTrees(rule, kb, kc)) == both;
    assert both == Obj(MergeFields(rule, ka.fields, kc));
    assert x in both.fields && both.fields[x] == Num("1");
    assert both != kc;
    assert [k, x][1..] == [x] && [x][1..] == [];
    assert LeafAt(both, [x]) == Some(Num("1"));
    assert LeafAt(MergeTrees(rule, a, MergeTrees(rule, b, c)), [k, x]) == LeafAt(both, [x]);
  }

  // ----- Merge of change sets -----

  /** A codec decodes into a map, possibly nil, or fails; `encode` prints a possibly nil map. */
  datatype Codecs = Codecs(
    byFormat: map<string, string -> Option<Option<map<string, Json>>>>,
    json: string -> Option<Option<map<string, Json>>>,
    encode: Option<map<string, Json>> -> Option<string>,
    sum: string -> string)

  function Decode(c: Codecs, cs: ChangeSet): Option<Option<map<string, Json>>> {
    if cs.format in c.byFormat then c.byFormat[cs.format](cs.data) else c.json(cs.data)
  }

  /** One decoded change set merged into what came before it. */
  function MergeOne(rule: Rule, merged: Option<map<string, Json>>, data: Option<map<string, Json>>):
    Option<map<string, Json>>
  {
    match data
    case None => merged
    case Some(fields) => Some(MergeFields(rule, if merged.Some? then merged.value else map[], Obj(fields)))
  }

  predicate Skipped(cs: Option<ChangeSet>) {
    cs.None? || cs.value.data == ""
  }

  /** Everything merged in order; None when some data does not decode. */
  function MergeAll(rule: Rule, c: Codecs, changes: seq<Option<ChangeSet>>): Option<Option<map<string, Json>>> {
    if changes == [] then Some(None) else
    match MergeAll(rule, c, changes[..|changes| - 1])
    case None => None
    case Some(merged) => MergeNext(rule, c, merged, Last(changes))
  }

  function MergeNext(rule: Rule, c: Codecs, merged: Option<map<string, Json>>, cs: Option<ChangeSet>):
    Option<Option<map<string, Json>>>
  {
    if Skipped(cs) then Some(merged) else
    match Decode(c, cs.value)
    case None => None
    case Some(data) => Some(MergeOne(rule, merged, data))
  }

  lemma MergeAllNext(rule: Rule, c: Codecs, changes: seq<Option<ChangeSet>>, i: nat, merged: Option<map<string, Json>>)
    requires i < |changes| && MergeAll(rule, c, changes[..i]) == Some(merged)
    ensures MergeAll(rule, c, changes[..i + 1]) == MergeNext(rule, c, merged, changes[i])
  {
    assert changes[..i + 1][..i] == changes[..i] && Last(changes[..i + 1]) == changes[i];
  }

  function Render(c: Codecs, merged: Option<map<string, Json>>): Option<ChangeSet> {
    match c.encode(merged)
    case None => None
    case Some(text) => Some(ChangeSet(text, c.sum(text), "json", "json"))
  }

  lemma {:induction false} FailedPrefix(rule: Rule, c: Codecs, changes: seq<Option<ChangeSet>>, n: nat)
    requires n <= |changes| && MergeAll(rule, c, changes[..n]).None?
    ensures MergeAll(rule, c, changes).None?
    decreases |changes| - n
  {
    if n == |changes| {
      assert changes[..n] == changes;
    } else {
      assert changes[..n + 1][..n] == changes[..n];
      FailedPrefix(rule, c, changes, n + 1);
    }
  }

  function MergeResult(rule: Rule, c: Codecs, changes: seq<Option<ChangeSet>>): Option<ChangeSet> {
    match MergeAll(rule, c, changes)
    case None => None
    case Some(merged) => Render(c, merged)
  }

  /** jsonReader.Merge. */
  method Merge(rule: Rule, c: Codecs, changes: seq<Option<ChangeSet>>) returns (r: Option<ChangeSet>)
    ensures r == MergeResult(rule, c, changes)
  {
    var merged: Option<map<string, Json>> := None;
    for i := 0 to |changes|
      invariant MergeAll(rule, c, changes[..i]) == Some(merged)
    {
      MergeAllNext(rule, c, changes, i, merged);
      if changes[i].None? {
        continue;
      }
      var m := changes[i].value;
      if |m.data| == 0 {
        continue;
      }
      var data := if m.format in c.byFormat then c.byFormat[m.format](m.data) else c.json(m.data);
      if data.None? {
        FailedPrefix(rule, c, changes, i + 1);
        return None;
      }
      if data.value.Some? {
        merged := Some(MergeFields(rule, if merged.Some? then merged.value else map[], Obj(data.value.value)));
      }
    }
    assert changes[..|changes|] == changes;
    var text := c.encode(merged);
    if text.None? {
      return None;
    }
    r := Some(ChangeSet(text.value, c.sum(text.value), "json", "json"));
  }

  /** Nil and empty change sets do not matter. */
  lemma {:induction false} SkippedDoNotMatter(rule: Rule, c: Codecs, changes: seq<Option<ChangeSet>>)
    ensures MergeAll(rule, c, changes)
         == MergeAll(rule, c, Filter(changes, (cs: Option<ChangeSet>) => cs.Some? && cs.value.data != ""))
  {
    if changes != [] {
      var before := changes[..|changes| - 1];
      SkippedDoNotMatter(rule, c, before);
      var kept := Filter(before, (cs: Option<ChangeSet>) => cs.Some? && cs.value.data != "");
      assert (kept + [Last(changes)])[..|kept|] == kept;
    }
  }

  /** `data` is what the codec for its format, or the JSON codec for a format that has none, makes
      of a change set. */
  ghost predicate Decodes(c: Codecs, cs: ChangeSet, data: Option<Option<map<string, Json>>>) {
    if cs.format in c.byFormat then data == c.byFormat[cs.format](cs.data) else data == c.json(cs.data)
  }

  /** The maps of change sets that all decode; a nil or empty one gives none, and so does one that
      decodes to null. */
  ghost predicate DecodesTo(c: Codecs, changes: seq<Option<ChangeSet>>, datas: seq<Option<map<string, Json>>>) {
    && |datas| == |changes|
    && forall i :: 0 <= i < |changes| ==>
         if changes[i].None? || changes[i].value.data == "" then datas[i].None?
         else Decodes(c, changes[i].value, Some(datas[i]))
  }

  function TreeOf(data: Option<map<string, Json>>): Json {
    Obj(if data.Some? then data.value else map[])
  }

  function Trees(datas: seq<Option<map<string, Json>>>): (trees: seq<Json>)
    ensures |trees| == |datas| && forall i :: 0 <= i < |trees| ==> trees[i].Obj?
  {
    seq(|datas|, i requires 0 <= i < |datas| => TreeOf(datas[i]))
  }

  lemma MergeNothing(rule: Rule, a: map<string, Json>, b: map<string, Json>)
    ensures MergeFields(rule, a, Obj(map[])) == a && MergeFields(rule, map[], Obj(b)) == b
  {
  }

  /** One more change set, merged into a map or into nothing. */
  lemma MergedNext(rule: Rule, c: Codecs, merged: Option<map<string, Json>>, cs: Option<ChangeSet>,
        data: Option<map<string, Json>>)
    requires if cs.None? || cs.value.data == "" then data.None? else Decodes(c, cs.value, Some(data))
    ensures var tree := MergeTrees(rule, TreeOf(merged), TreeOf(data));
            && tree.Obj?
            && MergeNext(rule, c, merged, cs) == Some(if merged.None? && data.None? then None else Some(tree.fields))
            && (merged.None? && data.None? ==> tree == Obj(map[]))
  {
    MergeNothing(rule, TreeOf(merged).fields, TreeOf(data).fields);
  }

  /** The reader's merge is the merge of the decoded trees; it is nil when there is none. */
  lemma {:induction false} MergeAllIsMergeSources(rule: Rule, c: Codecs, changes: seq<Option<ChangeSet>>,
        datas: seq<Option<map<string, Json>>>)
    requires DecodesTo(c, changes, datas)
    ensures MergeSources(rule, Trees(datas)).Obj?
    ensures MergeAll(rule, c, changes)
         == Some(if AllNil(datas) then None else Some(MergeSources(rule, Trees(datas)).fields))
    ensures AllNil(datas) ==> MergeSources(rule, Trees(datas)) == Obj(map[])
  {
    if changes != [] {
      var n := |changes| - 1;
      MergeAllIsMergeSources(rule, c, changes[..n], datas[..n]);
      assert Trees(datas)[..n] == Trees(datas[..n]);
      AllNilMore(datas, n);
      MergedNext(rule, c, MergeAll(rule, c, changes[..n]).value, changes[n], datas[n]);
    }
  }

  predicate AllNil(datas: seq<Option<map<string, Json>>>) {
    forall i :: 0 <= i < |datas| ==> datas[i].None?
  }

  lemma AllNilMore(datas: seq<Option<map<string, Json>>>, n: nat)
    requires n + 1 == |datas|
    ensures AllNil(datas) <==> AllNil(datas[..n]) && datas[n].None?
  {
    if AllNil(datas[..n]) && datas[n].None? {
      forall i | 0 <= i < |datas| ensures datas[i].None? {
        assert i < n ==> datas[..n][i].None?;
      }
    }
  }

  /** Both together: after Merge, every path has the leaf of the last change set defining it,
      or the last that is not empty, as the rule says. */
  lemma MergedLeaf(rule: Rule, c: Codecs, changes: seq<Option<ChangeSet>>, datas: seq<Option<map<string, Json>>>,
        path: Path)
    requires DecodesTo(c, changes, datas) && AllCompatible(Trees(datas)) && !rule.Filling?
    requires !AllNil(datas)
    ensures MergeAll(rule, c, changes).Some? && MergeAll(rule, c, changes).value.Some?
    ensures LeafAt(Obj(MergeAll(rule, c, changes).value.value), path) == Wins(rule, Trees(datas), path)
  {
    MergeAllIsMergeSources(rule, c, changes, datas);
    LeafOfSources(rule, Trees(datas), path);
  }

  /** The leaf of the last source that has one, or of the last that has one which is not empty. */
  function Wins(rule: Rule, trees: seq<Json>, path: Path): Option<Json> {
    if rule.Skipping? && LastFull(trees, path).Some? then LastFull(trees, path) else LastLeaf(trees, path)
  }

  /** The JSON codec reads back what it printed for this map. */
  ghost predicate Survives(c: Codecs, fields: Option<map<string, Json>>) {
    c.encode(fields).Some? && c.json(c.encode(fields).value) == Some(fields)
  }

  /** The change set Merge returns: JSON, with the checksum of its data, and its data decode to the
      merged tree, whose leaf at every path is the one that wins there. */
  lemma MergedChangeSet(rule: Rule, c: Codecs, changes: seq<Option<ChangeSet>>,
        datas: seq<Option<map<string, Json>>>, path: Path)
    requires DecodesTo(c, changes, datas) && AllCompatible(Trees(datas)) && !rule.Filling?
    requires !AllNil(datas)
    requires MergeSources(rule, Trees(datas)).Obj? && Survives(c, Some(MergeSources(rule, Trees(datas)).fields))
    ensures var r := MergeResult(rule, c, changes);
            && r.Some? && r.value.format == "json" && r.value.source == "json"
            && r.value.checksum == c.sum(r.value.data)
            && var back := c.json(r.value.data);
               && back.Some? && back.value.Some? && Obj(back.value.value) == MergeSources(rule, Trees(datas))
               && LeafAt(Obj(back.value.value), path) == Wins(rule, Trees(datas), path)
  {
    MergeAllIsMergeSources(rule, c, changes, datas);
    MergedLeaf(rule, c, changes, datas, path);
  }

  /** Without any data, as for the placeholders of a new loader, what comes out decodes to nil. */
  lemma {:induction false} NothingMergesToNil(rule: Rule, c: Codecs, changes: seq<Option<ChangeSet>>)
    requires forall i :: 0 <= i < |changes| ==> changes[i].None? || changes[i].value.data == ""
    requires Survives(c, None)
    ensures var r := MergeResult(rule, c, changes); r.Some? && c.json(r.value.data) == Some(None)
  {
    var datas := seq(|changes|, i => None);
    MergeAllIsMergeSources(rule, c, changes, datas);
  }

  // ----- A set that does not decode -----

  ghost predicate Undecodable(c: Codecs, cs: Option<ChangeSet>) {
    cs.Some? && cs.value.data != "" && Decodes(c, cs.value, None)
  }

  /** Merging fails exactly when one of the change sets does not decode. */
  lemma {:induction false} MergeFailsIff(rule: Rule, c: Codecs, changes: seq<Option<ChangeSet>>)
    ensures MergeAll(rule, c, changes).None? <==> exists i :: 0 <= i < |changes| && Undecodable(c, changes[i])
  {
    if changes != [] {
      var n := |changes| - 1;
      MergeFailsIff(rule, c, changes[..n]);
      assert changes == changes[..n] + [changes[n]];
      if i :| 0 <= i < n && Undecodable(c, changes[..n][i]) {
        assert Undecodable(c, changes[i]);
      }
      if i :| 0 <= i < |changes| && Undecodable(c, changes[i]) {
        assert i < n ==> Undecodable(c, changes[..n][i]);
      }
    }
  }

  /** The loader's reader merges as jsonReader.Merge does. */
  ghost predicate MergesBy(r: Reader, rule: Rule, c: Codecs) {
    forall changes: seq<Option<ChangeSet>> :: r.merge(changes) == MergeResult(rule, c, changes)
  }

  /** In the loader: a change set that does not decode blocks every reload and every event of the
      other sources until its own source delivers another. */
  lemma {:induction false} UndecodableBlocksInstalls(rule: Rule, c: Codecs, r: Reader, s: LoaderRuns.System,
        k: nat, actions: seq<LoaderRuns.Action>)
    requires MergesBy(r, rule, c)
    requires LoaderRuns.WorkersInv(s.core, s.workers) && k < |s.workers| && s.workers[k].received != []
    requires Undecodable(c, Last(s.workers[k].received))
    requires forall a :: a in actions ==> !a.DoSync? && !(a.DoEvent? && a.worker == k)
    ensures LoaderRuns.Run(r, s, actions).history == s.history
    ensures LoaderRuns.Run(r, s, actions).core.snap == s.core.snap
  {
    var cs, idx := Last(s.workers[k].received), s.workers[k].idx;
    forall sets: seq<Option<ChangeSet>> | idx < |sets| && sets[idx] == cs ensures r.merge(sets).None? {
      assert Undecodable(c, sets[idx]);
      MergeFailsIff(rule, c, sets);
    }
    LoaderTheorems.BadSetBlocks(r, s, k, actions);
  }
}
