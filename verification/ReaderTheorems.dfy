/** From change sets to values: what jsonReader.Merge returns, read by jsonReader.Values
    (config/reader/json/json.go:20-72, config/reader/json/values.go:38-49). */
module ReaderTheorems {
  import opened Common
  import opened Reading
  import opened JsonPrint
  import opened JsonRoundTrip
  import opened JsonText
  import opened EnvVars
  import JsonValues
  import Merge

  /** Merging well-formed trees gives one. */
  lemma {:induction false} MergeKeepsWellFormed(rule: Merge.Rule, a: Json, b: Json)
    requires WellFormed(a) && WellFormed(b)
    ensures WellFormed(Merge.MergeTrees(rule, a, b))
    decreases b
  {
    if a.Obj? && b.Obj? {
      var m := Merge.MergeFields(rule, a.fields, b);
      forall k | k in m ensures ValidUtf8(k) && WellFormed(m[k]) {
        if k in a.fields && k in b.fields {
          MergeKeepsWellFormed(rule, a.fields[k], b.fields[k]);
        }
      }
    }
  }

  lemma {:induction false} MergedIsWellFormed(rule: Merge.Rule, trees: seq<Json>)
    requires forall i :: 0 <= i < |trees| ==> WellFormed(trees[i])
    ensures WellFormed(Merge.MergeSources(rule, trees))
  {
    if trees != [] {
      MergedIsWellFormed(rule, trees[..|trees| - 1]);
      MergeKeepsWellFormed(rule, Merge.MergeSources(rule, trees[..|trees| - 1]), Last(trees));
    }
  }

  /** Get and the leaves of a tree agree. */
  lemma {:induction false} GetOfLeaf(v: Json, path: Path)
    requires Merge.LeafAt(v, path).Some?
    ensures JsonValues.GetPath(v, path) == Merge.LeafAt(v, path).value
  {
    if v.Obj? {
      GetOfLeaf(v.fields[path[0]], path[1..]);
    }
  }

  /** The reader of the configuration with its merge. */
  ghost function JsonReader(env: Env, rule: Merge.Rule, c: Merge.Codecs): Reader {
    JsonValues.JsonReader(env, (changes: seq<Option<ChangeSet>>) => Merge.MergeResult(rule, c, changes), c.sum)
  }

  /** The encoder prints this map as JSON with sorted keys. */
  ghost predicate Prints(c: Merge.Codecs, tree: Json) {
    tree.Obj? && c.encode(Some(tree.fields)) == Some(Print(tree))
  }

  /** Change sets that decode are merged into one whose values are the merged tree with its
      references replaced. */
  lemma {:induction false} MergedIsParsed(env: Env, rule: Merge.Rule, c: Merge.Codecs,
        changes: seq<Option<ChangeSet>>, datas: seq<Option<map<string, Json>>>, merged: Json, filled: Json)
    requires Merge.DecodesTo(c, changes, datas) && !Merge.AllNil(datas)
    requires merged == Merge.MergeSources(rule, Merge.Trees(datas)) && Prints(c, merged)
    requires WellFormed(filled) && Fill(env, Parse(Print(merged))) == Print(filled)
    ensures var r := JsonReader(env, rule, c);
            r.merge(changes).Some? && r.values(r.merge(changes).value) == Some(filled)
  {
    var r := JsonReader(env, rule, c);
    Merge.MergeAllIsMergeSources(rule, c, changes, datas);
    SplitExists(Print(merged));
    JsonValues.ReaderParses(env, r.merge, c.sum, r.merge(changes).value, Parse(Print(merged)), filled, []);
  }

  /** End to end: without references, Get finds at every path the leaf of the last change set that
      has one there, or of the last whose leaf is not empty, as the rule says. */
  lemma {:induction false} GetFindsWinningLeaf(env: Env, rule: Merge.Rule, c: Merge.Codecs,
        changes: seq<Option<ChangeSet>>, datas: seq<Option<map<string, Json>>>, merged: Json, path: Path)
    requires Merge.DecodesTo(c, changes, datas) && !Merge.AllNil(datas) && !rule.Filling?
    requires Merge.AllCompatible(Merge.Trees(datas))
    requires forall i :: 0 <= i < |datas| ==> WellFormed(Merge.TreeOf(datas[i]))
    requires merged == Merge.MergeSources(rule, Merge.Trees(datas)) && Prints(c, merged)
    requires !HasReference(Print(merged)) && Merge.Wins(rule, Merge.Trees(datas), path).Some?
    ensures var r := JsonReader(env, rule, c);
            && r.merge(changes).Some? && r.values(r.merge(changes).value) == Some(merged)
            && r.get(merged, path) == Merge.Wins(rule, Merge.Trees(datas), path)
  {
    var text := Print(merged);
    MergedIsWellFormed(rule, Merge.Trees(datas));
    SplitExists(text);
    SubstitutionIsPiecewise(env, text, Parse(text));
    MergedIsParsed(env, rule, c, changes, datas, merged, merged);
    Merge.LeafOfSources(rule, Merge.Trees(datas), path);
    GetOfLeaf(merged, path);
  }
}
