/** The tree view of a configuration (config/reader/json/values.go): paths, Set and Del, and the
    print-and-reparse every watched value goes through. The path operations are those of
    go-simplejson. */
module JsonValues {
  import opened Common
  import opened Reading
  import opened JsonNumber
  import opened JsonPrint
  import opened JsonRoundTrip
  import opened JsonText
  import opened EnvVars
  import V = Versions
  import ConfigLayer
  import LoaderCore

  // ----- Paths -----

  /** Get: missing keys, and keys of anything but an object, give a null value. */
  function GetPath(v: Json, path: Path): Json {
    if path == [] then v
    else if v.Obj? && path[0] in v.fields then GetPath(v.fields[path[0]], path[1..])
    else Null
  }

  /** Whether every key of `path` is really there. */
  predicate Exists(v: Json, path: Path) {
    path != [] ==> v.Obj? && path[0] in v.fields && Exists(v.fields[path[0]], path[1..])
  }

  /** Set: whatever stands in the way is replaced by an object. */
  function SetPath(v: Json, path: Path, val: Json): Json
    decreases |path|
  {
    if path == [] then val else
    var fields := if v.Obj? then v.fields else map[];
    var child := if path[0] in fields then fields[path[0]] else Null;
    Obj(fields[path[0] := SetPath(child, path[1..], val)])
  }

  function DelKey(v: Json, key: string): Json {
    if v.Obj? then Obj(v.fields - {key}) else v
  }

  /** Del: the parent is looked up, loses the key, and is stored back. */
  function DelPath(v: Json, path: Path): Json {
    if path == [] then Obj(map[])
    else if |path| == 1 then DelKey(v, path[0])
    else
      var parent := path[..|path| - 1];
      SetPath(v, parent, DelKey(GetPath(v, parent), Last(path)))
  }

  /** What was set is what is read, at the path and below it. */
  lemma {:induction false} GetAfterSet(v: Json, path: Path, below: Path, val: Json)
    ensures GetPath(SetPath(v, path, val), path + below) == GetPath(val, below)
    ensures Exists(SetPath(v, path, val), path)
    decreases |path|
  {
    if path == [] {
      assert path + below == below;
    } else {
      var fields := if v.Obj? then v.fields else map[];
      GetAfterSet(if path[0] in fields then fields[path[0]] else Null, path[1..], below, val);
      assert (path + below)[1..] == path[1..] + below;
    }
  }

  /** Neither path leads to the other. */
  predicate Apart(p: Path, q: Path) {
    p != [] && q != [] && (p[0] == q[0] ==> Apart(p[1..], q[1..]))
  }

  /** Setting one path changes no value at a path apart from it. */
  lemma {:induction false} SetChangesNothingElse(v: Json, path: Path, other: Path, val: Json)
    requires Apart(path, other)
    ensures GetPath(SetPath(v, path, val), other) == GetPath(v, other)
    decreases |path|
  {
    if path[0] == other[0] {
      var fields := if v.Obj? then v.fields else map[];
      var child := if path[0] in fields then fields[path[0]] else Null;
      SetChangesNothingElse(child, path[1..], other[1..], val);
    }
  }

  lemma {:induction false} SetTwice(v: Json, path: Path, x: Json, y: Json)
    ensures SetPath(SetPath(v, path, x), path, y) == SetPath(v, path, y)
    decreases |path|
  {
    if path != [] {
      var fields := if v.Obj? then v.fields else map[];
      var child := if path[0] in fields then fields[path[0]] else Null;
      var inner := SetPath(child, path[1..], x);
      SetTwice(child, path[1..], x, y);
      assert SetPath(v, path, x) == Obj(fields[path[0] := inner]);
      assert fields[path[0] := inner][path[0] := SetPath(inner, path[1..], y)]
          == fields[path[0] := SetPath(inner, path[1..], y)];
    }
  }

  lemma {:induction false} SetOfGet(v: Json, path: Path)
    requires Exists(v, path)
    ensures SetPath(v, path, GetPath(v, path)) == v
  {
    if path != [] {
      SetOfGet(v.fields[path[0]], path[1..]);
      assert v.fields[path[0] := v.fields[path[0]]] == v.fields;
    }
  }

  /** After Del nothing is found at the path, and paths apart from it keep their values. */
  lemma DelRemoves(v: Json, path: Path, other: Path)
    requires path != []
    ensures GetPath(DelPath(v, path), path) == Null
    ensures Apart(path, other) ==> GetPath(DelPath(v, path), other) == GetPath(v, other)
  {
    if |path| > 1 {
      var parent, key := path[..|path| - 1], Last(path);
      var p := GetPath(v, parent);
      assert path == parent + [key];
      GetAfterSet(v, parent, [key], DelKey(p, key));
      if Apart(path, other) {
        DelFrame(v, parent, key, other);
      }
    } else {
      assert path[1..] == [];
      if Apart(path, other) {
        assert [] + [path[0]] == path;
        DelFrame(v, [], path[0], other);
      }
    }
  }

  lemma {:induction false} DelFrame(v: Json, parent: Path, key: string, other: Path)
    requires Apart(parent + [key], other)
    ensures GetPath(SetPath(v, parent, DelKey(GetPath(v, parent), key)), other) == GetPath(v, other)
    decreases |parent|
  {
    if parent == [] {
      assert (parent + [key])[1..] == [];
    } else {
      assert (parent + [key])[1..] == parent[1..] + [key];
      if parent[0] == other[0] {
        var fields := if v.Obj? then v.fields else map[];
        if parent[0] in fields {
          DelFrame(fields[parent[0]], parent[1..], key, other[1..]);
        } else {
          DelFrame(Null, parent[1..], key, other[1..]);
        }
      }
    }
  }

  /** Removal as one would expect it: the key goes if it is there, nothing else happens. */
  function Removed(v: Json, path: Path): Json
    requires path != []
  {
    if !v.Obj? || path[0] !in v.fields then v
    else if |path| == 1 then Obj(v.fields - {path[0]})
    else Obj(v.fields[path[0] := Removed(v.fields[path[0]], path[1..])])
  }

  /** Del does only that exactly when the path has one key or its parent exists. Otherwise it
      stores a null parent, building objects on the way and replacing the values it meets. */
  lemma DelIsRemovalIff(v: Json, path: Path)
    requires path != []
    ensures DelPath(v, path) == Removed(v, path) <==> |path| == 1 || Exists(v, path[..|path| - 1])
  {
    if |path| == 1 {
      assert v.Obj? && path[0] !in v.fields ==> v.fields - {path[0]} == v.fields;
    } else {
      var parent := path[..|path| - 1];
      GetAfterSet(v, parent, [], DelKey(GetPath(v, parent), Last(path)));
      if Exists(v, parent) {
        DelUnderParent(v, path);
      } else {
        RemovedMissing(v, path);
      }
    }
  }

  lemma {:induction false} DelUnderParent(v: Json, path: Path)
    requires |path| > 1 && Exists(v, path[..|path| - 1])
    ensures DelPath(v, path) == Removed(v, path)
  {
    var parent := path[..|path| - 1];
    var child := v.fields[path[0]];
    assert parent[1..] == path[1..][..|path| - 2] && Last(path[1..]) == Last(path);
    if |path| == 2 {
      assert parent == [path[0]] && parent[1..] == [];
      assert GetPath(v, parent) == child;
      assert path[1..] == [Last(path)];
      assert child.Obj? && Last(path) !in child.fields ==> child.fields - {Last(path)} == child.fields;
      assert Removed(child, path[1..]) == DelKey(child, Last(path));
      assert SetPath(child, parent[1..], DelKey(child, Last(path))) == DelKey(child, Last(path));
    } else {
      DelUnderParent(child, path[1..]);
    }
  }

  lemma {:induction false} RemovedMissing(v: Json, path: Path)
    requires |path| > 1 && !Exists(v, path[..|path| - 1])
    ensures Removed(v, path) == v
  {
    if v.Obj? && path[0] in v.fields {
      var parent := path[..|path| - 1];
      assert parent[1..] == path[1..][..|path| - 2];
      assert |path| > 2;
      RemovedMissing(v.fields[path[0]], path[1..]);
      assert v.fields[path[0] := v.fields[path[0]]] == v.fields;
    }
  }

  /** For instance it loses a value: deleting a.b.c from {"a": 5}. */
  lemma DelLosesValue()
    ensures DelPath(Obj(map["a" := Num("5")]), ["a", "b", "c"]) == Obj(map["a" := Obj(map["b" := Null])])
  {
    var v := Obj(map["a" := Num("5")]);
    var path := ["a", "b", "c"];
    assert path[..2] == ["a", "b"] && ["a", "b"][1..] == ["b"] && ["b"][1..] == [];
    assert GetPath(v, ["a", "b"]) == Null;
    assert SetPath(Num("5"), ["b"], Null) == Obj(map["b" := Null]);
  }

  // ----- The mutable tree -----

  /** What go-simplejson's Get gives for one key. */
  function Child(v: Json, key: string): Json {
    if v.Obj? && key in v.fields then v.fields[key] else Null
  }

  class Values {
    var sj: Json

    constructor (sj: Json)
      ensures this.sj == sj
    {
      this.sj := sj;
    }

    /** The loop of GetPath: one key after the other. */
    method Get(path: Path) returns (v: Json)
      ensures v == GetPath(sj, path)
    {
      v := sj;
      for i := 0 to |path|
        invariant GetPath(v, path[i..]) == GetPath(sj, path)
      {
        assert path[i..][1..] == path[i + 1..];
        v := Child(v, path[i]);
      }
    }

    /** The value is there afterwards, at the path and below it, and every path that neither
        leads to it nor lies below it gives what it gave before. */
    method Set(val: Json, path: Path)
      modifies this
      ensures sj == SetPath(old(sj), path, val) && Exists(sj, path)
      ensures forall below: Path :: GetPath(sj, path + below) == GetPath(val, below)
      ensures forall other: Path :: Apart(path, other) ==> GetPath(sj, other) == GetPath(old(sj), other)
    {
      ghost var was := sj;
      sj := SetPath(sj, path, val);
      GetAfterSet(was, path, [], val);
      forall below: Path ensures GetPath(sj, path + below) == GetPath(val, below) {
        GetAfterSet(was, path, below, val);
      }
      forall other: Path | Apart(path, other) ensures GetPath(sj, other) == GetPath(was, other) {
        SetChangesNothingElse(was, path, other, val);
      }
    }

    /** Nothing is found at the path afterwards, and paths apart from it give what they gave; the
        tree is the one with just that key taken out exactly when the key's parent is there. */
    method Del(path: Path)
      modifies this
      ensures sj == DelPath(old(sj), path)
      ensures path == [] ==> sj == Obj(map[])
      ensures path != [] ==> GetPath(sj, path) == Null
      ensures path != [] ==> forall other: Path :: Apart(path, other) ==> GetPath(sj, other) == GetPath(old(sj), other)
      ensures path != [] ==> (sj == Removed(old(sj), path) <==> |path| == 1 || Exists(old(sj), path[..|path| - 1]))
    {
      if path == [] {
        sj := Obj(map[]);
        return;
      }
      ghost var was := sj;
      if |path| == 1 {
        sj := DelKey(sj, path[0]);
      } else {
        var vals := GetPath(sj, path[..|path| - 1]);
        vals := DelKey(vals, path[|path| - 1]);
        sj := SetPath(sj, path[..|path| - 1], vals);
      }
      assert sj == DelPath(was, path);
      DelIsRemovalIff(was, path);
      forall other: Path
        ensures GetPath(sj, path) == Null && (Apart(path, other) ==> GetPath(sj, other) == GetPath(was, other))
      {
        DelRemoves(was, path, other);
      }
    }
  }

  // ----- Printing and reading back -----

  /** jsonValue.Bytes: a string's own bytes, anything else as JSON. */
  ghost function Bytes(v: Json): string {
    if v.Str? then v.s else Print(v)
  }

  /** newValues: the text after substitution, or the raw text as a string when it does not
      start with a JSON value. */
  function NewValues(env: Env, data: string): Json {
    match ReadValue(ReplaceEnvVars(env, data))
    case None => Str(data)
    case Some(parsed) => parsed.v
  }

  /** The references in a text are replaced before it is read, whatever the split of the text: if
      what then stands there starts with a printed tree, that tree is the value. */
  lemma SubstitutedIsRead(env: Env, data: string, p: Split, v: Json, rest: string)
    requires Clean(p) && Text(p) == data && Fill(env, p) == Print(v) + rest
    requires WellFormed(v) && Ends(rest)
    ensures NewValues(env, data) == v
  {
    SubstitutionIsPiecewise(env, data, p);
    ReadPrint(v, rest);
  }

  /** If it starts with no JSON value, the value is the text as it was before. */
  lemma UnreadableIsRaw(env: Env, data: string, p: Split)
    requires Clean(p) && Text(p) == data && ReadValue(Fill(env, p)).None?
    ensures NewValues(env, data) == Str(data)
  {
    SubstitutionIsPiecewise(env, data, p);
  }

  /** A reference alone becomes what its variable spells: ${PORT} with PORT=8080 is a number. */
  lemma VariableIsRead(env: Env, name: string, v: Json)
    requires IsName(name) && WellFormed(v) && env(name) == Print(v)
    ensures NewValues(env, "${" + name + "}") == v
  {
    var p := Ref([], name, End([]));
    assert Text(p) == "${" + name + "}";
    assert Fill(env, p) == Print(v) + "";
    SubstitutedIsRead(env, "${" + name + "}", p, v, "");
  }

  /** A watched value goes through its bytes; it comes back as itself exactly when it is not a
      string that starts with a JSON value, and such a string comes back as that value. */
  lemma RebuiltIsSameIff(env: Env, v: Json)
    requires WellFormed(v) && ReplaceEnvVars(env, Bytes(v)) == Bytes(v)
    ensures NewValues(env, Bytes(v)) == v <==> !(v.Str? && ReadValue(v.s).Some?)
    ensures v.Str? && ReadValue(v.s).Some? ==> NewValues(env, Bytes(v)) == ReadValue(v.s).value.v
  {
    if !v.Str? {
      ReadPrint(v, "");
      assert Print(v) + "" == Print(v);
    }
  }

  /** Two values have the same bytes, so that a watcher takes one for the other, exactly when
      they are equal or one is a string that spells the other. */
  lemma {:induction false} SameBytesIff(a: Json, b: Json)
    requires WellFormed(a) && WellFormed(b)
    ensures Bytes(a) == Bytes(b) <==>
      a == b || (a.Str? && !b.Str? && a.s == Print(b)) || (b.Str? && !a.Str? && b.s == Print(a))
  {
    if !a.Str? && !b.Str? && Print(a) == Print(b) {
      ReadPrint(a, "");
      ReadPrint(b, "");
    }
  }

  // ----- The reader the configuration uses -----

  /** jsonReader, with the merge left abstract. */
  ghost function JsonReader(env: Env, merge: seq<Option<ChangeSet>> -> Option<ChangeSet>,
        sum: string -> string): Reader
  {
    Reader(merge,
           (cs: ChangeSet) => if cs.format != "json" then None else Some(NewValues(env, cs.data)),
           (v: Json, path: Path) => Some(GetPath(v, path)),
           (v: Json) => Bytes(v),
           sum,
           "json")
  }

  /** The reader parses JSON change sets only, after substitution, and finds in them what the tree
      has at a path. */
  lemma {:induction false} ReaderParses(env: Env, merge: seq<Option<ChangeSet>> -> Option<ChangeSet>,
        sum: string -> string, cs: ChangeSet, p: Split, v: Json, path: Path)
    requires Clean(p) && Text(p) == cs.data && Fill(env, p) == Print(v) && WellFormed(v)
    ensures var r := JsonReader(env, merge, sum);
            && r.values(cs) == (if cs.format == "json" then Some(v) else None)
            && r.get(v, path) == Some(GetPath(v, path))
  {
    assert Print(v) + "" == Print(v);
    SubstitutedIsRead(env, cs.data, p, v, "");
  }

  /** End to end: the value a user's Next returns for a delivered value is that value exactly
      when it is not a string starting with a JSON value. */
  lemma {:induction false} UserGetsValueIff(env: Env, merge: seq<Option<ChangeSet>> -> Option<ChangeSet>,
        sum: string -> string, v: Json, version: int)
    requires WellFormed(v) && ReplaceEnvVars(env, Bytes(v)) == Bytes(v)
    ensures var r := JsonReader(env, merge, sum);
            (ConfigLayer.Answer(r, Snapshot(LoaderCore.Render(r, v), version)) == Some(v))
            <==> !(v.Str? && ReadValue(v.s).Some?)
  {
    RebuiltIsSameIff(env, v);
  }

  /** An address or version such as 10.0.0.1 is a string that starts with a JSON value: it
      comes back as the number made of its first two parts. */
  lemma {:induction false} DottedBecomesNumber(env: Env, t: string, a: string, b: string, rest: string)
    requires AllDigits(a) && AllDigits(b) && (|a| > 1 ==> a[0] != '0')
    requires rest != [] && rest[0] == '.'
    requires t == a + ("." + (b + rest)) && ReplaceEnvVars(env, t) == t
    ensures NewValues(env, Bytes(Str(t))) == Num(a + ("." + b))
  {
    var n := DottedShape(t, a, b, rest);
    NumberIsTaken(env, t, n);
  }

  lemma DottedShape(t: string, a: string, b: string, rest: string) returns (n: nat)
    requires AllDigits(a) && AllDigits(b) && (|a| > 1 ==> a[0] != '0')
    requires rest != [] && rest[0] == '.' && t == a + ("." + (b + rest))
    ensures t != [] && V.IsDigit(t[0]) && NumberRun(t) == Some(n) && t[..n] == a + ("." + b)
  {
    n := |a| + 1 + |b|;
    DottedRun(a, b, rest);
  }

  lemma NumberIsTaken(env: Env, t: string, n: nat)
    requires t != [] && V.IsDigit(t[0]) && NumberRun(t) == Some(n) && ReplaceEnvVars(env, t) == t
    ensures NewValues(env, Bytes(Str(t))) == Num(t[..n])
  {
    ReadRun(t, n);
  }

  lemma ReadRun(t: string, n: nat)
    requires t != [] && V.IsDigit(t[0]) && NumberRun(t) == Some(n)
    ensures ReadValue(t) == Some(Parsed(Num(t[..n]), t[n..]))
  {
    ReadNumberRun(t, n);
    ReadBareValue(t);
  }

  /** The string "10" and the number 10 have the same bytes: a watcher sees no change between
      them, and the user is given the number for both. */
  lemma {:induction false} NumberAndItsText(env: Env, text: string)
    requires NumberRun(text) == Some(|text|) && ReplaceEnvVars(env, text) == text
    ensures Bytes(Str(text)) == Bytes(Num(text))
    ensures NewValues(env, Bytes(Str(text))) == Num(text)
  {
    ReadNumber(text, "");
    assert text + "" == text;
  }
}
