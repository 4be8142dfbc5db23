/** Printing a JSON tree and reading a text back, as go-simplejson does it with encoding/json
    (config/reader/json/values.go): keys are printed in byte order, numbers keep their text,
    and reading takes the first JSON value of the text and ignores what follows it, which is
    how json.Decoder.Decode works. Grammar: sections 2 to 7 of RFC 8259. */
module JsonPrint {
  import opened Common
  import opened Reading
  import opened JsonNumber
  import opened JsonText
  import V = Versions

  // ----- Printing -----

  ghost predicate IsLeast(k: string, keys: set<string>) {
    k in keys && forall o :: o in keys && o != k ==> V.Less(k, o)
  }

  lemma LeastExists(keys: set<string>)
    requires keys != {}
    ensures exists k :: IsLeast(k, keys)
  {
    var x :| x in keys;
    if keys == {x} {
      assert IsLeast(x, keys);
    } else {
      LeastExists(keys - {x});
      var k :| IsLeast(k, keys - {x});
      V.LessTotal(x, k);
      if V.Less(x, k) {
        forall o | o in keys && o != x ensures V.Less(x, o) {
          if o != k {
            V.LessTransitive(x, k, o);
          }
        }
        assert IsLeast(x, keys);
      } else {
        assert IsLeast(k, keys);
      }
    }
  }

  /** The keys in byte order. */
  ghost function SortedKeys(keys: set<string>): (s: seq<string>)
    ensures forall k :: k in s <==> k in keys
    ensures |s| == |keys|
  {
    if keys == {} then [] else
    LeastExists(keys);
    var k :| IsLeast(k, keys);
    [k] + SortedKeys(keys - {k})
  }

  lemma {:induction false} KeysAscend(keys: set<string>, i: nat, j: nat)
    requires i < j < |keys|
    ensures V.Less(SortedKeys(keys)[i], SortedKeys(keys)[j])
  {
    var all := SortedKeys(keys);
    var k := all[0];
    if i > 0 {
      KeysAscend(keys - {k}, i - 1, j - 1);
    } else {
      assert all[j] in all[1..] && all[1..] == SortedKeys(keys - {k});
    }
  }

  ghost function Print(v: Json): string
    decreases v, 1
  {
    match v
    case Null => "null"
    case Bool(b) => if b then "true" else "false"
    case Num(text) => text
    case Str(s) => Quote(s)
    case Arr(_) => "[" + PrintItems(v, 0)
    case Obj(fields) => "{" + PrintMembers(v, SortedKeys(fields.Keys))
  }

  /** The rest of an array from its element `i` on. */
  ghost function PrintItems(v: Json, i: nat): string
    requires v.Arr? && i <= |v.items|
    decreases v, 0, |v.items| - i
  {
    if i == |v.items| then "]" else
    Print(v.items[i]) + (if i + 1 == |v.items| then "]" else "," + PrintItems(v, i + 1))
  }

  ghost function PrintMembers(v: Json, keys: seq<string>): string
    requires v.Obj? && forall k :: k in keys ==> k in v.fields
    decreases v, 0, |keys|
  {
    if keys == [] then "}" else
    Quote(keys[0]) +
    (":" + (Print(v.fields[keys[0]]) + (if |keys| == 1 then "}" else "," + PrintMembers(v, keys[1..]))))
  }

  // ----- Reading -----

  predicate IsSpace(c: char) {
    c == ' ' || c == '\t' || c == '\r' || c == '\n'
  }

  function SkipSpace(t: string): (r: string)
    ensures |r| <= |t|
    ensures r != [] ==> !IsSpace(r[0])
    ensures t != [] && !IsSpace(t[0]) ==> r == t
  {
    if t != [] && IsSpace(t[0]) then SkipSpace(t[1..]) else t
  }

  datatype Parsed = Parsed(v: Json, rest: string)

  function ReadLiteral(t: string, word: string, v: Json): (r: Option<Parsed>)
    requires word != []
    ensures r.Some? ==> |r.value.rest| < |t|
  {
    if word <= t then Some(Parsed(v, t[|word|..])) else None
  }

  /** A literal name or a number. */
  function ReadBare(t: string): (r: Option<Parsed>)
    requires t != []
    ensures r.Some? ==> |r.value.rest| < |t|
  {
    if t[0] == 'n' then ReadLiteral(t, "null", Null)
    else if t[0] == 't' then ReadLiteral(t, "true", Bool(true))
    else if t[0] == 'f' then ReadLiteral(t, "false", Bool(false))
    else
      match NumberRun(t)
      case None => None
      case Some(n) => Some(Parsed(Num(t[..n]), t[n..]))
  }

  /** The first JSON value of `t`. */
  function ReadValue(t: string): (r: Option<Parsed>)
    ensures r.Some? ==> |r.value.rest| < |t|
    decreases |t|, 1
  {
    var t := SkipSpace(t);
    if t == [] then None
    else if t[0] == '"' then
      match ReadString(t[1..])
      case None => None
      case Some(read) => Some(Parsed(Str(read.text), read.rest))
    else if t[0] == '[' then
      var body := SkipSpace(t[1..]);
      if body != [] && body[0] == ']' then Some(Parsed(Arr([]), body[1..])) else
      match ReadItems(t[1..])
      case None => None
      case Some((items, rest)) => Some(Parsed(Arr(items), rest))
    else if t[0] == '{' then
      var body := SkipSpace(t[1..]);
      if body != [] && body[0] == '}' then Some(Parsed(Obj(map[]), body[1..])) else
      match ReadMembers(t[1..])
      case None => None
      case Some((fields, rest)) => Some(Parsed(Obj(fields), rest))
    else ReadBare(t)
  }

  /** The items of an array up to its closing bracket; there is at least one. */
  function ReadItems(t: string): (r: Option<(seq<Json>, string)>)
    ensures r.Some? ==> |r.value.1| < |t|
    decreases |t|, 2
  {
    match ReadValue(t)
    case None => None
    case Some(item) =>
      var after := SkipSpace(item.rest);
      if after == [] then None
      else if after[0] == ']' then Some(([item.v], after[1..]))
      else if after[0] == ',' then
        match ReadItems(after[1..])
        case None => None
        case Some((items, rest)) => Some(([item.v] + items, rest))
      else None
  }

  /** The members of an object up to its closing brace; a later duplicate wins. */
  function ReadMembers(t: string): (r: Option<(map<string, Json>, string)>)
    ensures r.Some? ==> |r.value.1| < |t|
    decreases |t|, 2
  {
    match ReadKey(t)
    case None => None
    case Some(key) =>
      match ReadValue(key.rest)
      case None => None
      case Some(field) =>
        var after := SkipSpace(field.rest);
        if after == [] then None
        else if after[0] == '}' then Some((map[key.text := field.v], after[1..]))
        else if after[0] == ',' then
          match ReadMembers(after[1..])
          case None => None
          case Some((fields, rest)) => Some((map[key.text := field.v] + fields, rest))
        else None
  }

  /** A key and its colon. */
  function ReadKey(t: string): (r: Option<Read>)
    ensures r.Some? ==> |r.value.rest| < |t|
  {
    var t := SkipSpace(t);
    if t == [] || t[0] != '"' then None else
    match ReadString(t[1..])
    case None => None
    case Some(key) =>
      var after := SkipSpace(key.rest);
      if after == [] || after[0] != ':' then None else Some(Read(key.text, after[1..]))
  }

  /** Spaces in front do not matter. */
  lemma SpaceIsSkipped(c: char, t: string)
    requires c as int == 32 || c as int == 9 || c as int == 10 || c as int == 13
    ensures ReadValue([c] + t) == ReadValue(t)
  {
    assert ([c] + t)[1..] == t;
    assert SkipSpace([c] + t) == SkipSpace(t);
    SkipTwice(t);
  }

  lemma {:induction false} SkipTwice(t: string)
    ensures SkipSpace(SkipSpace(t)) == SkipSpace(t)
  {
  }

  /** How trees look: brackets and commas, braces and colons. */
  lemma ArraysLook(a: Json, b: Json)
    ensures Print(Arr([])) == "[]"
    ensures Print(Arr([a, b])) == "[" + (Print(a) + ("," + (Print(b) + "]")))
  {
    var both := Arr([a, b]);
    assert PrintItems(both, 1) == Print(b) + "]";
    assert PrintItems(both, 0) == Print(a) + ("," + PrintItems(both, 1));
  }

  lemma ObjectsLook(a: Json, b: Json, j: string, k: string, v: Json)
    requires V.Less(j, k) && v == Obj(map[j := a, k := b])
    ensures Print(Obj(map[])) == "{}"
    ensures Print(v) == "{" + (Quote(j) + (":" + (Print(a) + ("," + (Quote(k) + (":" + (Print(b) + "}")))))))
  {
    V.LessAsymmetric(j, k);
    TwoKeys(j, k);
    assert v.fields.Keys == {j, k} && v.fields[j] == a && v.fields[k] == b;
    MembersLook(v, j, k);
  }

  lemma MembersLook(v: Json, j: string, k: string)
    requires v.Obj? && j in v.fields && k in v.fields
    ensures PrintMembers(v, [j, k])
         == Quote(j) + (":" + (Print(v.fields[j]) + ("," + (Quote(k) + (":" + (Print(v.fields[k]) + "}"))))))
  {
    assert [j, k][1..] == [k];
    assert PrintMembers(v, [k]) == Quote(k) + (":" + (Print(v.fields[k]) + "}"));
  }

  lemma TwoKeys(j: string, k: string)
    requires V.Less(j, k)
    ensures SortedKeys({j, k}) == [j, k]
  {
    V.LessAsymmetric(j, k);
    var keys := SortedKeys({j, k});
    assert |{j, k}| == 2;
    KeysAscend({j, k}, 0, 1);
    assert keys[0] in keys && keys[1] in keys;
  }
}
