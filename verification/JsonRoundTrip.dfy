/** Reading a printed JSON tree gives it back (config/reader/json/values.go). */
module JsonRoundTrip {
  import opened Common
  import opened Reading
  import opened JsonNumber
  import opened JsonPrint
  import opened JsonText

  /** What a document can contain: grammatical numbers and valid UTF-8. */
  ghost predicate WellFormed(v: Json) {
    match v
    case Num(text) => NumberRun(text) == Some(|text|)
    case Str(s) => ValidUtf8(s)
    case Arr(items) => forall i :: 0 <= i < |items| ==> WellFormed(items[i])
    case Obj(fields) => forall k :: k in fields ==> ValidUtf8(k) && WellFormed(fields[k])
    case _ => true
  }

  lemma ReadNumber(p: string, rest: string)
    requires NumberRun(p) == Some(|p|) && Ends(rest)
    ensures ReadValue(p + rest) == Some(Parsed(Num(p), rest))
  {
    NumberRunConcat(p, rest);
    assert (p + rest)[..|p|] == p && (p + rest)[|p|..] == rest;
    ReadNumberRun(p + rest, |p|);
    ReadBareValue(p + rest);
  }

  lemma ReadNumberRun(t: string, n: nat)
    requires t != [] && (t[0] == '-' || V.IsDigit(t[0])) && NumberRun(t) == Some(n)
    ensures ReadBare(t) == Some(Parsed(Num(t[..n]), t[n..]))
  {
  }

  lemma ReadBareValue(t: string)
    requires t != [] && !IsSpace(t[0]) && t[0] != '"' && t[0] != '[' && t[0] != '{'
    ensures ReadValue(t) == ReadBare(t)
  {
  }

  lemma ReadQuotedValue(s: string, rest: string)
    requires ValidUtf8(s)
    ensures ReadValue(Quote(s) + rest) == Some(Parsed(Str(s), rest))
  {
    QuoteRoundTrip(s, rest);
  }

  lemma ReadWord(word: string, v: Json, rest: string)
    requires (word == "null" && v == Null) ||
             (word == "true" && v == Bool(true)) || (word == "false" && v == Bool(false))
    ensures ReadValue(word + rest) == Some(Parsed(v, rest))
  {
    assert word <= word + rest && (word + rest)[|word|..] == rest;
  }

  /** The printed form starts with a character that is neither a space nor a closing bracket. */
  lemma PrintStart(v: Json)
    requires WellFormed(v)
    ensures Print(v) != [] && !IsSpace(Print(v)[0]) && Print(v)[0] != ']' && Print(v)[0] != '}'
  {
  }

  /** Reading the printed form of a document value gives the value back and stops right after
      it. */
  lemma {:induction false} ReadPrint(v: Json, rest: string)
    requires WellFormed(v) && Ends(rest)
    ensures ReadValue(Print(v) + rest) == Some(Parsed(v, rest))
    decreases v, 1
  {
    match v
    case Null => ReadWord("null", v, rest);
    case Bool(b) => ReadWord(if b then "true" else "false", v, rest);
    case Num(text) => ReadNumber(text, rest);
    case Str(s) => ReadQuotedValue(s, rest);
    case Arr(_) => ReadPrintArray(v, rest);
    case Obj(_) => ReadPrintObject(v, rest);
  }

  lemma ReadPrintArray(v: Json, rest: string)
    requires v.Arr? && WellFormed(v)
    ensures ReadValue(Print(v) + rest) == Some(Parsed(v, rest))
    decreases v, 0, |v.items| + 1
  {
    var body := PrintItems(v, 0) + rest;
    assert Print(v) + rest == "[" + body;
    if v.items == [] {
      ReadEmpty("[", rest);
    } else {
      ReadPrintedItems(v, 0, rest);
      PrintStart(v.items[0]);
      assert body[0] == Print(v.items[0])[0];
      ReadArray(body);
    }
  }

  lemma ReadPrintObject(v: Json, rest: string)
    requires v.Obj? && WellFormed(v)
    ensures ReadValue(Print(v) + rest) == Some(Parsed(v, rest))
    decreases v, 0, |v.fields.Keys| + 1
  {
    var keys := SortedKeys(v.fields.Keys);
    var body := PrintMembers(v, keys) + rest;
    assert Print(v) + rest == "{" + body;
    if keys == [] {
      assert v.fields.Keys == {};
      assert v.fields == map[];
      ReadEmpty("{", rest);
    } else {
      ReadPrintedMembers(v, keys, rest);
      assert (map k | k in keys :: v.fields[k]) == v.fields;
      ReadObject(body);
    }
  }

  lemma ReadEmpty(open: string, rest: string)
    requires open == "[" || open == "{"
    ensures ReadValue(open + ((if open == "[" then "]" else "}") + rest))
         == Some(Parsed(if open == "[" then Arr([]) else Obj(map[]), rest))
  {
    var close := if open == "[" then "]" else "}";
    assert (open + (close + rest))[1..] == close + rest && (close + rest)[1..] == rest;
  }

  lemma ReadArray(body: string)
    requires body != [] && !IsSpace(body[0]) && body[0] != ']'
    ensures ReadValue("[" + body) ==
      match ReadItems(body)
      case None => None
      case Some((items, rest)) => Some(Parsed(Arr(items), rest))
  {
    assert ("[" + body)[1..] == body;
  }

  lemma ReadObject(body: string)
    requires body != [] && !IsSpace(body[0]) && body[0] != '}'
    ensures ReadValue("{" + body) ==
      match ReadMembers(body)
      case None => None
      case Some((fields, rest)) => Some(Parsed(Obj(fields), rest))
  {
    assert ("{" + body)[1..] == body;
  }

  lemma ReadLastItem(t: string, item: Json, rest: string)
    requires ReadValue(t) == Some(Parsed(item, "]" + rest))
    ensures ReadItems(t) == Some(([item], rest))
  {
    assert ("]" + rest)[1..] == rest;
  }

  lemma ReadNextItem(t: string, item: Json, more: string, items: seq<Json>, rest: string)
    requires ReadValue(t) == Some(Parsed(item, "," + more)) && ReadItems(more) == Some((items, rest))
    ensures ReadItems(t) == Some(([item] + items, rest))
  {
    assert ("," + more)[1..] == more;
  }

  lemma {:induction false} ReadPrintedItems(v: Json, i: nat, rest: string)
    requires v.Arr? && WellFormed(v) && i < |v.items|
    ensures ReadItems(PrintItems(v, i) + rest) == Some((v.items[i..], rest))
    decreases v, 0, |v.items| - i
  {
    var t := PrintItems(v, i) + rest;
    if i + 1 == |v.items| {
      ReadPrint(v.items[i], "]" + rest);
      LastItemText(v, i, rest);
      ReadLastItem(t, v.items[i], rest);
    } else {
      var more := PrintItems(v, i + 1) + rest;
      ReadPrint(v.items[i], "," + more);
      NextItemText(v, i, rest);
      ReadPrintedItems(v, i + 1, rest);
      ReadNextItem(t, v.items[i], more, v.items[i + 1..], rest);
    }
  }

  lemma LastItemText(v: Json, i: nat, rest: string)
    requires v.Arr? && i + 1 == |v.items|
    ensures PrintItems(v, i) + rest == Print(v.items[i]) + ("]" + rest)
    ensures v.items[i..] == [v.items[i]]
  {
  }

  lemma NextItemText(v: Json, i: nat, rest: string)
    requires v.Arr? && i + 1 < |v.items|
    ensures PrintItems(v, i) + rest == Print(v.items[i]) + ("," + (PrintItems(v, i + 1) + rest))
    ensures v.items[i..] == [v.items[i]] + v.items[i + 1..]
  {
  }

  lemma ReadKeyOf(t: string, k: string, body: string)
    requires t != [] && t[0] == '"' && ReadString(t[1..]) == Some(Read(k, ":" + body))
    ensures ReadKey(t) == Some(Read(k, body))
  {
    assert (":" + body)[1..] == body && (":" + body)[0] == ':';
  }

  lemma ReadPrintedKey(k: string, body: string)
    requires ValidUtf8(k)
    ensures ReadKey(Quote(k) + (":" + body)) == Some(Read(k, body))
  {
    QuoteRoundTrip(k, ":" + body);
    ReadKeyOf(Quote(k) + (":" + body), k, body);
  }

  lemma ReadLastMember(t: string, k: string, body: string, field: Json, rest: string)
    requires ReadKey(t) == Some(Read(k, body)) && ReadValue(body) == Some(Parsed(field, "}" + rest))
    ensures ReadMembers(t) == Some((map[k := field], rest))
  {
    assert ("}" + rest)[1..] == rest;
  }

  lemma ReadNextMember(t: string, k: string, body: string, field: Json, more: string,
        fields: map<string, Json>, rest: string)
    requires ReadKey(t) == Some(Read(k, body)) && ReadValue(body) == Some(Parsed(field, "," + more))
    requires ReadMembers(more) == Some((fields, rest))
    ensures ReadMembers(t) == Some((map[k := field] + fields, rest))
  {
    assert ("," + more)[1..] == more;
  }

  lemma {:induction false} ReadPrintedMembers(v: Json, keys: seq<string>, rest: string)
    requires v.Obj? && WellFormed(v) && keys != [] && forall k :: k in keys ==> k in v.fields
    ensures ReadMembers(PrintMembers(v, keys) + rest) == Some((map k | k in keys :: v.fields[k], rest))
    ensures PrintMembers(v, keys) != [] && PrintMembers(v, keys)[0] == '"'
    decreases v, 0, |keys|
  {
    var k := keys[0];
    var t := PrintMembers(v, keys) + rest;
    if |keys| == 1 {
      var body := Print(v.fields[k]) + ("}" + rest);
      ReadPrint(v.fields[k], "}" + rest);
      LastMemberText(v, keys, rest);
      ReadPrintedKey(k, body);
      ReadLastMember(t, k, body, v.fields[k], rest);
    } else {
      var more := PrintMembers(v, keys[1..]) + rest;
      var body := Print(v.fields[k]) + ("," + more);
      ReadPrint(v.fields[k], "," + more);
      NextMemberText(v, keys, rest);
      NextMemberFields(v.fields, keys);
      ReadPrintedMembers(v, keys[1..], rest);
      ReadPrintedKey(k, body);
      ReadNextMember(t, k, body, v.fields[k], more, map o | o in keys[1..] :: v.fields[o], rest);
    }
  }

  lemma LastMemberText(v: Json, keys: seq<string>, rest: string)
    requires v.Obj? && |keys| == 1 && keys[0] in v.fields
    ensures PrintMembers(v, keys) + rest == Quote(keys[0]) + (":" + (Print(v.fields[keys[0]]) + ("}" + rest)))
    ensures (map k | k in keys :: v.fields[k]) == map[keys[0] := v.fields[keys[0]]]
  {
    var q, text := Quote(keys[0]), Print(v.fields[keys[0]]);
    assert PrintMembers(v, keys) == q + (":" + (text + "}"));
    assert (q + (":" + (text + "}"))) + rest == q + (":" + (text + ("}" + rest)));
    assert forall k :: k in keys <==> k == keys[0];
  }

  lemma NextMemberText(v: Json, keys: seq<string>, rest: string)
    requires v.Obj? && |keys| > 1 && forall k :: k in keys ==> k in v.fields
    ensures PrintMembers(v, keys) + rest
         == Quote(keys[0]) + (":" + (Print(v.fields[keys[0]]) + ("," + (PrintMembers(v, keys[1..]) + rest))))
  {
  }

  lemma NextMemberFields(fields: map<string, Json>, keys: seq<string>)
    requires |keys| > 1 && forall k :: k in keys ==> k in fields
    ensures (map k | k in keys :: fields[k]) == map[keys[0] := fields[keys[0]]] + (map k | k in keys[1..] :: fields[k])
  {
    assert forall k :: k in keys <==> k == keys[0] || k in keys[1..];
  }
}
