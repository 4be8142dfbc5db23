/** JSON string literals over Go strings, that is byte strings which may or may not be valid
    UTF-8: the HTML-safe encoder encoding/json and jsoniter share, and their decoder (section 7
    of RFC 8259, section 3 of RFC 3629). */
module JsonText {
  import opened Common

  // ----- UTF-8 -----

  /** The byte at `i`, -1 past the end. */
  function At(s: string, i: nat): int {
    if i < |s| then s[i] as int else -1
  }

  predicate Continuation(b: int) {
    0x80 <= b <= 0xBF
  }

  /** The length of the well-formed sequence `s` starts with; 0 when there is none. */
  function RuneLength(s: string): (n: nat)
    requires s != []
    ensures n <= |s|
    ensures n > 1 ==> forall i :: 0 <= i < n ==> s[i] as int >= 0x80
    ensures n == 1 <==> s[0] as int < 0x80
  {
    var b0, b1, b2, b3 := At(s, 0), At(s, 1), At(s, 2), At(s, 3);
    if b0 < 0x80 then 1
    else if 0xC2 <= b0 <= 0xDF && Continuation(b1) then 2
    else if b0 == 0xE0 && 0xA0 <= b1 <= 0xBF && Continuation(b2) then 3
    else if b0 == 0xED && 0x80 <= b1 <= 0x9F && Continuation(b2) then 3
    else if 0xE1 <= b0 <= 0xEF && b0 != 0xED && Continuation(b1) && Continuation(b2) then 3
    else if b0 == 0xF0 && 0x90 <= b1 <= 0xBF && Continuation(b2) && Continuation(b3) then 4
    else if 0xF1 <= b0 <= 0xF3 && Continuation(b1) && Continuation(b2) && Continuation(b3) then 4
    else if b0 == 0xF4 && 0x80 <= b1 <= 0x8F && Continuation(b2) && Continuation(b3) then 4
    else 0
  }

  predicate ValidUtf8(s: string) {
    s == [] || (RuneLength(s) > 0 && ValidUtf8(s[RuneLength(s)..]))
  }

  /** The UTF-8 form of a code point. */
  function EncodeRune(u: nat): (s: string)
    requires u < 0x11_0000
    ensures 1 <= |s| <= 4
  {
    if u < 0x80 then [u as char]
    else if u < 0x800 then [(0xC0 + u / 0x40) as char, (0x80 + u % 0x40) as char]
    else if u < 0x1_0000 then
      [(0xE0 + u / 0x1000) as char, (0x80 + u / 0x40 % 0x40) as char, (0x80 + u % 0x40) as char]
    else
      [(0xF0 + u / 0x4_0000) as char, (0x80 + u / 0x1000 % 0x40) as char,
       (0x80 + u / 0x40 % 0x40) as char, (0x80 + u % 0x40) as char]
  }

  /** U+FFFD, what stands for a byte that is not part of well-formed UTF-8. */
  const REPLACEMENT := EncodeRune(0xFFFD)

  /** How many bytes are handled at once: one rune, or one stray byte. */
  function HeadLength(s: string): (n: nat)
    requires s != []
    ensures 1 <= n <= |s|
  {
    if RuneLength(s) == 0 then 1 else RuneLength(s)
  }

  function HeadText(s: string): string
    requires s != []
  {
    if RuneLength(s) == 0 then REPLACEMENT else s[..RuneLength(s)]
  }

  /** `s` with every stray byte replaced. */
  function Sanitize(s: string): string {
    if s == [] then [] else HeadText(s) + Sanitize(s[HeadLength(s)..])
  }

  /** Sanitizing never shortens, and keeps the length only of valid UTF-8. */
  lemma {:induction false} SanitizeLength(s: string)
    ensures |Sanitize(s)| >= |s|
    ensures |Sanitize(s)| == |s| ==> ValidUtf8(s)
  {
    if s != [] {
      SanitizeLength(s[HeadLength(s)..]);
    }
  }

  lemma {:induction false} SanitizeKeeps(s: string)
    requires ValidUtf8(s)
    ensures Sanitize(s) == s
  {
    if s != [] {
      var n := HeadLength(s);
      SanitizeKeeps(s[n..]);
      assert HeadText(s) == s[..n];
      assert s == s[..n] + s[n..];
    }
  }

  /** Exactly the valid strings are left alone. */
  lemma {:induction false} SanitizeKeepsIff(s: string)
    ensures Sanitize(s) == s <==> ValidUtf8(s)
  {
    SanitizeLength(s);
    if ValidUtf8(s) {
      SanitizeKeeps(s);
    }
  }

  // ----- The encoder -----

  function HexDigit(d: nat): char
    requires d < 16
  {
    if d < 10 then '0' + d as char else 'a' + (d - 10) as char
  }

  /** The six-character escape of a code unit. */
  function UnicodeEscape(u: nat): (s: string)
    requires u < 0x1_0000
    ensures |s| == 6
  {
    ['\\', 'u', HexDigit(u / 0x1000), HexDigit(u / 0x100 % 0x10), HexDigit(u / 0x10 % 0x10), HexDigit(u % 0x10)]
  }

  function EscapeAscii(c: char): string
    requires c as int < 0x80
  {
    if c == '"' then "\\\""
    else if c == '\\' then "\\\\"
    else if c == '\n' then "\\n"
    else if c == '\r' then "\\r"
    else if c == '\t' then "\\t"
    else if c < ' ' || c in "<>&" then UnicodeEscape(c as nat)
    else [c]
  }

  function HeadToken(s: string): string
    requires s != []
  {
    var n := RuneLength(s);
    if n == 0 then UnicodeEscape(0xFFFD)
    else if n == 1 then EscapeAscii(s[0])
    else if s[..n] == EncodeRune(0x2028) then UnicodeEscape(0x2028)
    else if s[..n] == EncodeRune(0x2029) then UnicodeEscape(0x2029)
    else s[..n]
  }

  function Escape(s: string): string {
    if s == [] then [] else HeadToken(s) + Escape(s[HeadLength(s)..])
  }

  function Quote(s: string): string {
    "\"" + Escape(s) + "\""
  }

  /** Printable ASCII other than the quote, the backslash and the characters of HTML. */
  predicate Unescaped(c: char) {
    0x20 <= c as int < 0x7F && c != '"' && c != '\\' && c != '<' && c != '>' && c != '&'
  }

  lemma {:induction false} EscapeUnescaped(s: string)
    requires forall i :: 0 <= i < |s| ==> Unescaped(s[i])
    ensures Escape(s) == s
  {
    if s != [] {
      EscapeUnescaped(s[1..]);
      assert HeadLength(s) == 1 && HeadToken(s) == [s[0]];
      assert s == [s[0]] + s[1..];
    }
  }

  /** A text of such characters only is put between quotes as it is. */
  lemma QuoteUnescaped(s: string)
    requires forall i :: 0 <= i < |s| ==> Unescaped(s[i])
    ensures Quote(s) == "\"" + s + "\""
  {
    EscapeUnescaped(s);
  }

  /** The escapes of one character. */
  lemma QuoteOfOne(c: char)
    requires c as int < 0x80
    ensures c == '"' ==> Escape([c]) == ['\\', '"']
    ensures c == '\\' ==> Escape([c]) == ['\\', '\\']
    ensures c as int == 10 ==> Escape([c]) == ['\\', 'n']
    ensures c as int == 13 ==> Escape([c]) == ['\\', 'r']
    ensures c as int == 9 ==> Escape([c]) == ['\\', 't']
    ensures c == '<' ==> Escape([c]) == ['\\', 'u', '0', '0', '3', 'c']
    ensures c as int == 0 ==> Escape([c]) == ['\\', 'u', '0', '0', '0', '0']
  {
    assert HeadLength([c]) == 1 && [c][1..] == [];
    assert Escape([c]) == EscapeAscii(c) + [];
  }

  // ----- The decoder -----

  function HexValue(c: char): (v: Option<nat>)
    ensures v.Some? ==> v.value < 16
  {
    if '0' <= c <= '9' then Some((c - '0') as nat)
    else if 'a' <= c <= 'f' then Some(10 + (c - 'a') as nat)
    else if 'A' <= c <= 'F' then Some(10 + (c - 'A') as nat)
    else None
  }

  /** The code unit of a `\uXXXX` escape at the start of `t`. */
  function ReadUnit(t: string): (u: Option<nat>)
    ensures u.Some? ==> |t| >= 6 && u.value < 0x1_0000
  {
    if |t| < 6 || t[0] != '\\' || t[1] != 'u' then None else
    var a, b, c, d := HexValue(t[2]), HexValue(t[3]), HexValue(t[4]), HexValue(t[5]);
    if a.None? || b.None? || c.None? || d.None? then None
    else Some(a.value * 0x1000 + b.value * 0x100 + c.value * 0x10 + d.value)
  }

  datatype Read = Read(text: string, rest: string)

  /** The text an escape at the start of `t` stands for, and what follows it. Surrogate pairs
      are joined, lone surrogates replaced. */
  function ReadEscape(t: string): (r: Option<Read>)
    requires t != [] && t[0] == '\\'
    ensures r.Some? ==> |r.value.rest| < |t|
    ensures r.Some? ==> |r.value.text| + |r.value.rest| < |t|
  {
    if |t| < 2 then None
    else if t[1] in "\"\\/" then Some(Read([t[1]], t[2..]))
    else if t[1] == 'b' then Some(Read([8 as char], t[2..]))
    else if t[1] == 'f' then Some(Read([12 as char], t[2..]))
    else if t[1] == 'n' then Some(Read("\n", t[2..]))
    else if t[1] == 'r' then Some(Read("\r", t[2..]))
    else if t[1] == 't' then Some(Read("\t", t[2..]))
    else
      match ReadUnit(t)
      case None => None
      case Some(u) =>
        if !(0xD800 <= u < 0xE000) then Some(Read(EncodeRune(u), t[6..])) else
        var low := ReadUnit(t[6..]);
        if u < 0xDC00 && low.Some? && 0xDC00 <= low.value < 0xE000
        then Some(Read(EncodeRune(0x1_0000 + (u - 0xD800) * 0x400 + (low.value - 0xDC00)), t[12..]))
        else Some(Read(REPLACEMENT, t[6..]))
  }

  /** The rest of a string literal after its opening quote. Bytes that are not escaped are
      copied without looking at their encoding; control characters are refused. */
  function ReadString(t: string): (r: Option<Read>)
    ensures r.Some? ==> |r.value.text| + |r.value.rest| < |t|
    decreases |t|
  {
    if t == [] || t[0] < ' ' then None
    else if t[0] == '"' then Some(Read("", t[1..]))
    else
      match ReadHead(t)
      case None => None
      case Some(head) => Prefixed(head.text, ReadString(head.rest))
  }

  function ReadHead(t: string): (r: Option<Read>)
    requires t != []
    ensures r.Some? ==> |r.value.text| + |r.value.rest| <= |t| && |r.value.rest| < |t|
  {
    if t[0] == '\\' then ReadEscape(t) else Some(Read([t[0]], t[1..]))
  }

  function Prefixed(text: string, tail: Option<Read>): (r: Option<Read>)
    ensures r.Some? <==> tail.Some?
    ensures r.Some? ==> |r.value.text| == |text| + |tail.value.text| && r.value.rest == tail.value.rest
  {
    match tail
    case None => None
    case Some(read) => Some(Read(text + read.text, read.rest))
  }

  // ----- Round trip -----

  lemma HexSum(u: nat)
    requires u < 0x1_0000
    ensures u / 0x1000 < 16
    ensures u / 0x1000 * 0x1000 + u / 0x100 % 0x10 * 0x100 + u / 0x10 % 0x10 * 0x10 + u % 0x10 == u
  {
    assert u / 0x100 == u / 0x10 / 0x10 && u / 0x1000 == u / 0x100 / 0x10;
  }

  lemma UnitRoundTrip(u: nat, t: string)
    requires u < 0x1_0000
    ensures ReadUnit(UnicodeEscape(u) + t) == Some(u)
  {
    HexSum(u);
    ReadFourDigits(u / 0x1000, u / 0x100 % 0x10, u / 0x10 % 0x10, u % 0x10, t);
  }

  lemma ReadFourDigits(a: nat, b: nat, c: nat, d: nat, t: string)
    requires a < 16 && b < 16 && c < 16 && d < 16
    ensures ReadUnit(['\\', 'u', HexDigit(a), HexDigit(b), HexDigit(c), HexDigit(d)] + t)
         == Some(a * 0x1000 + b * 0x100 + c * 0x10 + d)
  {
  }

  lemma HeadOfUnicodeEscape(u: nat, t: string)
    requires u < 0xD800 || 0xE000 <= u < 0x1_0000
    ensures ReadHead(UnicodeEscape(u) + t) == Some(Read(EncodeRune(u), t))
  {
    UnitRoundTrip(u, t);
    assert (UnicodeEscape(u) + t)[6..] == t;
  }

  lemma HeadOfAscii(c: char, t: string)
    requires c as int < 0x80
    ensures ReadHead(EscapeAscii(c) + t) == Some(Read([c], t))
  {
    if c !in "\"\\\n\r\t" && (c < ' ' || c in "<>&") {
      HeadOfUnicodeEscape(c as nat, t);
    } else {
      assert (EscapeAscii(c) + t)[|EscapeAscii(c)|..] == t;
    }
  }

  /** A token that is read in one go. */
  lemma ReadToken(token: string, text: string, t: string)
    requires token != [] && token[0] >= ' ' && token[0] != '"'
    requires ReadHead(token + t) == Some(Read(text, t))
    ensures ReadString(token + t) == Prefixed(text, ReadString(t))
  {
  }

  lemma PrefixedTwice(a: string, b: string, tail: Option<Read>)
    ensures Prefixed(a, Prefixed(b, tail)) == Prefixed(a + b, tail)
  {
    assert tail.Some? ==> a + (b + tail.value.text) == a + b + tail.value.text;
  }

  lemma PrefixedNothing(tail: Option<Read>)
    ensures Prefixed("", tail) == tail
  {
    assert tail.Some? ==> "" + tail.value.text == tail.value.text;
  }

  lemma {:induction false} ReadRaw(p: string, t: string)
    requires forall i :: 0 <= i < |p| ==> p[i] as int >= 0x80
    ensures ReadString(p + t) == Prefixed(p, ReadString(t))
  {
    if p == [] {
      assert p + t == t;
      PrefixedNothing(ReadString(t));
    } else {
      ReadRaw(p[1..], t);
      assert p + t == [p[0]] + (p[1..] + t);
      assert ([p[0]] + (p[1..] + t))[1..] == p[1..] + t;
      ReadToken([p[0]], [p[0]], p[1..] + t);
      PrefixedTwice([p[0]], p[1..], ReadString(t));
      assert [p[0]] + p[1..] == p;
    }
  }

  /** The first rune of `s` is read back as its text. */
  lemma ReadHeadToken(s: string, t: string)
    requires s != []
    ensures ReadString(HeadToken(s) + t) == Prefixed(HeadText(s), ReadString(t))
  {
    var n := RuneLength(s);
    if n == 0 {
      HeadOfUnicodeEscape(0xFFFD, t);
      ReadToken(UnicodeEscape(0xFFFD), REPLACEMENT, t);
    } else if n == 1 {
      HeadOfAscii(s[0], t);
      ReadToken(EscapeAscii(s[0]), [s[0]], t);
      assert s[..1] == [s[0]];
    } else if s[..n] == EncodeRune(0x2028) {
      HeadOfUnicodeEscape(0x2028, t);
      ReadToken(UnicodeEscape(0x2028), s[..n], t);
    } else if s[..n] == EncodeRune(0x2029) {
      HeadOfUnicodeEscape(0x2029, t);
      ReadToken(UnicodeEscape(0x2029), s[..n], t);
    } else {
      ReadRaw(s[..n], t);
    }
  }

  /** Everything the encoder writes reads back as the sanitized string. */
  lemma {:induction false} ReadEscaped(s: string, t: string)
    ensures ReadString(Escape(s) + t) == Prefixed(Sanitize(s), ReadString(t))
  {
    if s == [] {
      assert Escape(s) + t == t;
      PrefixedNothing(ReadString(t));
    } else {
      var rest := s[HeadLength(s)..];
      ReadEscaped(rest, t);
      ReadHeadToken(s, Escape(rest) + t);
      EscapeSplit(s, rest, t);
      PrefixedTwice(HeadText(s), Sanitize(rest), ReadString(t));
    }
  }

  lemma EscapeSplit(s: string, rest: string, t: string)
    requires s != [] && rest == s[HeadLength(s)..]
    ensures Escape(s) + t == HeadToken(s) + (Escape(rest) + t) && Sanitize(s) == HeadText(s) + Sanitize(rest)
  {
  }

  /** A literal reads back as the sanitized string, which is the string itself exactly when
      that is valid UTF-8. */
  lemma {:induction false} QuoteRoundTrip(s: string, rest: string)
    ensures (Quote(s) + rest)[0] == '"'
    ensures ReadString((Quote(s) + rest)[1..]) == Some(Read(Sanitize(s), rest))
    ensures Sanitize(s) == s <==> ValidUtf8(s)
  {
    assert (Quote(s) + rest)[1..] == Escape(s) + ("\"" + rest);
    ReadEscaped(s, "\"" + rest);
    assert Sanitize(s) + "" == Sanitize(s);
    SanitizeKeepsIff(s);
  }
}
