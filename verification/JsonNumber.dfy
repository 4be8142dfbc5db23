/** The numbers of JSON texts (section 6 of RFC 8259): how much of a text belongs to the number it
    starts with. */
module JsonNumber {
  import opened Common
  import V = Versions

  // ----- Grammar -----

  /** The number of leading digits. */
  function DigitRun(t: string): (n: nat)
    ensures n <= |t|
  {
    if t == [] || !V.IsDigit(t[0]) then 0 else 1 + DigitRun(t[1..])
  }

  /** The length of the integer part: zero, or digits without a leading zero. */
  function IntegerPart(t: string): (n: nat)
    ensures n <= |t|
  {
    var sign := if t != [] && t[0] == '-' then 1 else 0;
    var digits := DigitRun(t[sign..]);
    if digits == 0 then 0 else if t[sign] == '0' then sign + 1 else sign + digits
  }

  /** The length of the fraction at the start of `t`, None when it is malformed. */
  function FractionPart(t: string): (n: Option<nat>)
    ensures n.Some? ==> n.value <= |t|
  {
    if t == [] || t[0] != '.' then Some(0) else
    var digits := DigitRun(t[1..]);
    if digits == 0 then None else Some(1 + digits)
  }

  function ExponentPart(t: string): (n: Option<nat>)
    ensures n.Some? ==> n.value <= |t|
  {
    if t == [] || (t[0] != 'e' && t[0] != 'E') then Some(0) else
    var sign := if |t| > 1 && (t[1] == '+' || t[1] == '-') then 1 else 0;
    var digits := DigitRun(t[1 + sign..]);
    if digits == 0 then None else Some(1 + sign + digits)
  }

  /** The length of the fraction and exponent at the start of `t`. */
  function DecimalPart(t: string): (n: Option<nat>)
    ensures n.Some? ==> n.value <= |t|
  {
    match FractionPart(t)
    case None => None
    case Some(fraction) =>
      match ExponentPart(t[fraction..])
      case None => None
      case Some(exponent) => Some(fraction + exponent)
  }

  /** The length of the number at the start of `t`. */
  function NumberRun(t: string): (n: Option<nat>)
    ensures n.Some? ==> 0 < n.value <= |t|
  {
    var whole := IntegerPart(t);
    if whole == 0 then None else
    match DecimalPart(t[whole..])
    case None => None
    case Some(n) => Some(whole + n)
  }

  // ----- What follows a number -----

  /** What may follow a value without being taken for a part of it. */
  predicate Ends(rest: string) {
    rest == [] || rest[0] == ',' || rest[0] == ']' || rest[0] == '}'
  }

  lemma {:induction false} DigitRunConcat(p: string, rest: string)
    requires Ends(rest)
    ensures DigitRun(p + rest) == DigitRun(p)
  {
    if p == [] {
      assert p + rest == rest;
    } else {
      DigitRunConcat(p[1..], rest);
      assert (p + rest)[1..] == p[1..] + rest;
    }
  }

  lemma IntegerPartConcat(p: string, rest: string)
    requires Ends(rest)
    ensures IntegerPart(p + rest) == IntegerPart(p)
  {
    var sign := if p != [] && p[0] == '-' then 1 else 0;
    assert (p + rest)[sign..] == p[sign..] + rest;
    DigitRunConcat(p[sign..], rest);
  }

  lemma FractionPartConcat(p: string, rest: string)
    requires Ends(rest)
    ensures FractionPart(p + rest) == FractionPart(p)
  {
    if p != [] {
      assert (p + rest)[1..] == p[1..] + rest;
      DigitRunConcat(p[1..], rest);
    }
  }

  lemma ExponentPartConcat(p: string, rest: string)
    requires Ends(rest)
    ensures ExponentPart(p + rest) == ExponentPart(p)
  {
    if p != [] {
      var sign := if |p| > 1 && (p[1] == '+' || p[1] == '-') then 1 else 0;
      assert (p + rest)[1 + sign..] == p[1 + sign..] + rest;
      DigitRunConcat(p[1 + sign..], rest);
    }
  }

  lemma DecimalPartConcat(p: string, rest: string)
    requires Ends(rest)
    ensures DecimalPart(p + rest) == DecimalPart(p)
  {
    FractionPartConcat(p, rest);
    var fraction := FractionPart(p);
    if fraction.Some? {
      assert (p + rest)[fraction.value..] == p[fraction.value..] + rest;
      ExponentPartConcat(p[fraction.value..], rest);
    }
  }

  lemma NumberRunConcat(p: string, rest: string)
    requires Ends(rest) && p != []
    ensures NumberRun(p + rest) == NumberRun(p)
  {
    var whole := IntegerPart(p);
    IntegerPartConcat(p, rest);
    assert (p + rest)[whole..] == p[whole..] + rest;
    DecimalPartConcat(p[whole..], rest);
  }

  // ----- Dotted digits -----

  predicate AllDigits(s: string) {
    s != [] && DigitRun(s) == |s|
  }

  lemma {:induction false} DigitRunThen(p: string, rest: string)
    requires DigitRun(p) == |p| && (rest == [] || !V.IsDigit(rest[0]))
    ensures DigitRun(p + rest) == |p|
  {
    if p == [] {
      assert p + rest == rest;
    } else {
      DigitRunThen(p[1..], rest);
      assert (p + rest)[1..] == p[1..] + rest;
    }
  }

  lemma DottedInteger(a: string, tail: string)
    requires AllDigits(a) && (|a| > 1 ==> a[0] != '0') && tail != [] && tail[0] == '.'
    ensures IntegerPart(a + tail) == |a|
  {
    DigitRunThen(a, tail);
    assert (a + tail)[0..] == a + tail;
    assert (a + tail)[0] == a[0];
  }

  lemma DottedDecimal(b: string, rest: string)
    requires AllDigits(b) && rest != [] && rest[0] == '.'
    ensures DecimalPart("." + (b + rest)) == Some(1 + |b|)
  {
    var tail := "." + (b + rest);
    DigitRunThen(b, rest);
    assert tail[1..] == b + rest && tail[1 + |b|..] == rest;
    assert FractionPart(tail) == Some(1 + |b|);
    assert ExponentPart(rest) == Some(0);
  }

  lemma DottedRun(a: string, b: string, rest: string)
    requires AllDigits(a) && AllDigits(b) && (|a| > 1 ==> a[0] != '0')
    requires rest != [] && rest[0] == '.'
    ensures NumberRun(a + ("." + (b + rest))) == Some(|a| + 1 + |b|)
  {
    var tail := "." + (b + rest);
    DottedInteger(a, tail);
    DottedDecimal(b, rest);
    assert (a + tail)[|a|..] == tail;
  }

  // ----- The grammar of section 6 of RFC 8259 -----

  predicate IsDigits(s: string) {
    s != [] && forall i :: 0 <= i < |s| ==> 48 <= s[i] as int <= 57
  }

  predicate IsInteger(s: string) {
    var digits := if s != [] && s[0] == '-' then s[1..] else s;
    IsDigits(digits) && (|digits| > 1 ==> digits[0] != '0')
  }

  predicate IsFraction(s: string) {
    s == [] || (s[0] == '.' && IsDigits(s[1..]))
  }

  predicate IsExponent(s: string) {
    s == [] || ((s[0] == 'e' || s[0] == 'E')
                && (IsDigits(s[1..]) || (|s| > 1 && (s[1] == '+' || s[1] == '-') && IsDigits(s[2..]))))
  }

  /** `t` is an integer up to `i`, a fraction from there to `f`, and an exponent behind. */
  ghost predicate IsNumber(t: string, i: nat, f: nat) {
    i <= f <= |t| && IsInteger(t[..i]) && IsFraction(t[i..f]) && IsExponent(t[f..])
  }

  lemma {:induction false} AllDigitsIff(s: string)
    ensures AllDigits(s) <==> IsDigits(s)
  {
    if |s| > 1 {
      AllDigitsIff(s[1..]);
      if IsDigits(s[1..]) && V.IsDigit(s[0]) {
        forall i | 0 <= i < |s| ensures 48 <= s[i] as int <= 57 {
          assert i > 0 ==> s[i] == s[1..][i - 1];
        }
      }
    }
  }

  lemma {:induction false} RunIsDigits(t: string)
    ensures DigitRun(t) > 0 ==> IsDigits(t[..DigitRun(t)])
  {
    if t != [] && V.IsDigit(t[0]) {
      RunIsDigits(t[1..]);
      var n := DigitRun(t);
      forall i | 0 <= i < n ensures 48 <= t[i] as int <= 57 {
        assert i > 0 ==> t[i] == t[1..][..n - 1][i - 1];
      }
    }
  }

  lemma IntegerIsRead(s: string, rest: string)
    requires IsInteger(s) && (rest == [] || !V.IsDigit(rest[0]))
    ensures IntegerPart(s + rest) == |s|
  {
    var sign := if s[0] == '-' then 1 else 0;
    AllDigitsIff(s[sign..]);
    DigitRunThen(s[sign..], rest);
    assert (s + rest)[sign..] == s[sign..] + rest;
  }

  lemma FractionIsRead(s: string, rest: string)
    requires IsFraction(s) && (rest == [] || (!V.IsDigit(rest[0]) && rest[0] != '.'))
    ensures FractionPart(s + rest) == Some(|s|)
  {
    if s != [] {
      AllDigitsIff(s[1..]);
      DigitRunThen(s[1..], rest);
      assert (s + rest)[1..] == s[1..] + rest;
    } else {
      assert s + rest == rest;
    }
  }

  lemma NoSign(s: string)
    ensures IsDigits(s) ==> s[0] != '+' && s[0] != '-'
  {
  }

  lemma ExponentIsRead(s: string)
    requires IsExponent(s)
    ensures ExponentPart(s) == Some(|s|)
  {
    if s != [] {
      var sign := if |s| > 1 && (s[1] == '+' || s[1] == '-') then 1 else 0;
      NoSign(s[1..]);
      AllDigitsIff(s[1 + sign..]);
    }
  }

  lemma IntegerPartIs(t: string)
    ensures IntegerPart(t) > 0 ==> IsInteger(t[..IntegerPart(t)])
  {
    var sign := if t != [] && t[0] == '-' then 1 else 0;
    var run, n := DigitRun(t[sign..]), IntegerPart(t);
    RunIsDigits(t[sign..]);
    if run > 0 {
      assert t[..n][sign..] == t[sign..][..n - sign];
      forall i | 0 <= i < n - sign ensures 48 <= t[sign..][i] as int <= 57 {
        assert t[sign..][i] == t[sign..][..run][i];
      }
    }
  }

  lemma FractionPartIs(t: string)
    ensures FractionPart(t).Some? ==> IsFraction(t[..FractionPart(t).value])
  {
    if t != [] && t[0] == '.' {
      RunIsDigits(t[1..]);
      var run := DigitRun(t[1..]);
      assert t[..1 + run][1..] == t[1..][..run];
    }
  }

  lemma ExponentPartIs(t: string)
    requires ExponentPart(t) == Some(|t|)
    ensures IsExponent(t)
  {
    if t != [] {
      var sign := if |t| > 1 && (t[1] == '+' || t[1] == '-') then 1 else 0;
      RunIsDigits(t[1 + sign..]);
      assert t[1 + sign..][..|t| - 1 - sign] == t[1 + sign..];
    }
  }

  /** The texts that are read as one number are those of the grammar. */
  lemma NumberRunIff(t: string)
    ensures NumberRun(t) == Some(|t|) <==> exists i: nat, f: nat :: IsNumber(t, i, f)
  {
    if NumberRun(t) == Some(|t|) {
      var i := IntegerPart(t);
      IntegerPartIs(t);
      FractionPartIs(t[i..]);
      var f := i + FractionPart(t[i..]).value;
      assert t[i..][..f - i] == t[i..f] && t[i..][f - i..] == t[f..];
      ExponentPartIs(t[f..]);
      assert IsNumber(t, i, f);
    }
    if i: nat, f: nat :| IsNumber(t, i, f) {
      NumberIsRead(t, i, f);
    }
  }

  lemma NumberIsRead(t: string, i: nat, f: nat)
    requires IsNumber(t, i, f)
    ensures NumberRun(t) == Some(|t|)
  {
    Parts(t, i, f);
    NumberOfParts(t, t[..i], t[i..f], t[f..]);
  }

  lemma Parts(t: string, i: nat, f: nat)
    requires i <= f <= |t|
    ensures t[..i] + (t[i..f] + t[f..]) == t
  {
  }

  lemma NumberOfParts(t: string, a: string, b: string, c: string)
    requires IsInteger(a) && IsFraction(b) && IsExponent(c) && a + (b + c) == t
    ensures NumberRun(t) == Some(|t|)
  {
    assert b + c != [] ==> (b + c)[0] == if b == [] then c[0] else b[0];
    IntegerIsRead(a, b + c);
    DecimalOfParts(b, c);
    assert (a + (b + c))[|a|..] == b + c;
  }

  lemma DecimalOfParts(b: string, c: string)
    requires IsFraction(b) && IsExponent(c)
    ensures DecimalPart(b + c) == Some(|b| + |c|)
  {
    FractionIsRead(b, c);
    ExponentIsRead(c);
    assert (b + c)[|b|..] == c;
  }
}
