/** Version strings: decimal printing and parsing of 64-bit integers, and the order the loader
    and the configuration put on them (config/loader/memory/memory.go:455-467,
    config/default.go:320-328). Strings are byte strings, compared byte by byte. */
module Versions {
  import opened Common

  const MIN := -0x8000_0000_0000_0000
  const MAX := 0x7FFF_FFFF_FFFF_FFFF

  // ----- Decimal text -----

  function Digit(d: nat): char
    requires d < 10
  {
    '0' + d as char
  }

  predicate IsDigit(c: char) {
    '0' <= c <= '9'
  }

  function Digits(n: nat): string {
    if n < 10 then [Digit(n)] else Digits(n / 10) + [Digit(n % 10)]
  }

  /** strconv.FormatInt, and %d. */
  function Format(n: int): string {
    if n < 0 then "-" + Digits(-n) else Digits(n)
  }

  /** The value of a non-empty run of decimal digits. */
  function Natural(s: string): Option<nat> {
    if s == [] || !IsDigit(Last(s)) then None else
    var d := (Last(s) - '0') as nat;
    if |s| == 1 then Some(d) else
    match Natural(s[..|s| - 1])
    case None => None
    case Some(n) => Some(10 * n + d)
  }

  /** strconv.ParseInt(s, 10, 64): an optional sign, digits, and the 64-bit range. */
  function ParseInt(s: string): Option<int> {
    if s == [] then None else
    var signed := s[0] == '-' || s[0] == '+';
    match Natural(if signed then s[1..] else s)
    case None => None
    case Some(n) =>
      var v := if s[0] == '-' then -(n as int) else n as int;
      if MIN <= v <= MAX then Some(v) else None
  }

  lemma {:induction false} NaturalOfDigits(n: nat)
    ensures Digits(n) != [] && IsDigit(Digits(n)[0]) && Natural(Digits(n)) == Some(n)
  {
    if n >= 10 {
      NaturalOfDigits(n / 10);
      assert Digits(n)[..|Digits(n)| - 1] == Digits(n / 10);
    }
  }

  /** Every 64-bit integer survives printing and parsing. */
  lemma ParseFormat(n: int)
    requires MIN <= n <= MAX
    ensures ParseInt(Format(n)) == Some(n)
  {
    if n < 0 {
      NaturalOfDigits(-n);
      assert Format(n)[1..] == Digits(-n);
    } else {
      NaturalOfDigits(n);
    }
  }

  function Pow10(n: nat): (p: nat)
    ensures p > 0
  {
    if n == 0 then 1 else 10 * Pow10(n - 1)
  }

  lemma {:induction false} DigitCount(n: nat, k: nat)
    requires k > 0 && n < Pow10(k) && (k > 1 ==> Pow10(k - 1) <= n)
    ensures |Digits(n)| == k
  {
    if k == 1 {
      assert Pow10(1) == 10 * Pow10(0);
    } else {
      DigitCount(n / 10, k - 1);
    }
  }

  /** Numbers are printed in decimal, the last digit first from the right, without leading zeros. */
  lemma {:induction false} DigitsAreDecimal(n: nat, i: nat)
    requires i < |Digits(n)|
    ensures Digits(n)[|Digits(n)| - 1 - i] as int == 48 + n / Pow10(i) % 10
    ensures |Digits(n)| > 1 ==> Digits(n)[0] != '0'
  {
    NoLeadingZero(n);
    if i == 0 {
      LastDigit(n);
    } else {
      OtherDigit(n, i);
      DigitsAreDecimal(n / 10, i - 1);
      DivideTwice(n, Pow10(i - 1));
    }
  }

  lemma LastDigit(n: nat)
    ensures Digits(n) != [] && Last(Digits(n)) as int == 48 + n % 10
  {
  }

  lemma OtherDigit(n: nat, i: nat)
    requires 0 < i < |Digits(n)|
    ensures n >= 10 && i - 1 < |Digits(n / 10)|
    ensures Digits(n)[|Digits(n)| - 1 - i] == Digits(n / 10)[|Digits(n / 10)| - 1 - (i - 1)]
  {
  }

  lemma {:induction false} NoLeadingZero(n: nat)
    ensures n > 0 ==> Digits(n)[0] != '0'
  {
    if n >= 10 {
      NoLeadingZero(n / 10);
    }
  }

  lemma DivideTwice(n: nat, p: nat)
    requires p > 0
    ensures n / 10 / p == n / (10 * p)
  {
    var q, r := n / 10 / p, n / 10 % p;
    assert n / 10 == q * p + r;
    assert n == 10 * (q * p + r) + n % 10;
    assert 10 * (q * p) == q * (10 * p);
    var rest := 10 * r + n % 10;
    assert n == q * (10 * p) + rest && 0 <= rest < 10 * p;
    Quotient(n, q, 10 * p, rest);
  }

  lemma Quotient(n: nat, q: nat, d: nat, r: nat)
    requires n == q * d + r && r < d
    ensures n / d == q
  {
    var k := n / d;
    assert n == k * d + n % d;
    if k < q {
      Multiples(k + 1, q, d);
    }
    if q < k {
      Multiples(q + 1, k, d);
    }
  }

  lemma Multiples(a: nat, b: nat, d: nat)
    requires a <= b
    ensures a * d <= b * d
  {
  }

  // ----- Byte order of strings -----

  /** Go's a < b. */
  predicate Less(a: string, b: string) {
    b != [] && (a == [] || a[0] < b[0] || (a[0] == b[0] && Less(a[1..], b[1..])))
  }

  /** `a` is a proper beginning of `b`, or has the smaller byte where they differ first. */
  ghost predicate DifferAt(a: string, b: string, i: nat) {
    i <= |a| && i < |b| && a[..i] == b[..i] && (i == |a| || a[i] < b[i])
  }

  lemma {:induction false} LessIsLexicographic(a: string, b: string)
    ensures Less(a, b) <==> exists i: nat :: DifferAt(a, b, i)
  {
    if b != [] && (a == [] || a[0] < b[0]) {
      assert DifferAt(a, b, 0);
    } else if b != [] && a[0] == b[0] {
      LessIsLexicographic(a[1..], b[1..]);
      if i: nat :| DifferAt(a[1..], b[1..], i) {
        assert a[..i + 1] == [a[0]] + a[1..][..i] && b[..i + 1] == [b[0]] + b[1..][..i];
        assert DifferAt(a, b, i + 1);
      }
      if i: nat :| DifferAt(a, b, i) {
        assert i > 0;
        assert a[1..][..i - 1] == a[..i][1..] && b[1..][..i - 1] == b[..i][1..];
        assert DifferAt(a[1..], b[1..], i - 1);
      }
    } else {
      forall i: nat ensures !DifferAt(a, b, i) {
        if i > 0 && i <= |a| && i < |b| {
          assert a[..i][0] == a[0] && b[..i][0] == b[0];
        }
      }
    }
  }

  lemma {:induction false} LessAsymmetric(a: string, b: string)
    ensures !(Less(a, b) && Less(b, a))
  {
    if a != [] && b != [] {
      LessAsymmetric(a[1..], b[1..]);
    }
  }

  lemma {:induction false} LessTransitive(a: string, b: string, c: string)
    requires Less(a, b) && Less(b, c)
    ensures Less(a, c)
  {
    if a != [] && a[0] == b[0] == c[0] {
      LessTransitive(a[1..], b[1..], c[1..]);
    }
  }

  lemma {:induction false} LessTotal(a: string, b: string)
    ensures Less(a, b) || a == b || Less(b, a)
  {
    if a != [] && b != [] && a[0] == b[0] {
      LessTotal(a[1..], b[1..]);
      assert a == [a[0]] + a[1..] && b == [b[0]] + b[1..];
    }
  }

  // ----- The order of versions -----

  /** genVer, the clock read in nanoseconds. */
  function GenVer(clock: int): string {
    Format(clock)
  }

  /** snapshotNewer and snapshotNewerVersion: numeric when both parse, else byte order. */
  predicate SnapshotNewer(next: string, current: string) {
    var n, c := ParseInt(next), ParseInt(current);
    if n.Some? && c.Some? then n.value > c.value else Less(current, next)
  }

  /** On the versions genVer produces the order is that of the clock readings, and distinct
      readings give distinct versions. */
  lemma NewerIsLater(a: int, b: int)
    requires MIN <= a <= MAX && MIN <= b <= MAX
    ensures SnapshotNewer(GenVer(a), GenVer(b)) <==> a > b
    ensures GenVer(a) == GenVer(b) <==> a == b
  {
    ParseFormat(a);
    ParseFormat(b);
  }

  /** On all strings the order is irreflexive and asymmetric. */
  lemma NewerIsAsymmetric(a: string, b: string)
    ensures !SnapshotNewer(a, a)
    ensures !(SnapshotNewer(a, b) && SnapshotNewer(b, a))
  {
    LessAsymmetric(a, a);
    LessAsymmetric(a, b);
  }

  /** Which of three strings are numbers. */
  datatype Kinds = Kinds(first: bool, second: bool, third: bool)

  ghost predicate HasKinds(k: Kinds, a: string, b: string, c: string) {
    ParseInt(a).Some? == k.first && ParseInt(b).Some? == k.second && ParseInt(c).Some? == k.third
  }

  ghost predicate TransitiveOn(k: Kinds) {
    forall a, b, c :: HasKinds(k, a, b, c) && SnapshotNewer(a, b) && SnapshotNewer(b, c) ==> SnapshotNewer(a, c)
  }

  predicate ExactlyTwo(k: Kinds) {
    (k.first && k.second && !k.third) || (k.first && !k.second && k.third) || (!k.first && k.second && k.third)
  }

  /** It is transitive except when exactly two of the three strings are numbers: then the two
      orders mix, and "10", "9", "5a" form a cycle. */
  lemma TransitiveUnlessTwoNumbers(k: Kinds)
    ensures TransitiveOn(k) <==> !ExactlyTwo(k)
  {
    if ExactlyTwo(k) {
      Cycle();
      var a, b, c := "10", "9", "5a";
      if !k.third {
        assert HasKinds(k, a, b, c) && !SnapshotNewer(a, c);
      } else if !k.second {
        assert HasKinds(k, b, c, a) && !SnapshotNewer(b, a);
      } else {
        assert HasKinds(k, c, a, b) && !SnapshotNewer(c, b);
      }
    } else {
      forall a, b, c | HasKinds(k, a, b, c) && SnapshotNewer(a, b) && SnapshotNewer(b, c)
        ensures SnapshotNewer(a, c)
      {
        if Less(c, b) && Less(b, a) {
          LessTransitive(c, b, a);
        }
      }
    }
  }

  lemma Cycle()
    ensures ParseInt("10") == Some(10) && ParseInt("9") == Some(9) && ParseInt("5a") == None
    ensures SnapshotNewer("10", "9") && SnapshotNewer("9", "5a") && SnapshotNewer("5a", "10")
    ensures !SnapshotNewer("10", "5a") && !SnapshotNewer("9", "10") && !SnapshotNewer("5a", "9")
  {
    assert "10"[..1] == "1" && Natural("1") == Some(1) && Natural("10") == Some(10);
    assert Last("5a") == 'a';
  }
}
