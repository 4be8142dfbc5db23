/** Base64 as encoding/base64 implements it: the standard and the URL alphabet, padded and
    unpadded (sections 3.2, 4 and 5 of RFC 4648), with the decoder's leniency: line breaks are
    skipped and the unused bits of the last character are not checked. */
module Base64 {
  import opened Common

  datatype Alphabet = Standard | Url

  predicate IsBytes(s: string) {
    forall i :: 0 <= i < |s| ==> s[i] < 256 as char
  }

  function Symbol(a: Alphabet, v: nat): char
    requires v < 64
  {
    if v < 26 then 'A' + v as char
    else if v < 52 then 'a' + (v - 26) as char
    else if v < 62 then '0' + (v - 52) as char
    else if v == 62 then (if a.Standard? then '+' else '-')
    else (if a.Standard? then '/' else '_')
  }

  function Value(a: Alphabet, c: char): (v: Option<nat>)
    ensures v.Some? ==> v.value < 64
  {
    if 'A' <= c <= 'Z' then Some((c - 'A') as nat)
    else if 'a' <= c <= 'z' then Some(26 + (c - 'a') as nat)
    else if '0' <= c <= '9' then Some(52 + (c - '0') as nat)
    else if c == (if a.Standard? then '+' else '-') then Some(62)
    else if c == (if a.Standard? then '/' else '_') then Some(63)
    else None
  }

  lemma ValueOfSymbol(a: Alphabet, v: nat)
    requires v < 64
    ensures Value(a, Symbol(a, v)) == Some(v)
    ensures Symbol(a, v) !in "=\r\n"
  {
  }

  /** The alphabets of sections 4 and 5 of RFC 4648, by their bytes. */
  lemma SymbolsAre(a: Alphabet, v: nat)
    requires v < 64
    ensures Symbol(a, v) as int
         == if v <= 25 then 65 + v else if v <= 51 then 71 + v else if v <= 61 then v - 4
            else if a.Standard? then (if v == 62 then 43 else 47) else if v == 62 then 45 else 95
  {
  }

  // ----- Quanta -----

  /** The characters of one, two or three bytes. */
  function Quantum(a: Alphabet, s: string): (t: string)
    requires 1 <= |s| <= 3 && IsBytes(s)
    ensures |t| == |s| + 1
  {
    var b0, b1, b2 := s[0] as nat, if |s| > 1 then s[1] as nat else 0, if |s| > 2 then s[2] as nat else 0;
    [Symbol(a, b0 / 4), Symbol(a, b0 % 4 * 16 + b1 / 16),
     Symbol(a, b1 % 16 * 4 + b2 / 64), Symbol(a, b2 % 64)][..|s| + 1]
  }

  /** The bytes of two, three or four characters. */
  function Bytes(a: Alphabet, t: string): (s: Option<string>)
    requires 2 <= |t| <= 4
    ensures s.Some? ==> |s.value| == |t| - 1 && IsBytes(s.value)
  {
    var v0, v1 := Value(a, t[0]), Value(a, t[1]);
    var v2, v3 := if |t| > 2 then Value(a, t[2]) else Some(0), if |t| > 3 then Value(a, t[3]) else Some(0);
    if v0.None? || v1.None? || v2.None? || v3.None? then None else
    Some([(v0.value * 4 + v1.value / 16) as char,
          (v1.value % 16 * 16 + v2.value / 4) as char,
          (v2.value % 4 * 64 + v3.value) as char][..|t| - 1])
  }

  lemma BytesOfQuantum(a: Alphabet, s: string)
    requires 1 <= |s| <= 3 && IsBytes(s)
    ensures Bytes(a, Quantum(a, s)) == Some(s)
    ensures forall c :: c in Quantum(a, s) ==> c !in "=\r\n"
  {
    var v0, v1, v2, v3 := Cut(a, s);
    BytesOfCut(a, s, Quantum(a, s), v0, v1, v2, v3);
  }

  lemma BytesOfCut(a: Alphabet, s: string, t: string, v0: nat, v1: nat, v2: nat, v3: nat)
    requires 1 <= |s| <= 3 && IsBytes(s) && v0 < 64 && v1 < 64 && v2 < 64 && v3 < 64
    requires t == [Symbol(a, v0), Symbol(a, v1), Symbol(a, v2), Symbol(a, v3)][..|s| + 1]
    requires |s| < 3 ==> v3 == 0
    requires |s| < 2 ==> v2 == 0
    requires v0 * 4 + v1 / 16 == s[0] as nat
    requires |s| > 1 ==> v1 % 16 * 16 + v2 / 4 == s[1] as nat
    requires |s| > 2 ==> v2 % 4 * 64 + v3 == s[2] as nat
    ensures 2 <= |t| <= 4 && Bytes(a, t) == Some(s)
    ensures forall c :: c in t ==> c !in "=\r\n"
  {
    BytesOfSextets(a, t, v0, v1, v2, v3);
    UpToThree(s, v0 * 4 + v1 / 16, v1 % 16 * 16 + v2 / 4, v2 % 4 * 64 + v3);
  }

  lemma UpToThree(s: string, b0: nat, b1: nat, b2: nat)
    requires 1 <= |s| <= 3 && b0 < 256 && b1 < 256 && b2 < 256
    requires s[0] as nat == b0 && (|s| > 1 ==> s[1] as nat == b1) && (|s| > 2 ==> s[2] as nat == b2)
    ensures [b0 as char, b1 as char, b2 as char][..|s|] == s
  {
  }

  /** The sextets of up to three bytes, from which the bytes can be put together again. */
  lemma Cut(a: Alphabet, s: string) returns (v0: nat, v1: nat, v2: nat, v3: nat)
    requires 1 <= |s| <= 3 && IsBytes(s)
    ensures v0 < 64 && v1 < 64 && v2 < 64 && v3 < 64
    ensures Quantum(a, s) == [Symbol(a, v0), Symbol(a, v1), Symbol(a, v2), Symbol(a, v3)][..|s| + 1]
    ensures |s| < 3 ==> v3 == 0
    ensures |s| < 2 ==> v2 == 0
    ensures v0 * 4 + v1 / 16 == s[0] as nat
    ensures |s| > 1 ==> v1 % 16 * 16 + v2 / 4 == s[1] as nat
    ensures |s| > 2 ==> v2 % 4 * 64 + v3 == s[2] as nat
  {
    var b0, b1, b2 := s[0] as nat, if |s| > 1 then s[1] as nat else 0, if |s| > 2 then s[2] as nat else 0;
    v0, v1, v2, v3 := b0 / 4, b0 % 4 * 16 + b1 / 16, b1 % 16 * 4 + b2 / 64, b2 % 64;
    Regroup(b0, b1, b2);
  }

  /** The characters of a quantum are the digits, to base 64, of the number its bytes are to base
      256; missing bytes count as zero. */
  lemma QuantumIsNumber(a: Alphabet, s: string) returns (v0: nat, v1: nat, v2: nat, v3: nat)
    requires 1 <= |s| <= 3 && IsBytes(s)
    ensures v0 < 64 && v1 < 64 && v2 < 64 && v3 < 64
    ensures Quantum(a, s) == [Symbol(a, v0), Symbol(a, v1), Symbol(a, v2), Symbol(a, v3)][..|s| + 1]
    ensures ((v0 * 64 + v1) * 64 + v2) * 64 + v3
         == (s[0] as int * 256 + (if |s| > 1 then s[1] as int else 0)) * 256 + if |s| > 2 then s[2] as int else 0
  {
    var b0, b1, b2 := s[0] as nat, if |s| > 1 then s[1] as nat else 0, if |s| > 2 then s[2] as nat else 0;
    v0, v1, v2, v3 := b0 / 4, b0 % 4 * 16 + b1 / 16, b1 % 16 * 4 + b2 / 64, b2 % 64;
  }

  lemma BytesOfSextets(a: Alphabet, t: string, v0: nat, v1: nat, v2: nat, v3: nat)
    requires 2 <= |t| <= 4 && v0 < 64 && v1 < 64 && v2 < 64 && v3 < 64
    requires t == [Symbol(a, v0), Symbol(a, v1), Symbol(a, v2), Symbol(a, v3)][..|t|]
    requires |t| < 4 ==> v3 == 0
    requires |t| < 3 ==> v2 == 0
    ensures forall c :: c in t ==> c !in "=\r\n"
    ensures Bytes(a, t) ==
            Some([(v0 * 4 + v1 / 16) as char, (v1 % 16 * 16 + v2 / 4) as char, (v2 % 4 * 64 + v3) as char][..|t| - 1])
  {
    ValueOfSymbol(a, v0);
    ValueOfSymbol(a, v1);
    ValueOfSymbol(a, v2);
    ValueOfSymbol(a, v3);
    assert Value(a, t[0]) == Some(v0) && Value(a, t[1]) == Some(v1);
    assert |t| > 2 ==> Value(a, t[2]) == Some(v2);
    assert |t| > 3 ==> Value(a, t[3]) == Some(v3);
  }

  /** Three bytes cut into sextets and put together again. */
  lemma Regroup(b0: nat, b1: nat, b2: nat)
    requires b0 < 256 && b1 < 256 && b2 < 256
    ensures b0 / 4 * 4 + (b0 % 4 * 16 + b1 / 16) / 16 == b0
    ensures (b0 % 4 * 16 + b1 / 16) % 16 * 16 + (b1 % 16 * 4 + b2 / 64) / 4 == b1
    ensures (b1 % 16 * 4 + b2 / 64) % 4 * 64 + b2 % 64 == b2
  {
    assert (b0 % 4 * 16 + b1 / 16) / 16 == b0 % 4 && (b0 % 4 * 16 + b1 / 16) % 16 == b1 / 16;
    assert (b1 % 16 * 4 + b2 / 64) / 4 == b1 % 16 && (b1 % 16 * 4 + b2 / 64) % 4 == b2 / 64;
  }

  // ----- Whole texts -----

  function Encode(a: Alphabet, s: string): string
    requires IsBytes(s)
  {
    if s == [] then [] else
    if |s| <= 3 then Quantum(a, s) else Quantum(a, s[..3]) + Encode(a, s[3..])
  }

  /** The padding that completes the last quantum of a text of `n` bytes. */
  function Padding(n: nat): string {
    if n % 3 == 1 then "==" else if n % 3 == 2 then "=" else ""
  }

  function EncodePadded(a: Alphabet, s: string): string
    requires IsBytes(s)
  {
    Encode(a, s) + Padding(|s|)
  }

  function Prepend(head: Option<string>, tail: Option<string>): Option<string> {
    if head.None? || tail.None? then None else Some(head.value + tail.value)
  }

  function DecodeQuanta(a: Alphabet, t: string): Option<string> {
    if t == [] then Some([])
    else if |t| == 1 then None
    else if |t| <= 4 then Bytes(a, t)
    else Prepend(Bytes(a, t[..4]), DecodeQuanta(a, t[4..]))
  }

  function DecodePaddedQuanta(a: Alphabet, t: string): Option<string> {
    if t == [] then Some([])
    else if |t| < 4 then None
    else if |t| > 4 then Prepend(Bytes(a, t[..4]), DecodePaddedQuanta(a, t[4..]))
    else if t[3] != '=' then Bytes(a, t)
    else if t[2] == '=' then Bytes(a, t[..2])
    else Bytes(a, t[..3])
  }

  function WithoutBreaks(t: string): string {
    if t == [] then [] else (if t[0] in "\r\n" then [] else [t[0]]) + WithoutBreaks(t[1..])
  }

  function Decode(a: Alphabet, t: string): Option<string> {
    DecodeQuanta(a, WithoutBreaks(t))
  }

  function DecodePadded(a: Alphabet, t: string): Option<string> {
    DecodePaddedQuanta(a, WithoutBreaks(t))
  }

  lemma {:induction false} KeepsWithoutBreaks(t: string)
    requires forall c :: c in t ==> c !in "\r\n"
    ensures WithoutBreaks(t) == t
  {
    if t != [] {
      KeepsWithoutBreaks(t[1..]);
    }
  }

  lemma EncodeFirst(a: Alphabet, s: string)
    requires IsBytes(s) && |s| >= 3
    ensures Encode(a, s) == Quantum(a, s[..3]) + Encode(a, s[3..])
  {
    if |s| == 3 {
      assert s[..3] == s && s[3..] == [];
    }
  }

  /** Whole quanta are encoded one after the other. */
  lemma {:induction false} EncodeConcat(a: Alphabet, s: string, t: string)
    requires IsBytes(s) && IsBytes(t) && |s| % 3 == 0
    ensures Encode(a, s + t) == Encode(a, s) + Encode(a, t)
  {
    if s == [] {
      assert s + t == t;
    } else {
      FirstThree(s, t);
      EncodeFirst(a, s);
      EncodeFirst(a, s + t);
      EncodeConcat(a, s[3..], t);
      Regroup3(Quantum(a, s[..3]), Encode(a, s[3..]), Encode(a, t));
    }
  }

  lemma FirstThree(s: string, t: string)
    requires s != [] && |s| % 3 == 0
    ensures |s| >= 3 && |s[3..]| % 3 == 0 && (s + t)[..3] == s[..3] && (s + t)[3..] == s[3..] + t
  {
  }

  lemma Regroup3(a: string, b: string, c: string)
    ensures a + (b + c) == a + b + c
  {
  }

  /** The length and the alphabet of an encoded text. */
  lemma {:induction false} EncodedShape(a: Alphabet, s: string)
    requires IsBytes(s)
    ensures |Encode(a, s)| == |s| / 3 * 4 + (if |s| % 3 == 0 then 0 else |s| % 3 + 1)
    ensures forall c :: c in Encode(a, s) ==> c !in "=\r\n"
  {
    if s != [] {
      if |s| <= 3 {
        BytesOfQuantum(a, s);
      } else {
        BytesOfQuantum(a, s[..3]);
        EncodedShape(a, s[3..]);
      }
    }
  }

  lemma {:induction false} DecodeQuantaEncode(a: Alphabet, s: string)
    requires IsBytes(s)
    ensures DecodeQuanta(a, Encode(a, s)) == Some(s)
  {
    if s != [] {
      if |s| <= 3 {
        BytesOfQuantum(a, s);
      } else {
        BytesOfQuantum(a, s[..3]);
        DecodeQuantaEncode(a, s[3..]);
        EncodedShape(a, s[3..]);
        assert Encode(a, s)[..4] == Quantum(a, s[..3]) && Encode(a, s)[4..] == Encode(a, s[3..]);
        assert s[..3] + s[3..] == s;
      }
    }
  }

  /** Unpadded round trip, for byte strings of every length. */
  lemma DecodeEncode(a: Alphabet, s: string)
    requires IsBytes(s)
    ensures Decode(a, Encode(a, s)) == Some(s)
  {
    EncodedShape(a, s);
    KeepsWithoutBreaks(Encode(a, s));
    DecodeQuantaEncode(a, s);
  }

  lemma {:induction false} DecodePaddedQuantaEncode(a: Alphabet, s: string)
    requires IsBytes(s)
    ensures DecodePaddedQuanta(a, EncodePadded(a, s)) == Some(s)
  {
    if s != [] {
      if |s| <= 3 {
        LastQuantum(a, s);
      } else {
        DecodePaddedQuantaEncode(a, s[3..]);
        FirstQuantum(a, s);
      }
    }
  }

  lemma FirstQuantum(a: Alphabet, s: string)
    requires |s| > 3 && IsBytes(s)
    ensures var t := EncodePadded(a, s);
            DecodePaddedQuanta(a, t) == Prepend(Some(s[..3]), DecodePaddedQuanta(a, EncodePadded(a, s[3..])))
    ensures s[..3] + s[3..] == s
  {
    BytesOfQuantum(a, s[..3]);
    EncodePaddedSplit(a, s);
    PaddedSplit(a, Quantum(a, s[..3]), EncodePadded(a, s[3..]));
  }

  lemma EncodePaddedSplit(a: Alphabet, s: string)
    requires |s| > 3 && IsBytes(s)
    ensures EncodePadded(a, s) == Quantum(a, s[..3]) + EncodePadded(a, s[3..])
    ensures EncodePadded(a, s[3..]) != []
  {
    assert Padding(|s|) == Padding(|s| - 3);
    assert Encode(a, s) == Quantum(a, s[..3]) + Encode(a, s[3..]);
  }

  lemma PaddedSplit(a: Alphabet, q: string, rest: string)
    requires |q| == 4 && rest != []
    ensures DecodePaddedQuanta(a, q + rest) == Prepend(Bytes(a, q), DecodePaddedQuanta(a, rest))
  {
    assert (q + rest)[..4] == q && (q + rest)[4..] == rest;
  }

  lemma LastQuantum(a: Alphabet, s: string)
    requires 1 <= |s| <= 3 && IsBytes(s)
    ensures DecodePaddedQuanta(a, Quantum(a, s) + Padding(|s|)) == Some(s)
  {
    BytesOfQuantum(a, s);
    var q, t := Quantum(a, s), Quantum(a, s) + Padding(|s|);
    assert t[..|s| + 1] == q;
    if |s| == 3 {
      assert t[3] == q[3] && q[3] in q && t == q;
    } else if |s| == 2 {
      assert t[2] == q[2] && q[2] in q && t[3] == '=';
    } else {
      assert t[2] == '=' && t[3] == '=';
    }
  }

  /** Padded round trip. */
  lemma DecodePaddedEncode(a: Alphabet, s: string)
    requires IsBytes(s)
    ensures DecodePadded(a, EncodePadded(a, s)) == Some(s)
  {
    EncodedShape(a, s);
    KeepsWithoutBreaks(EncodePadded(a, s));
    DecodePaddedQuantaEncode(a, s);
  }

  /** A text whose length is not a multiple of four is not padded Base64. */
  lemma {:induction false} PaddedNeedsFullQuanta(a: Alphabet, t: string)
    requires |t| % 4 != 0
    ensures DecodePaddedQuanta(a, t).None?
  {
    if |t| > 4 {
      PaddedNeedsFullQuanta(a, t[4..]);
    }
  }
}
