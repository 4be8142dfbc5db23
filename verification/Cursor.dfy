/** Opaque page tokens (pagination/cursor.go): a cursor printed as JSON, sealed, and written in
    unpadded base64url. AES-GCM, the nonce and SHA-256 are parameters. */
module Cursor {
  import opened Common
  import opened Base64
  import opened JsonText
  import V = Versions

  datatype Cursor = Cursor(offset: int, position: string, binding: string)

  /** The only error decoding reports. */
  datatype TokenError = InvalidPageToken | BadKey

  const NONCE_SIZE := 12

  /** cipher.AEAD: `seal` and `open` take the nonce and the text. */
  datatype Aead = Aead(seal: (string, string) -> string, open: (string, string) -> Option<string>)

  /** What is assumed of AES-GCM (sections 7.1 and 7.2 of NIST SP 800-38D). */
  ghost predicate Lawful(a: Aead) {
    forall nonce, text :: IsBytes(nonce) && |nonce| == NONCE_SIZE && IsBytes(text) ==>
      IsBytes(a.seal(nonce, text)) && a.open(nonce, a.seal(nonce, text)) == Some(text)
  }

  // ----- JSON of a cursor -----

  /** A member of an object whose name needs no escapes. */
  function Member(name: string, value: string): string {
    "\"" + (name + ("\":" + value))
  }

  function BindingPart(c: Cursor): string {
    Member("binding", Quote(c.binding) + "}")
  }

  /** An empty position is omitted. */
  function PositionPart(c: Cursor): string {
    if c.position == "" then BindingPart(c) else Member("position", Quote(c.position) + ("," + BindingPart(c)))
  }

  function Marshal(c: Cursor): string {
    "{" + Member("offset", V.Format(c.offset) + ("," + PositionPart(c)))
  }

  lemma MemberLooks(name: string, value: string, head: string)
    requires head == "\"" + name + "\":"
    ensures Member(name, value) == head + value
  {
  }

  /** How the JSON of a cursor looks when its texts need no escapes, as bindings never do. */
  lemma MarshalLooks(c: Cursor, binding: string, rest: string)
    requires (forall i :: 0 <= i < |c.position| ==> Unescaped(c.position[i]))
    requires (forall i :: 0 <= i < |c.binding| ==> Unescaped(c.binding[i]))
    requires binding == "\"binding\":" + (("\"" + c.binding + "\"") + "}")
    requires rest == if c.position == "" then binding
                     else "\"position\":" + (("\"" + c.position + "\"") + ("," + binding))
    ensures Marshal(c) == "{" + ("\"offset\":" + (V.Format(c.offset) + ("," + rest)))
  {
    QuoteUnescaped(c.position);
    QuoteUnescaped(c.binding);
    MemberLooks("binding", Quote(c.binding) + "}", "\"binding\":");
    MemberLooks("position", Quote(c.position) + ("," + BindingPart(c)), "\"position\":");
    MemberLooks("offset", V.Format(c.offset) + ("," + PositionPart(c)), "\"offset\":");
  }

  datatype Scalar = Text(s: string) | Number(n: int)

  predicate IsNumberChar(c: char) {
    c == '-' || V.IsDigit(c)
  }

  /** The length of the longest prefix of digits and signs. */
  function NumberLength(t: string): (n: nat)
    ensures n <= |t|
  {
    if t == [] || !IsNumberChar(t[0]) then 0 else 1 + NumberLength(t[1..])
  }

  /** A JSON integer: no leading zeros, and within 64 bits. */
  function Integer(t: string): Option<int> {
    var digits := if t != [] && t[0] == '-' then t[1..] else t;
    if |digits| > 1 && digits[0] == '0' then None else V.ParseInt(t)
  }

  function ReadScalar(t: string): (r: Option<(Scalar, string)>)
    ensures r.Some? ==> |r.value.1| < |t|
  {
    if t == [] then None
    else if t[0] == '"' then
      match ReadString(t[1..])
      case None => None
      case Some(read) => Some((Text(read.text), read.rest))
    else
      var n := NumberLength(t);
      if n == 0 then None else
      match Integer(t[..n])
      case None => None
      case Some(v) => Some((Number(v), t[n..]))
  }

  /** Stores a member; one of the wrong type is an error, an unknown one is skipped. */
  function Store(c: Cursor, name: string, v: Scalar): Option<Cursor> {
    if name == "offset" then (if v.Number? then Some(c.(offset := v.n)) else None)
    else if name == "position" then (if v.Text? then Some(c.(position := v.s)) else None)
    else if name == "binding" then (if v.Text? then Some(c.(binding := v.s)) else None)
    else Some(c)
  }

  /** The member `t` starts with, and what follows it. */
  function ReadMember(t: string): (r: Option<(string, Scalar, string)>)
    ensures r.Some? ==> |r.value.2| < |t|
  {
    if t == [] || t[0] != '"' then None else
    match ReadString(t[1..])
    case None => None
    case Some(name) =>
      if name.rest == [] || name.rest[0] != ':' then None else
      match ReadScalar(name.rest[1..])
      case None => None
      case Some((v, rest)) => Some((name.text, v, rest))
  }

  /** The members of an object after its opening brace, in any order; the last one wins. */
  function Members(t: string, c: Cursor): Option<Cursor>
    decreases |t|
  {
    match ReadMember(t)
    case None => None
    case Some((name, v, rest)) =>
      match Store(c, name, v)
      case None => None
      case Some(c1) =>
        if rest == "}" then Some(c1)
        else if rest != [] && rest[0] == ',' then Members(rest[1..], c1)
        else None
  }

  function Unmarshal(t: string): Option<Cursor> {
    if t == "{}" then Some(Cursor(0, "", ""))
    else if t == [] || t[0] != '{' then None
    else Members(t[1..], Cursor(0, "", ""))
  }

  // ----- The codec -----

  /** NewCursorCodec; `gcm` builds the cipher for a key. */
  function NewCursorCodec(gcm: string -> Aead, key: string): Result<Aead, TokenError> {
    if |key| != 32 then Err(BadKey) else Ok(gcm(key))
  }

  function NewCursorCodecFromBase64(gcm: string -> Aead, encodedKey: string): Result<Aead, TokenError> {
    match DecodePadded(Standard, encodedKey)
    case Some(key) => NewCursorCodec(gcm, key)
    case None =>
      match Base64.Decode(Standard, encodedKey)
      case Some(key) => NewCursorCodec(gcm, key)
      case None => Err(BadKey)
  }

  lemma {:induction false} EscapeIsBytes(s: string)
    ensures IsBytes(Escape(s))
  {
    if s != [] {
      EscapeIsBytes(s[HeadLength(s)..]);
      HeadTokenIsBytes(s);
    }
  }

  lemma HeadTokenIsBytes(s: string)
    requires s != []
    ensures IsBytes(HeadToken(s))
  {
  }

  lemma QuoteIsBytes(s: string)
    ensures IsBytes(Quote(s))
  {
    EscapeIsBytes(s);
  }

  lemma MemberIsBytes(name: string, a: string, b: string)
    requires IsBytes(name) && IsBytes(a) && IsBytes(b)
    ensures IsBytes(Member(name, a + b))
  {
  }

  lemma BindingPartIsBytes(c: Cursor)
    ensures IsBytes("," + BindingPart(c))
  {
    QuoteIsBytes(c.binding);
    MemberIsBytes("binding", Quote(c.binding), "}");
  }

  lemma PositionPartIsBytes(c: Cursor)
    ensures IsBytes("," + PositionPart(c))
  {
    BindingPartIsBytes(c);
    if c.position != "" {
      QuoteIsBytes(c.position);
      MemberIsBytes("position", Quote(c.position), "," + BindingPart(c));
    }
  }

  lemma MarshalIsBytes(c: Cursor)
    ensures IsBytes(Marshal(c))
  {
    PositionPartIsBytes(c);
    FormatIsBytes(c.offset);
    MemberIsBytes("offset", V.Format(c.offset), "," + PositionPart(c));
  }

  lemma {:induction false} DigitsAreDigits(n: nat)
    ensures V.Digits(n) != [] && forall i :: 0 <= i < |V.Digits(n)| ==> V.IsDigit(V.Digits(n)[i])
    ensures V.Digits(n)[0] == '0' ==> n == 0
  {
    if n >= 10 {
      DigitsAreDigits(n / 10);
    }
  }

  lemma FormatIsBytes(n: int)
    ensures IsBytes(V.Format(n))
  {
    DigitsAreDigits(if n < 0 then -n else n);
  }

  /** The nonce a token starts with, and a cipher that seals bytes into bytes. */
  ghost predicate CanSeal(codec: Option<Aead>, nonce: string) {
    && IsBytes(nonce) && |nonce| == NONCE_SIZE
    && (codec.Some? ==> forall text :: IsBytes(text) ==> IsBytes(codec.value.seal(nonce, text)))
  }

  lemma SealedIsBytes(a: Aead, c: Cursor, nonce: string)
    requires CanSeal(Some(a), nonce)
    ensures IsBytes(nonce + a.seal(nonce, Marshal(c)))
  {
    MarshalIsBytes(c);
  }

  /** `encode`; no codec and negative offsets are refused. */
  function Encode(codec: Option<Aead>, c: Cursor, nonce: string): Result<string, TokenError>
    requires CanSeal(codec, nonce)
  {
    if codec.None? || c.offset < 0 then Err(InvalidPageToken) else
    SealedIsBytes(codec.value, c, nonce);
    Ok(Base64.Encode(Url, nonce + codec.value.seal(nonce, Marshal(c))))
  }

  /** The cursor inside a token, if it is one of the codec's. */
  function Open(codec: Option<Aead>, token: string): Option<Cursor> {
    if codec.None? then None else
    match Base64.Decode(Url, token)
    case None => None
    case Some(text) =>
      if |text| < NONCE_SIZE then None else
      match codec.value.open(text[..NONCE_SIZE], text[NONCE_SIZE..])
      case None => None
      case Some(payload) => Unmarshal(payload)
  }

  function Decode(codec: Option<Aead>, token: string, binding: string): Result<Cursor, TokenError> {
    match Open(codec, token)
    case None => Err(InvalidPageToken)
    case Some(c) => if c.offset < 0 || c.binding != binding then Err(InvalidPageToken) else Ok(c)
  }

  function EncodeOffset(codec: Option<Aead>, offset: int, binding: string, nonce: string): Result<string, TokenError>
    requires CanSeal(codec, nonce)
  {
    Encode(codec, Cursor(offset, "", binding), nonce)
  }

  function DecodeOffset(codec: Option<Aead>, token: string, binding: string): Result<int, TokenError> {
    if token == "" then Ok(0) else
    match Decode(codec, token, binding)
    case Err(_) => Err(InvalidPageToken)
    case Ok(c) => if c.position != "" then Err(InvalidPageToken) else Ok(c.offset)
  }

  function EncodeKeyset(codec: Option<Aead>, position: string, binding: string, nonce: string):
    Result<string, TokenError>
    requires CanSeal(codec, nonce)
  {
    if position == "" then Err(InvalidPageToken) else Encode(codec, Cursor(0, position, binding), nonce)
  }

  function DecodeKeyset(codec: Option<Aead>, token: string, binding: string): Result<string, TokenError> {
    if token == "" then Ok("") else
    match Decode(codec, token, binding)
    case Err(_) => Err(InvalidPageToken)
    case Ok(c) => if c.position == "" || c.offset != 0 then Err(InvalidPageToken) else Ok(c.position)
  }

  // ----- Unmarshal after Marshal -----

  lemma {:induction false} NumberLengthOf(p: string, t: string)
    requires forall i :: 0 <= i < |p| ==> IsNumberChar(p[i])
    requires t != [] && !IsNumberChar(t[0])
    ensures NumberLength(p + t) == |p|
  {
    if p == [] {
      assert p + t == t;
    } else {
      NumberLengthOf(p[1..], t);
      assert (p + t)[1..] == p[1..] + t;
    }
  }

  lemma ReadFormatted(n: int, t: string)
    requires 0 <= n <= V.MAX
    requires t != [] && !IsNumberChar(t[0])
    ensures ReadScalar(V.Format(n) + t) == Some((Number(n), t))
  {
    var p := V.Format(n);
    DigitsAreDigits(n);
    NumberLengthOf(p, t);
    assert (p + t)[..|p|] == p && (p + t)[|p|..] == t;
    V.ParseFormat(n);
    assert p[0] == '0' ==> n == 0 && |p| == 1;
  }

  lemma ReadQuoted(s: string, t: string)
    ensures ReadScalar(Quote(s) + t) == Some((Text(Sanitize(s)), t))
  {
    QuoteRoundTrip(s, t);
  }

  /** Names the encoder writes as they are. */
  predicate Plain(name: string) {
    forall i :: 0 <= i < |name| ==> 'a' <= name[i] <= 'z'
  }

  lemma {:induction false} ReadPlain(name: string, rest: string)
    requires Plain(name)
    ensures ReadString(name + ("\"" + rest)) == Some(Read(name, rest))
  {
    if name == [] {
      assert name + ("\"" + rest) == "\"" + rest;
    } else {
      ReadPlain(name[1..], rest);
      assert name + ("\"" + rest) == [name[0]] + (name[1..] + ("\"" + rest));
      assert ([name[0]] + (name[1..] + ("\"" + rest)))[1..] == name[1..] + ("\"" + rest);
      ReadToken([name[0]], [name[0]], name[1..] + ("\"" + rest));
      assert [name[0]] + name[1..] == name;
    }
  }

  /** One member followed by `t`. */
  lemma ReadMemberOf(name: string, value: string, v: Scalar, t: string)
    requires Plain(name) && ReadScalar(value + t) == Some((v, t))
    ensures ReadMember(Member(name, value + t)) == Some((name, v, t))
  {
    var rest := ":" + (value + t);
    assert Member(name, value + t)[1..] == name + ("\"" + rest);
    ReadPlain(name, rest);
    assert rest[1..] == value + t;
  }

  lemma MembersNext(name: string, value: string, v: Scalar, rest: string, acc: Cursor)
    requires Plain(name) && Store(acc, name, v).Some?
    requires ReadScalar(value + ("," + rest)) == Some((v, "," + rest))
    ensures Members(Member(name, value + ("," + rest)), acc) == Members(rest, Store(acc, name, v).value)
  {
    ReadMemberOf(name, value, v, "," + rest);
    MembersAfter(Member(name, value + ("," + rest)), name, v, rest, acc);
  }

  lemma MembersAfter(t: string, name: string, v: Scalar, rest: string, acc: Cursor)
    requires ReadMember(t) == Some((name, v, "," + rest)) && Store(acc, name, v).Some?
    ensures Members(t, acc) == Members(rest, Store(acc, name, v).value)
  {
    assert ("," + rest)[1..] == rest && ("," + rest)[0] == ',';
  }

  lemma MembersLast(name: string, value: string, v: Scalar, acc: Cursor)
    requires Plain(name) && Store(acc, name, v).Some?
    requires ReadScalar(value + "}") == Some((v, "}"))
    ensures Members(Member(name, value + "}"), acc) == Store(acc, name, v)
  {
    ReadMemberOf(name, value, v, "}");
  }

  lemma MembersOfBinding(c: Cursor, acc: Cursor)
    ensures Members(BindingPart(c), acc) == Some(acc.(binding := Sanitize(c.binding)))
  {
    MembersLastText(BindingPart(c), "binding", c.binding, acc, acc.(binding := Sanitize(c.binding)));
  }

  lemma MembersLastText(t: string, name: string, s: string, acc: Cursor, acc': Cursor)
    requires t == Member(name, Quote(s) + "}")
    requires Plain(name) && Store(acc, name, Text(Sanitize(s))) == Some(acc')
    ensures Members(t, acc) == Some(acc')
  {
    ReadQuoted(s, "}");
    MembersLast(name, Quote(s), Text(Sanitize(s)), acc);
  }

  lemma MembersOfPosition(c: Cursor, acc: Cursor)
    requires c.position != ""
    ensures Members(PositionPart(c), acc) == Members(BindingPart(c), acc.(position := Sanitize(c.position)))
  {
    MembersNextText(PositionPart(c), "position", c.position, BindingPart(c), acc,
                    acc.(position := Sanitize(c.position)));
  }

  lemma MembersNextText(t: string, name: string, s: string, rest: string, acc: Cursor, acc': Cursor)
    requires t == Member(name, Quote(s) + ("," + rest))
    requires Plain(name) && Store(acc, name, Text(Sanitize(s))) == Some(acc')
    ensures Members(t, acc) == Members(rest, acc')
  {
    ReadQuoted(s, "," + rest);
    MembersNext(name, Quote(s), Text(Sanitize(s)), rest, acc);
  }

  lemma MembersOfOffset(c: Cursor)
    requires 0 <= c.offset <= V.MAX
    ensures Unmarshal(Marshal(c)) == Members(PositionPart(c), Cursor(c.offset, "", ""))
  {
    var t := Member("offset", V.Format(c.offset) + ("," + PositionPart(c)));
    MembersNextNumber(t, "offset", c.offset, PositionPart(c), Cursor(0, "", ""), Cursor(c.offset, "", ""));
  }

  lemma MembersNextNumber(t: string, name: string, n: int, rest: string, acc: Cursor, acc': Cursor)
    requires 0 <= n <= V.MAX && t == Member(name, V.Format(n) + ("," + rest))
    requires Plain(name) && Store(acc, name, Number(n)) == Some(acc')
    ensures Members(t, acc) == Members(rest, acc')
  {
    ReadFormatted(n, "," + rest);
    MembersNext(name, V.Format(n), Number(n), rest, acc);
  }

  /** What Unmarshal recovers: the cursor with its texts sanitized. */
  lemma UnmarshalMarshal(c: Cursor)
    requires 0 <= c.offset <= V.MAX
    ensures Unmarshal(Marshal(c)) == Some(Cursor(c.offset, Sanitize(c.position), Sanitize(c.binding)))
  {
    MembersOfOffset(c);
    if c.position != "" {
      MembersOfPosition(c, Cursor(c.offset, "", ""));
    }
    MembersOfBinding(c, Cursor(c.offset, Sanitize(c.position), ""));
  }

  // ----- Tokens -----

  /** Opening an issued token yields the cursor it was issued for, with its texts sanitized. */
  lemma {:induction false} OpenEncode(a: Aead, c: Cursor, nonce: string)
    requires Lawful(a) && IsBytes(nonce) && |nonce| == NONCE_SIZE && 0 <= c.offset <= V.MAX
    ensures CanSeal(Some(a), nonce)
    ensures Encode(Some(a), c, nonce).Ok? && Encode(Some(a), c, nonce).value != ""
    ensures Open(Some(a), Encode(Some(a), c, nonce).value) ==
            Some(Cursor(c.offset, Sanitize(c.position), Sanitize(c.binding)))
  {
    MarshalIsBytes(c);
    var sealed := a.seal(nonce, Marshal(c));
    assert CanSeal(Some(a), nonce);
    SealedIsBytes(a, c, nonce);
    OpenText(a, nonce, sealed, Marshal(c));
    UnmarshalMarshal(c);
  }

  lemma OpenText(a: Aead, nonce: string, sealed: string, payload: string)
    requires IsBytes(nonce + sealed) && |nonce| == NONCE_SIZE && a.open(nonce, sealed) == Some(payload)
    ensures Open(Some(a), Base64.Encode(Url, nonce + sealed)) == Unmarshal(payload)
  {
    DecodeEncode(Url, nonce + sealed);
    assert (nonce + sealed)[..NONCE_SIZE] == nonce && (nonce + sealed)[NONCE_SIZE..] == sealed;
  }

  /** For every lawful cipher, nonce, offset and binding: an issued offset token is never empty,
      and gives its offset back exactly when the binding is valid UTF-8; it is never a keyset
      token. */
  lemma {:induction false} OffsetRoundTrip(a: Aead, offset: int, binding: string, nonce: string)
    requires Lawful(a) && CanSeal(Some(a), nonce) && 0 <= offset <= V.MAX
    ensures var issued := EncodeOffset(Some(a), offset, binding, nonce);
            && issued.Ok? && issued.value != ""
            && (DecodeOffset(Some(a), issued.value, binding) == Ok(offset) <==> ValidUtf8(binding))
            && DecodeKeyset(Some(a), issued.value, binding).Err?
  {
    OpenEncode(a, Cursor(offset, "", binding), nonce);
    SanitizeKeepsIff(binding);
    DecodeOpened(Some(a), EncodeOffset(Some(a), offset, binding, nonce).value,
                 Cursor(offset, "", Sanitize(binding)), binding);
  }

  /** Both decoders, in terms of the cursor inside the token. */
  lemma DecodeOpened(codec: Option<Aead>, token: string, c: Cursor, binding: string)
    requires token != "" && Open(codec, token) == Some(c) && c.offset >= 0
    ensures DecodeOffset(codec, token, binding) ==
      if c.binding == binding && c.position == "" then Ok(c.offset) else Err(InvalidPageToken)
    ensures DecodeKeyset(codec, token, binding) ==
      if c.binding == binding && c.position != "" && c.offset == 0 then Ok(c.position) else Err(InvalidPageToken)
  {
  }

  /** Likewise for keyset tokens: the position comes back exactly when it and the binding are
      valid UTF-8. An empty position is refused. */
  lemma {:induction false} KeysetRoundTrip(a: Aead, position: string, binding: string, nonce: string)
    requires Lawful(a) && CanSeal(Some(a), nonce)
    ensures var issued := EncodeKeyset(Some(a), position, binding, nonce);
            if position == "" then issued == Err(InvalidPageToken) else
            && issued.Ok? && issued.value != ""
            && (DecodeKeyset(Some(a), issued.value, binding) == Ok(position) <==>
                  ValidUtf8(position) && ValidUtf8(binding))
            && DecodeOffset(Some(a), issued.value, binding).Err?
  {
    if position != "" {
      OpenEncode(a, Cursor(0, position, binding), nonce);
      SanitizeKeepsIff(binding);
      SanitizeKeepsIff(position);
      SanitizeLength(position);
      DecodeOpened(Some(a), EncodeKeyset(Some(a), position, binding, nonce).value,
                   Cursor(0, Sanitize(position), Sanitize(binding)), binding);
    }
  }

  /** A position of one byte 0xFF is issued but does not come back. */
  lemma InvalidPositionIsLost(a: Aead, position: string, nonce: string)
    requires Lawful(a) && CanSeal(Some(a), nonce) && position == [0xFF as char]
    ensures var issued := EncodeKeyset(Some(a), position, "", nonce);
            issued.Ok? && DecodeKeyset(Some(a), issued.value, "") != Ok(position)
  {
    KeysetRoundTrip(a, position, "", nonce);
    assert RuneLength(position) == 0;
  }

  /** For every token string other than the empty one, whoever made it: it is not both an
      offset and a keyset token, whatever the bindings; and all the bindings under which it is
      accepted are the same one. Offsets are never negative and positions never empty. */
  lemma {:induction false} TokenHasOneMeaning(codec: Option<Aead>, token: string, b1: string, b2: string)
    requires token != ""
    ensures !(DecodeOffset(codec, token, b1).Ok? && DecodeKeyset(codec, token, b2).Ok?)
    ensures DecodeOffset(codec, token, b1).Ok? && DecodeOffset(codec, token, b2).Ok? ==> b1 == b2
    ensures DecodeKeyset(codec, token, b1).Ok? && DecodeKeyset(codec, token, b2).Ok? ==> b1 == b2
    ensures DecodeOffset(codec, token, b1).Ok? ==> DecodeOffset(codec, token, b1).value >= 0
    ensures DecodeKeyset(codec, token, b1).Ok? ==> DecodeKeyset(codec, token, b1).value != ""
  {
  }

  /** A sealed cursor with both an offset and a position is neither an offset token nor a keyset
      token. */
  lemma MixedTokenIsRefused(a: Aead, c: Cursor, nonce: string, binding: string)
    requires Lawful(a) && CanSeal(Some(a), nonce) && 0 < c.offset <= V.MAX && c.position != ""
    ensures Encode(Some(a), c, nonce).Ok?
    ensures DecodeOffset(Some(a), Encode(Some(a), c, nonce).value, binding).Err?
    ensures DecodeKeyset(Some(a), Encode(Some(a), c, nonce).value, binding).Err?
  {
    OpenEncode(a, c, nonce);
    SanitizeLength(c.position);
    var inside := Cursor(c.offset, Sanitize(c.position), Sanitize(c.binding));
    DecodeOpened(Some(a), Encode(Some(a), c, nonce).value, inside, binding);
  }

  /** The token is the nonce and the sealed cursor, and nothing else, in Base64. */
  lemma TokenIsSealed(a: Aead, c: Cursor, nonce: string)
    requires CanSeal(Some(a), nonce) && c.offset >= 0
    ensures Encode(Some(a), c, nonce).Ok?
    ensures Base64.Decode(Url, Encode(Some(a), c, nonce).value) == Some(nonce + a.seal(nonce, Marshal(c)))
  {
    SealedIsBytes(a, c, nonce);
    DecodeEncode(Url, nonce + a.seal(nonce, Marshal(c)));
  }

  /** A cipher that opens only what it sealed. */
  ghost predicate Authentic(a: Aead) {
    forall nonce, sealed, text :: a.open(nonce, sealed) == Some(text) ==> sealed == a.seal(nonce, text)
  }

  /** Only what was sealed is accepted: a token that either decoder accepts is a nonce followed by a
      sealed text, and that text is the JSON of a cursor with this binding. */
  lemma AcceptedWasSealed(a: Aead, token: string, binding: string)
    requires Authentic(a) && token != ""
    requires DecodeOffset(Some(a), token, binding).Ok? || DecodeKeyset(Some(a), token, binding).Ok?
    ensures exists nonce, text ::
      && |nonce| == 12 && Base64.Decode(Url, token) == Some(nonce + a.seal(nonce, text))
      && Unmarshal(text).Some? && Unmarshal(text).value.binding == binding
  {
    var whole := Base64.Decode(Url, token).value;
    var nonce, sealed := whole[..NONCE_SIZE], whole[NONCE_SIZE..];
    var text := a.open(nonce, sealed).value;
    assert whole == nonce + sealed && sealed == a.seal(nonce, text);
  }

  /** A key given padded or unpadded yields the same codec, or the same refusal: exactly the
      32-byte keys are accepted. */
  lemma {:induction false} PaddingDoesNotMatter(gcm: string -> Aead, key: string)
    requires IsBytes(key)
    ensures NewCursorCodecFromBase64(gcm, EncodePadded(Standard, key)) == NewCursorCodec(gcm, key)
    ensures NewCursorCodecFromBase64(gcm, Base64.Encode(Standard, key)) == NewCursorCodec(gcm, key)
    ensures NewCursorCodec(gcm, key) == if |key| == 32 then Ok(gcm(key)) else Err(BadKey)
  {
    DecodePaddedEncode(Standard, key);
    DecodeEncode(Standard, key);
    if |key| % 3 == 0 {
      assert EncodePadded(Standard, key) == Base64.Encode(Standard, key);
    } else {
      UnpaddedIsNotPadded(key);
    }
  }

  lemma UnpaddedIsNotPadded(key: string)
    requires IsBytes(key) && |key| % 3 != 0
    ensures DecodePadded(Standard, Base64.Encode(Standard, key)).None?
  {
    var t := Base64.Encode(Standard, key);
    EncodedShape(Standard, key);
    assert forall c :: c in t ==> c !in "\r\n";
    KeepsWithoutBreaks(t);
    NotAMultiple(|t|, |key| / 3, |key| % 3);
    PaddedNeedsFullQuanta(Standard, t);
  }

  lemma NotAMultiple(n: nat, q: nat, k: nat)
    requires n == q * 4 + k + 1 && 1 <= k <= 2
    ensures n % 4 != 0
  {
  }
}
