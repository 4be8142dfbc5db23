/** List requests (pagination/page.go) and the binding of a token to its query
    (pagination/cursor.go:136-144). */
module Page {
  import opened Common
  import opened Base64
  import opened JsonText
  import opened Cursor
  import V = Versions

  const DEFAULT_PAGE_SIZE := 50
  const MAX_PAGE_SIZE := 1000

  datatype PageError = BadToken | BadSize | BadScope

  function NormalizePageSize(pageSize: int): (r: Result<int, PageError>)
    ensures r.Ok? <==> pageSize >= 0
    ensures r.Ok? ==> 1 <= r.value <= MAX_PAGE_SIZE
    ensures r.Ok? && pageSize > 0 ==> r.value <= pageSize && (r.value == pageSize || r.value == MAX_PAGE_SIZE)
    ensures pageSize == 0 ==> r == Ok(DEFAULT_PAGE_SIZE)
  {
    if pageSize < 0 then Err(BadSize)
    else if pageSize == 0 then Ok(DEFAULT_PAGE_SIZE)
    else if pageSize > MAX_PAGE_SIZE then Ok(MAX_PAGE_SIZE)
    else Ok(pageSize)
  }

  /** A query: `payload` is the JSON of its namespace and scope (None when it has none), `digest`
      the SHA-256 sum. */
  datatype Query = Query(payload: Option<string>, digest: string -> string)

  ghost predicate Hashes(q: Query) {
    forall text :: IsBytes(q.digest(text)) && |q.digest(text)| == 32
  }

  function Binding(q: Query): Option<string>
    requires Hashes(q)
  {
    match q.payload
    case None => None
    case Some(text) => Some(Base64.Encode(Url, q.digest(text)))
  }

  datatype Request<T> = Request(at: T, size: int, binding: string)

  function Resolve(codec: Option<Aead>, token: string, pageSize: int, q: Query): Result<Request<int>, PageError>
    requires Hashes(q)
  {
    match Binding(q)
    case None => Err(BadScope)
    case Some(binding) =>
      match DecodeOffset(codec, token, binding)
      case Err(_) => Err(BadToken)
      case Ok(offset) =>
        match NormalizePageSize(pageSize)
        case Err(e) => Err(e)
        case Ok(size) => Ok(Request(offset, size, binding))
  }

  function ResolveKeyset(codec: Option<Aead>, token: string, pageSize: int, q: Query):
    Result<Request<string>, PageError>
    requires Hashes(q)
  {
    match Binding(q)
    case None => Err(BadScope)
    case Some(binding) =>
      match DecodeKeyset(codec, token, binding)
      case Err(_) => Err(BadToken)
      case Ok(position) =>
        match NormalizePageSize(pageSize)
        case Err(e) => Err(e)
        case Ok(size) => Ok(Request(position, size, binding))
  }

  lemma {:induction false} EncodedIsAscii(s: string)
    requires IsBytes(s)
    ensures forall i :: 0 <= i < |Base64.Encode(Url, s)| ==> Base64.Encode(Url, s)[i] as int < 0x80
  {
    if |s| > 3 {
      EncodedIsAscii(s[3..]);
    }
  }

  lemma {:induction false} AsciiIsValid(s: string)
    requires forall i :: 0 <= i < |s| ==> s[i] as int < 0x80
    ensures ValidUtf8(s)
  {
    if s != [] {
      AsciiIsValid(s[1..]);
    }
  }

  lemma BindingIsValid(q: Query)
    requires Hashes(q) && Binding(q).Some?
    ensures ValidUtf8(Binding(q).value)
  {
    EncodedIsAscii(q.digest(q.payload.value));
    AsciiIsValid(Binding(q).value);
  }

  /** Any request that resolves, whatever its token: the page size is within 1..1000 and the
      offset is not negative; the first page starts at offset zero. */
  lemma {:induction false} ResolvedIsInRange(codec: Option<Aead>, token: string, pageSize: int, q: Query)
    requires Hashes(q)
    ensures var r := Resolve(codec, token, pageSize, q);
            r.Ok? ==> 1 <= r.value.size <= MAX_PAGE_SIZE && r.value.at >= 0 && (token == "" ==> r.value.at == 0)
    ensures var r := ResolveKeyset(codec, token, pageSize, q);
            r.Ok? ==> 1 <= r.value.size <= MAX_PAGE_SIZE && (r.value.at == "" <==> token == "")
  {
    if token != "" && Binding(q).Some? {
      TokenHasOneMeaning(codec, token, Binding(q).value, Binding(q).value);
    }
  }

  /** The token issued for the next page of a query resolves for that query to exactly the
      offset it was issued for, and for no query with another binding. */
  lemma {:induction false} NextPageResolves(a: Aead, q: Query, other: Query, offset: int, pageSize: int, nonce: string)
    requires Lawful(a) && CanSeal(Some(a), nonce) && 0 <= offset <= V.MAX
    requires Hashes(q) && Hashes(other) && Binding(q).Some?
    ensures var token := EncodeOffset(Some(a), offset, Binding(q).value, nonce);
            && token.Ok?
            && (pageSize >= 0 ==> Resolve(Some(a), token.value, pageSize, q)
                                  == Ok(Request(offset, NormalizePageSize(pageSize).value, Binding(q).value)))
            && (Resolve(Some(a), token.value, pageSize, other).Ok? ==> Binding(other) == Binding(q))
            && ResolveKeyset(Some(a), token.value, pageSize, other).Err?
  {
    BindingIsValid(q);
    OffsetRoundTrip(a, offset, Binding(q).value, nonce);
    var token := EncodeOffset(Some(a), offset, Binding(q).value, nonce).value;
    if Binding(other).Some? {
      TokenHasOneMeaning(Some(a), token, Binding(q).value, Binding(other).value);
    }
  }

  /** The same for keyset pagination: any non-empty valid UTF-8 position. */
  lemma {:induction false} NextKeysetResolves(a: Aead, q: Query, other: Query, position: string,
        pageSize: int, nonce: string)
    requires Lawful(a) && CanSeal(Some(a), nonce) && position != "" && ValidUtf8(position)
    requires Hashes(q) && Hashes(other) && Binding(q).Some?
    ensures var token := EncodeKeyset(Some(a), position, Binding(q).value, nonce);
            && token.Ok?
            && (pageSize >= 0 ==> ResolveKeyset(Some(a), token.value, pageSize, q)
                                  == Ok(Request(position, NormalizePageSize(pageSize).value, Binding(q).value)))
            && (ResolveKeyset(Some(a), token.value, pageSize, other).Ok? ==> Binding(other) == Binding(q))
            && Resolve(Some(a), token.value, pageSize, other).Err?
  {
    BindingIsValid(q);
    KeysetRoundTrip(a, position, Binding(q).value, nonce);
    var token := EncodeKeyset(Some(a), position, Binding(q).value, nonce).value;
    if Binding(other).Some? {
      TokenHasOneMeaning(Some(a), token, Binding(other).value, Binding(q).value);
    }
  }

  lemma BindingsEqualIff(q: Query, other: Query)
    requires Hashes(q) && Hashes(other) && q.payload.Some? && other.payload.Some?
    ensures Binding(q).Some? && Binding(other).Some?
    ensures Binding(q) == Binding(other) <==> q.digest(q.payload.value) == other.digest(other.payload.value)
  {
    DecodeEncode(Url, q.digest(q.payload.value));
    DecodeEncode(Url, other.digest(other.payload.value));
  }

  /** What the steps of a resolution make of it. */
  lemma ResolveBySteps(codec: Option<Aead>, token: string, pageSize: int, q: Query, binding: string)
    requires Hashes(q) && Binding(q) == Some(binding)
    ensures DecodeOffset(codec, token, binding).Err? ==> Resolve(codec, token, pageSize, q) == Err(BadToken)
    ensures DecodeOffset(codec, token, binding).Ok? ==>
              if pageSize < 0 then Resolve(codec, token, pageSize, q) == Err(BadSize)
              else Resolve(codec, token, pageSize, q).Ok?
                   && Resolve(codec, token, pageSize, q).value.at == DecodeOffset(codec, token, binding).value
    ensures DecodeKeyset(codec, token, binding).Err? ==> ResolveKeyset(codec, token, pageSize, q) == Err(BadToken)
    ensures DecodeKeyset(codec, token, binding).Ok? ==>
              if pageSize < 0 then ResolveKeyset(codec, token, pageSize, q) == Err(BadSize)
              else ResolveKeyset(codec, token, pageSize, q).Ok?
                   && ResolveKeyset(codec, token, pageSize, q).value.at == DecodeKeyset(codec, token, binding).value
  {
  }

  lemma OffsetTokenOpens(a: Aead, offset: int, binding: string, other: string, nonce: string)
    requires Lawful(a) && CanSeal(Some(a), nonce) && 0 <= offset <= V.MAX && ValidUtf8(binding)
    ensures EncodeOffset(Some(a), offset, binding, nonce).Ok?
    ensures var token := EncodeOffset(Some(a), offset, binding, nonce).value;
            && (binding == other ==> DecodeOffset(Some(a), token, other) == Ok(offset))
            && (binding != other ==> DecodeOffset(Some(a), token, other).Err?)
            && DecodeKeyset(Some(a), token, other).Err?
  {
    OffsetRoundTrip(a, offset, binding, nonce);
    TokenHasOneMeaning(Some(a), EncodeOffset(Some(a), offset, binding, nonce).value, binding, other);
  }

  lemma KeysetTokenOpens(a: Aead, position: string, binding: string, other: string, nonce: string)
    requires Lawful(a) && CanSeal(Some(a), nonce) && position != "" && ValidUtf8(position) && ValidUtf8(binding)
    ensures EncodeKeyset(Some(a), position, binding, nonce).Ok?
    ensures var token := EncodeKeyset(Some(a), position, binding, nonce).value;
            && (binding == other ==> DecodeKeyset(Some(a), token, other) == Ok(position))
            && (binding != other ==> DecodeKeyset(Some(a), token, other).Err?)
            && DecodeOffset(Some(a), token, other).Err?
  {
    KeysetRoundTrip(a, position, binding, nonce);
    TokenHasOneMeaning(Some(a), EncodeKeyset(Some(a), position, binding, nonce).value, other, binding);
  }

  /** A token belongs to what was asked for: issued for one query it is refused for every other
      whose payload has another digest, and accepted for every one whose payload has the same. */
  lemma {:induction false} OffsetTokenIsBound(a: Aead, q: Query, other: Query, offset: int, pageSize: int,
        nonce: string)
    requires Lawful(a) && CanSeal(Some(a), nonce) && 0 <= offset <= V.MAX
    requires Hashes(q) && Hashes(other) && q.payload.Some? && other.payload.Some?
    ensures Binding(q).Some? && EncodeOffset(Some(a), offset, Binding(q).value, nonce).Ok?
    ensures var token := EncodeOffset(Some(a), offset, Binding(q).value, nonce).value;
            if q.digest(q.payload.value) != other.digest(other.payload.value)
            then Resolve(Some(a), token, pageSize, other) == Err(BadToken)
                 && ResolveKeyset(Some(a), token, pageSize, other) == Err(BadToken)
            else if pageSize < 0 then Resolve(Some(a), token, pageSize, other) == Err(BadSize)
            else Resolve(Some(a), token, pageSize, other).Ok?
                 && Resolve(Some(a), token, pageSize, other).value.at == offset
  {
    BindingsEqualIff(q, other);
    BindingIsValid(q);
    var mine, theirs := Binding(q).value, Binding(other).value;
    OffsetTokenOpens(a, offset, mine, theirs, nonce);
    ResolveBySteps(Some(a), EncodeOffset(Some(a), offset, mine, nonce).value, pageSize, other, theirs);
  }

  /** The same for keyset tokens. */
  lemma {:induction false} KeysetTokenIsBound(a: Aead, q: Query, other: Query, position: string, pageSize: int,
        nonce: string)
    requires Lawful(a) && CanSeal(Some(a), nonce) && position != "" && ValidUtf8(position)
    requires Hashes(q) && Hashes(other) && q.payload.Some? && other.payload.Some?
    ensures Binding(q).Some? && EncodeKeyset(Some(a), position, Binding(q).value, nonce).Ok?
    ensures var token := EncodeKeyset(Some(a), position, Binding(q).value, nonce).value;
            if q.digest(q.payload.value) != other.digest(other.payload.value)
            then ResolveKeyset(Some(a), token, pageSize, other) == Err(BadToken)
                 && Resolve(Some(a), token, pageSize, other) == Err(BadToken)
            else if pageSize < 0 then ResolveKeyset(Some(a), token, pageSize, other) == Err(BadSize)
            else ResolveKeyset(Some(a), token, pageSize, other).Ok?
                 && ResolveKeyset(Some(a), token, pageSize, other).value.at == position
  {
    BindingsEqualIff(q, other);
    BindingIsValid(q);
    var mine, theirs := Binding(q).value, Binding(other).value;
    KeysetTokenOpens(a, position, mine, theirs, nonce);
    ResolveBySteps(Some(a), EncodeKeyset(Some(a), position, mine, nonce).value, pageSize, other, theirs);
  }

  /** A query whose payload cannot be printed is refused, whatever its token. */
  lemma NoPayloadNoPage(codec: Option<Aead>, token: string, pageSize: int, q: Query)
    requires Hashes(q) && q.payload.None?
    ensures Resolve(codec, token, pageSize, q) == Err(BadScope)
    ensures ResolveKeyset(codec, token, pageSize, q) == Err(BadScope)
  {
  }
}
