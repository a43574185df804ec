/** Wire form of gossip events (`MeshEvent::to_wire_bytes` / `from_wire_bytes`) and traffic padding.

    Rust strings are modelled by their UTF-8 octets, so `tag.len()` is the length of the sequence
    and `String::from_utf8` is the predicate `ValidUtf8`. */
module Wire {
  import opened Bytes

  type Text = seq<byte>

  datatype Kind =
    | Alert | MutualAid | VoiceMemo | Transcription | Transaction | AiQuery | AiResponse
    | FileShareRequest | Heartbeat | UpdateAnnounce | UpdateManifest | UpdateChunk | UpdateRequest
    | Endorsement | IdentityRotation | AbuseReport | SocialPost | SocialComment | SocialVote
    | SocialFollow | SocialMessage | SocialModeration

  datatype MeshEvent = MeshEvent(
    id: Text,
    pubkey: Text,
    createdAt: u64,
    kind: Kind,
    tags: seq<Text>,
    content: Text,
    sig: Text,
    powNonce: u64,
    powDifficulty: byte,
    ttl: byte)

  datatype WireError = AllZero | Truncated | UnknownKind | TooManyTags | InvalidUtf8 | InvalidHex

  datatype Result<+T> = Ok(value: T) | Err(error: WireError) {
    predicate IsFailure() { Err? }
    function PropagateFailure<U>(): Result<U> requires Err? { Err(error) }
    function Extract(): T requires Ok? { value }
  }

  const MAX_TAGS: nat := 10_000

  // ---------------------------------------------------------------------------------------------
  // Kind codes
  // ---------------------------------------------------------------------------------------------

  function KindCode(kind: Kind): byte {
    match kind
    case Alert => 0 case MutualAid => 1 case VoiceMemo => 2 case Transcription => 3
    case Transaction => 4 case AiQuery => 5 case AiResponse => 6 case FileShareRequest => 7
    case Heartbeat => 8 case UpdateAnnounce => 9 case UpdateManifest => 10 case UpdateChunk => 11
    case UpdateRequest => 12 case Endorsement => 13 case IdentityRotation => 14
    case AbuseReport => 15 case SocialPost => 16 case SocialComment => 17 case SocialVote => 18
    case SocialFollow => 19 case SocialMessage => 20 case SocialModeration => 21
  }

  function KindFromCode(code: byte): (r: Result<Kind>)
    ensures forall k :: r == Ok(k) <==> KindCode(k) == code
  {
    match code
    case 0 => Ok(Alert) case 1 => Ok(MutualAid) case 2 => Ok(VoiceMemo) case 3 => Ok(Transcription)
    case 4 => Ok(Transaction) case 5 => Ok(AiQuery) case 6 => Ok(AiResponse)
    case 7 => Ok(FileShareRequest) case 8 => Ok(Heartbeat) case 9 => Ok(UpdateAnnounce)
    case 10 => Ok(UpdateManifest) case 11 => Ok(UpdateChunk) case 12 => Ok(UpdateRequest)
    case 13 => Ok(Endorsement) case 14 => Ok(IdentityRotation) case 15 => Ok(AbuseReport)
    case 16 => Ok(SocialPost) case 17 => Ok(SocialComment) case 18 => Ok(SocialVote)
    case 19 => Ok(SocialFollow) case 20 => Ok(SocialMessage) case 21 => Ok(SocialModeration)
    case _ => Err(UnknownKind)
  }

  // ---------------------------------------------------------------------------------------------
  // Hexadecimal text
  // ---------------------------------------------------------------------------------------------

  function HexDigit(n: nat): (c: byte)
    requires n < 16
    ensures HexValue(c) == Some(n)
  {
    if n < 10 then 48 + n else 87 + n
  }

  /** Both letter cases are accepted, as `hex::decode` does. */
  function HexValue(c: byte): (v: Option<nat>)
    ensures v.Some? ==> v.value < 16
  {
    if 48 <= c <= 57 then Some(c - 48)
    else if 97 <= c <= 102 then Some(c - 87)
    else if 65 <= c <= 70 then Some(c - 55)
    else None
  }

  function HexEncode(b: seq<byte>): (s: Text)
    ensures |s| == 2 * |b|
  {
    if b == [] then [] else [HexDigit(b[0] / 16), HexDigit(b[0] % 16)] + HexEncode(b[1..])
  }

  function HexDecode(s: Text): Result<seq<byte>> {
    if s == [] then Ok([])
    else if |s| == 1 then Err(InvalidHex)
    else
      match (HexValue(s[0]), HexValue(s[1]))
      case (Some(hi), Some(lo)) =>
        var tail :- HexDecode(s[2..]);
        Ok([16 * hi + lo] + tail)
      case _ => Err(InvalidHex)
  }

  function HexDecodeN(s: Text, n: nat): Result<seq<byte>> {
    var b :- HexDecode(s);
    if |b| == n then Ok(b) else Err(InvalidHex)
  }

  predicate IsLowerHexDigit(c: byte) { 48 <= c <= 57 || 97 <= c <= 102 }

  /** Exactly the texts `hex::encode` produces for `n` octets. */
  predicate IsLowerHex(s: Text, n: nat) {
    |s| == 2 * n && forall i :: 0 <= i < |s| ==> IsLowerHexDigit(s[i])
  }

  lemma {:induction false} HexEncodeIsCanonical(b: seq<byte>)
    ensures IsLowerHex(HexEncode(b), |b|) && HexDecode(HexEncode(b)) == Ok(b)
  {
    if b != [] {
      HexEncodeIsCanonical(b[1..]);
      assert HexEncode(b)[2..] == HexEncode(b[1..]);
      assert b == [b[0]] + b[1..];
    }
  }

  lemma LowerHexDigitIsEncoded(c: byte)
    requires IsLowerHexDigit(c)
    ensures HexValue(c).Some? && HexDigit(HexValue(c).value) == c
  {}

  lemma {:induction false} LowerHexIsEncoded(s: Text, n: nat)
    requires IsLowerHex(s, n)
    ensures HexDecodeN(s, n).Ok? && HexEncode(HexDecodeN(s, n).value) == s
  {
    if n != 0 {
      assert IsLowerHex(s[2..], n - 1);
      LowerHexIsEncoded(s[2..], n - 1);
      LowerHexDigitIsEncoded(s[0]); LowerHexDigitIsEncoded(s[1]);
      var b := HexDecode(s).value;
      assert b[1..] == HexDecode(s[2..]).value;
      assert b[0] / 16 == HexValue(s[0]).value && b[0] % 16 == HexValue(s[1]).value;
      assert s == [s[0], s[1]] + s[2..];
    }
  }

  // ---------------------------------------------------------------------------------------------
  // UTF-8 (table 3-7 of the Unicode standard, as `String::from_utf8` checks it)
  // ---------------------------------------------------------------------------------------------

  predicate Continuation(b: byte) { 0x80 <= b <= 0xBF }

  predicate ValidUtf8(s: seq<byte>) {
    if s == [] then true
    else if s[0] <= 0x7F then ValidUtf8(s[1..])
    else if 0xC2 <= s[0] <= 0xDF then
      |s| >= 2 && Continuation(s[1]) && ValidUtf8(s[2..])
    else if 0xE0 <= s[0] <= 0xEF then
      |s| >= 3 && Continuation(s[1]) && Continuation(s[2])
      && (s[0] == 0xE0 ==> s[1] >= 0xA0) && (s[0] == 0xED ==> s[1] <= 0x9F)
      && ValidUtf8(s[3..])
    else if 0xF0 <= s[0] <= 0xF4 then
      |s| >= 4 && Continuation(s[1]) && Continuation(s[2]) && Continuation(s[3])
      && (s[0] == 0xF0 ==> s[1] >= 0x90) && (s[0] == 0xF4 ==> s[1] <= 0x8F)
      && ValidUtf8(s[4..])
    else false
  }

  // ---------------------------------------------------------------------------------------------
  // Encoding
  // ---------------------------------------------------------------------------------------------

  /** A length prefix truncated to 32 bits by `as u32`, then the octets. */
  function EncodeText(t: Text): seq<byte> {
    LittleEndian(AsU32(|t|), 4) + t
  }

  function EncodeTags(tags: seq<Text>): seq<byte> {
    if tags == [] then [] else EncodeText(tags[0]) + EncodeTags(tags[1..])
  }

  /** The fields before the tags, and those after the content, with their hex decoded. */
  datatype Header = Header(id: seq<byte>, pubkey: seq<byte>, createdAt: u64, kind: Kind)
  datatype Trailer = Trailer(sig: seq<byte>, powNonce: u64, powDifficulty: byte, ttl: byte)

  function EncodeHeader(h: Header): seq<byte> {
    h.id + (h.pubkey + (LittleEndian(h.createdAt, 8) + [KindCode(h.kind)]))
  }

  function EncodeTrailer(t: Trailer): seq<byte> {
    t.sig + (LittleEndian(t.powNonce, 8) + [t.powDifficulty, t.ttl])
  }

  /** The octets of an event before padding. */
  function Layout(h: Header, tags: seq<Text>, content: Text, t: Trailer): seq<byte> {
    EncodeHeader(h) + (LittleEndian(AsU32(|tags|), 4) + (EncodeTags(tags)
    + (EncodeText(content) + EncodeTrailer(t))))
  }

  function Encode(e: MeshEvent): Result<seq<byte>> {
    var id :- HexDecodeN(e.id, 32);
    var pubkey :- HexDecodeN(e.pubkey, 32);
    var sig :- HexDecodeN(e.sig, 64);
    Ok(Layout(Header(id, pubkey, e.createdAt, e.kind), e.tags, e.content,
              Trailer(sig, e.powNonce, e.powDifficulty, e.ttl)))
  }

  /** Strings of an event are Rust strings, so they hold valid UTF-8. */
  ghost predicate TextsValid(e: MeshEvent) {
    ValidUtf8(e.content) && forall i :: 0 <= i < |e.tags| ==> ValidUtf8(e.tags[i])
  }

  /** What a sender can check before sending: the event survives the wire format unchanged. */
  ghost predicate Encodable(e: MeshEvent) {
    && IsLowerHex(e.id, 32) && IsLowerHex(e.pubkey, 32) && IsLowerHex(e.sig, 64)
    && |e.tags| <= MAX_TAGS && |e.content| < U32_LIMIT
    && forall i :: 0 <= i < |e.tags| ==> |e.tags[i]| < U32_LIMIT
  }

  // ---------------------------------------------------------------------------------------------
  // Decoding, as functions from the unread octets to a value and what remains unread
  // ---------------------------------------------------------------------------------------------

  function Take(n: nat, b: seq<byte>): Result<(seq<byte>, seq<byte>)> {
    if n > |b| then Err(Truncated) else Ok((b[..n], b[n..]))
  }

  function TakeInt(width: nat, b: seq<byte>): (r: Result<(nat, seq<byte>)>)
    ensures r.Ok? ==> r.value.0 < Pow256(width)
  {
    var (x, rest) :- Take(width, b);
    Ok((FromLittleEndian(x), rest))
  }

  function TakeText(b: seq<byte>): Result<(Text, seq<byte>)> {
    var (n, b1) :- TakeInt(4, b);
    var (t, rest) :- Take(n, b1);
    if ValidUtf8(t) then Ok((t, rest)) else Err(InvalidUtf8)
  }

  function TakeTags(n: nat, b: seq<byte>): Result<(seq<Text>, seq<byte>)> {
    if n == 0 then Ok(([], b))
    else
      var (t, b1) :- TakeText(b);
      var (ts, rest) :- TakeTags(n - 1, b1);
      Ok(([t] + ts, rest))
  }

  function TakeHeader(b: seq<byte>): Result<(Header, seq<byte>)> {
    var (id, b1) :- Take(32, b);
    var (pubkey, b2) :- Take(32, b1);
    var (createdAt, b3) :- TakeInt(8, b2);
    var (code, rest) :- Take(1, b3);
    var kind :- KindFromCode(code[0]);
    Pow256Widths();
    Ok((Header(id, pubkey, createdAt, kind), rest))
  }

  function TakeTrailer(b: seq<byte>): Result<(Trailer, seq<byte>)> {
    var (sig, b1) :- Take(64, b);
    var (nonce, b2) :- TakeInt(8, b1);
    var (difficulty, b3) :- Take(1, b2);
    var (ttl, rest) :- Take(1, b3);
    Pow256Widths();
    Ok((Trailer(sig, nonce, difficulty[0], ttl[0]), rest))
  }

  function TakeEvent(b: seq<byte>): Result<(MeshEvent, seq<byte>)> {
    var (h, b1) :- TakeHeader(b);
    var (count, b2) :- TakeInt(4, b1);
    if count > MAX_TAGS then Err(TooManyTags) else
    var (tags, b3) :- TakeTags(count, b2);
    var (content, b4) :- TakeText(b3);
    var (t, rest) :- TakeTrailer(b4);
    Ok((MeshEvent(HexEncode(h.id), HexEncode(h.pubkey), h.createdAt, h.kind, tags, content,
                  HexEncode(t.sig), t.powNonce, t.powDifficulty, t.ttl), rest))
  }

  predicate AllZeros(b: seq<byte>) { forall i :: 0 <= i < |b| ==> b[i] == 0 }

  function Decode(data: seq<byte>): Result<MeshEvent> {
    if data != [] && AllZeros(data) then Err(AllZero)
    else
      var (e, _) :- TakeEvent(data);
      Ok(e)
  }

  // ---------------------------------------------------------------------------------------------
  // Each reader accepts exactly the octets its writer produces, whatever follows them
  // ---------------------------------------------------------------------------------------------

  lemma TakeExact(n: nat, b: seq<byte>, x: seq<byte>, rest: seq<byte>)
    ensures Take(n, b) == Ok((x, rest)) <==> |x| == n && b == x + rest
  {
    if n <= |b| { assert b == b[..n] + b[n..]; }
  }

  lemma TakeIntExact(width: nat, b: seq<byte>, v: nat, rest: seq<byte>)
    requires v < Pow256(width)
    ensures TakeInt(width, b) == Ok((v, rest)) <==> b == LittleEndian(v, width) + rest
  {
    if width <= |b| {
      LittleEndianInverse(v, b[..width]);
      assert b == b[..width] + b[width..];
    }
  }

  lemma TakeTextSound(b: seq<byte>, t: Text, rest: seq<byte>)
    requires TakeText(b) == Ok((t, rest))
    ensures |t| < U32_LIMIT && ValidUtf8(t) && b == EncodeText(t) + rest
  {
    Pow256Widths();
    var (n, b1) := TakeInt(4, b).value;
    TakeIntExact(4, b, n, b1);
    TakeExact(n, b1, t, rest);
    Glue(LittleEndian(n, 4), t, rest);
  }

  lemma TakeTextComplete(t: Text, rest: seq<byte>)
    requires |t| < U32_LIMIT && ValidUtf8(t)
    ensures TakeText(EncodeText(t) + rest) == Ok((t, rest))
  {
    Pow256Widths();
    Glue(LittleEndian(|t|, 4), t, rest);
    TakeIntExact(4, EncodeText(t) + rest, |t|, t + rest);
    TakeExact(|t|, t + rest, t, rest);
  }

  ghost predicate GoodTags(tags: seq<Text>) {
    forall i :: 0 <= i < |tags| ==> |tags[i]| < U32_LIMIT && ValidUtf8(tags[i])
  }

  lemma GoodTagsCons(t: Text, ts: seq<Text>)
    requires |t| < U32_LIMIT && ValidUtf8(t) && GoodTags(ts)
    ensures GoodTags([t] + ts) && EncodeTags([t] + ts) == EncodeText(t) + EncodeTags(ts)
  {
    assert ([t] + ts)[1..] == ts;
  }

  lemma {:induction false} TakeTagsSound(n: nat, b: seq<byte>, tags: seq<Text>, rest: seq<byte>)
    requires TakeTags(n, b) == Ok((tags, rest))
    ensures |tags| == n && GoodTags(tags) && b == EncodeTags(tags) + rest
  {
    if n != 0 {
      var (t, b1) := TakeText(b).value;
      var (ts, r) := TakeTags(n - 1, b1).value;
      TakeTextSound(b, t, b1);
      TakeTagsSound(n - 1, b1, ts, rest);
      GoodTagsCons(t, ts);
      Glue(EncodeText(t), EncodeTags(ts), rest);
    }
  }

  lemma {:induction false} TakeTagsComplete(tags: seq<Text>, rest: seq<byte>)
    requires GoodTags(tags)
    ensures TakeTags(|tags|, EncodeTags(tags) + rest) == Ok((tags, rest))
  {
    if tags == [] {
      assert EncodeTags(tags) + rest == rest;
    } else {
      Glue(EncodeText(tags[0]), EncodeTags(tags[1..]), rest);
      TakeTextComplete(tags[0], EncodeTags(tags[1..]) + rest);
      TakeTagsComplete(tags[1..], rest);
      assert tags == [tags[0]] + tags[1..];
    }
  }

  lemma TakeHeaderSound(b: seq<byte>, h: Header, rest: seq<byte>)
    requires TakeHeader(b) == Ok((h, rest))
    ensures |h.id| == |h.pubkey| == 32 && b == EncodeHeader(h) + rest
  {
    var (id, b1) := Take(32, b).value;
    var (pubkey, b2) := Take(32, b1).value;
    var (createdAt, b3) := TakeInt(8, b2).value;
    TakeExact(32, b, id, b1);
    TakeExact(32, b1, pubkey, b2);
    TakeIntExact(8, b2, createdAt, b3);
    var code := [KindCode(h.kind)];
    assert b3 == code + rest;
    Glue4(id, pubkey, LittleEndian(createdAt, 8), code, rest);
  }

  lemma Glue4(w: seq<byte>, x: seq<byte>, y: seq<byte>, z: seq<byte>, rest: seq<byte>)
    ensures w + (x + (y + (z + rest))) == (w + (x + (y + z))) + rest
  {
    Glue(y, z, rest);
    Glue(x, y + z, rest);
    Glue(w, x + (y + z), rest);
  }

  lemma TakeHeaderComplete(h: Header, rest: seq<byte>)
    requires |h.id| == |h.pubkey| == 32
    ensures TakeHeader(EncodeHeader(h) + rest) == Ok((h, rest))
  {
    assert h.createdAt < Pow256(8) by { Pow256Widths(); }
    var code := [KindCode(h.kind)];
    var b3 := code + rest;
    var b2 := LittleEndian(h.createdAt, 8) + b3;
    var b1 := h.pubkey + b2;
    Glue4(h.id, h.pubkey, LittleEndian(h.createdAt, 8), code, rest);
    TakeExact(32, h.id + b1, h.id, b1);
    TakeExact(32, b1, h.pubkey, b2);
    TakeIntExact(8, b2, h.createdAt, b3);
    TakeExact(1, b3, code, rest);
  }

  lemma TakeTrailerSound(b: seq<byte>, t: Trailer, rest: seq<byte>)
    requires TakeTrailer(b) == Ok((t, rest))
    ensures |t.sig| == 64 && b == EncodeTrailer(t) + rest
  {
    var (sig, b1) := Take(64, b).value;
    var (nonce, b2) := TakeInt(8, b1).value;
    TakeIntExact(8, b1, nonce, b2);
    var tail := [t.powDifficulty, t.ttl];
    assert b2 == tail + rest;
    Glue(LittleEndian(nonce, 8), tail, rest);
    Glue(sig, LittleEndian(nonce, 8) + tail, rest);
  }

  lemma TakeTrailerComplete(t: Trailer, rest: seq<byte>)
    requires |t.sig| == 64
    ensures TakeTrailer(EncodeTrailer(t) + rest) == Ok((t, rest))
  {
    assert t.powNonce < Pow256(8) by { Pow256Widths(); }
    var tail := [t.powDifficulty, t.ttl];
    var b2 := tail + rest;
    var b1 := LittleEndian(t.powNonce, 8) + b2;
    Glue(LittleEndian(t.powNonce, 8), tail, rest);
    Glue(t.sig, LittleEndian(t.powNonce, 8) + tail, rest);
    TakeExact(64, t.sig + b1, t.sig, b1);
    TakeIntExact(8, b1, t.powNonce, b2);
    TakeExact(1, b2, [t.powDifficulty], [t.ttl] + rest);
    TakeExact(1, [t.ttl] + rest, [t.ttl], rest);
  }

  lemma LayoutThen(h: Header, tags: seq<Text>, content: Text, t: Trailer, rest: seq<byte>)
    requires |tags| < U32_LIMIT
    ensures Layout(h, tags, content, t) + rest
         == EncodeHeader(h) + (LittleEndian(|tags|, 4) + (EncodeTags(tags)
            + (EncodeText(content) + (EncodeTrailer(t) + rest))))
  {
    var b4 := EncodeTrailer(t);
    var b3 := EncodeText(content) + b4;
    var b2 := EncodeTags(tags) + b3;
    var b1 := LittleEndian(|tags|, 4) + b2;
    Glue(EncodeHeader(h), b1, rest);
    Glue(LittleEndian(|tags|, 4), b2, rest);
    Glue(EncodeTags(tags), b3, rest);
    Glue(EncodeText(content), b4, rest);
  }

  lemma TakeEventSound(b: seq<byte>, e: MeshEvent, rest: seq<byte>)
    requires TakeEvent(b) == Ok((e, rest))
    ensures Encodable(e) && TextsValid(e)
    ensures Encode(e).Ok? && b == Encode(e).value + rest
  {
    var (h, b1) := TakeHeader(b).value;
    var (count, b2) := TakeInt(4, b1).value;
    var (tags, b3) := TakeTags(count, b2).value;
    var (content, b4) := TakeText(b3).value;
    var (t, _) := TakeTrailer(b4).value;
    TakeHeaderSound(b, h, b1);
    TakeIntExact(4, b1, count, b2);
    TakeTagsSound(count, b2, tags, b3);
    TakeTextSound(b3, content, b4);
    TakeTrailerSound(b4, t, rest);
    HexEncodeIsCanonical(h.id); HexEncodeIsCanonical(h.pubkey); HexEncodeIsCanonical(t.sig);
    LayoutThen(h, tags, content, t, rest);
  }

  /** Reading the parts one after the other. */
  lemma TakeParts(b: seq<byte>, h: Header, b1: seq<byte>, tags: seq<Text>, b2: seq<byte>, b3: seq<byte>, content: Text,
                  b4: seq<byte>, t: Trailer, rest: seq<byte>)
    requires TakeHeader(b) == Ok((h, b1)) && TakeInt(4, b1) == Ok((|tags|, b2)) && |tags| <= MAX_TAGS
    requires TakeTags(|tags|, b2) == Ok((tags, b3)) && TakeText(b3) == Ok((content, b4))
    requires TakeTrailer(b4) == Ok((t, rest))
    ensures TakeEvent(b) == Ok((MeshEvent(HexEncode(h.id), HexEncode(h.pubkey), h.createdAt, h.kind, tags, content,
                                          HexEncode(t.sig), t.powNonce, t.powDifficulty, t.ttl), rest))
  {}

  lemma TakePartsComplete(h: Header, tags: seq<Text>, content: Text, t: Trailer, rest: seq<byte>)
    requires |h.id| == |h.pubkey| == 32 && |t.sig| == 64 && |tags| <= MAX_TAGS
    requires |content| < U32_LIMIT && ValidUtf8(content)
    requires forall i :: 0 <= i < |tags| ==> |tags[i]| < U32_LIMIT && ValidUtf8(tags[i])
    ensures TakeEvent(Layout(h, tags, content, t) + rest)
         == Ok((MeshEvent(HexEncode(h.id), HexEncode(h.pubkey), h.createdAt, h.kind, tags, content,
                          HexEncode(t.sig), t.powNonce, t.powDifficulty, t.ttl), rest))
  {
    var b4 := EncodeTrailer(t) + rest;
    var b3 := EncodeText(content) + b4;
    var b2 := EncodeTags(tags) + b3;
    var b1 := LittleEndian(|tags|, 4) + b2;
    LayoutThen(h, tags, content, t, rest);
    TakeHeaderComplete(h, b1);
    TakeCountComplete(|tags|, b2);
    TakeTagsComplete(tags, b3);
    TakeTextComplete(content, b4);
    TakeTrailerComplete(t, rest);
    TakeParts(EncodeHeader(h) + b1, h, b1, tags, b2, b3, content, b4, t, rest);
  }

  lemma TakeCountComplete(count: nat, rest: seq<byte>)
    requires count < U32_LIMIT
    ensures TakeInt(4, LittleEndian(count, 4) + rest) == Ok((count, rest))
  {
    Pow256Widths();
    TakeIntExact(4, LittleEndian(count, 4) + rest, count, rest);
  }

  lemma TakeEventComplete(e: MeshEvent, rest: seq<byte>)
    requires Encodable(e) && TextsValid(e)
    ensures Encode(e).Ok? && TakeEvent(Encode(e).value + rest) == Ok((e, rest))
  {
    LowerHexIsEncoded(e.id, 32); LowerHexIsEncoded(e.pubkey, 32); LowerHexIsEncoded(e.sig, 64);
    var h := Header(HexDecode(e.id).value, HexDecode(e.pubkey).value, e.createdAt, e.kind);
    var t := Trailer(HexDecode(e.sig).value, e.powNonce, e.powDifficulty, e.ttl);
    TakePartsComplete(h, e.tags, e.content, t, rest);
  }

  /** The decoder accepts a buffer as `e` exactly when the buffer is not all zeros and starts with
      the unpadded encoding of an encodable `e`; what follows never matters. */
  lemma DecodeExact(data: seq<byte>, e: MeshEvent)
    ensures Decode(data) == Ok(e) <==>
            !AllZeros(data) && Encodable(e) && TextsValid(e)
            && Encode(e).Ok? && Encode(e).value <= data
  {
    if Decode(data) == Ok(e) {
      var (_, rest) := TakeEvent(data).value;
      TakeEventSound(data, e, rest);
    }
    if Encodable(e) && TextsValid(e) && Encode(e).Ok? && Encode(e).value <= data {
      var n := |Encode(e).value|;
      assert data == Encode(e).value + data[n..];
      TakeEventComplete(e, data[n..]);
    }
  }

  // ---------------------------------------------------------------------------------------------
  // Traffic padding
  // ---------------------------------------------------------------------------------------------

  const BUCKETS: seq<nat> := [256, 1024, 4096, 16_384]

  /** The smallest bucket that holds `len` octets, or the largest bucket when none does. */
  function BucketSize(len: nat): (size: nat)
    ensures size in BUCKETS
    ensures len <= 16_384 ==> len <= size && forall b :: b in BUCKETS && len <= b ==> size <= b
    ensures len > 16_384 ==> size == 16_384
  {
    if len <= 256 then BUCKETS[0] else if len <= 1024 then BUCKETS[1]
    else if len <= 4096 then BUCKETS[2] else BUCKETS[3]
  }

  method BucketFor(len: nat) returns (size: nat)
    ensures size == BucketSize(len)
  {
    for i := 0 to |BUCKETS|
      invariant forall k :: 0 <= k < i ==> len > BUCKETS[k]
    {
      if len <= BUCKETS[i] { return BUCKETS[i]; }
    }
    return BUCKETS[|BUCKETS| - 1];
  }

  function Zeros(n: nat): seq<byte> { seq(n, _ => 0) }

  function Padded(data: seq<byte>): seq<byte> {
    data + Zeros(SaturatingSub(BucketSize(|data|), |data|))
  }

  function Unpadded(data: seq<byte>): (r: seq<byte>)
    ensures r <= data
  {
    if data != [] && data[|data| - 1] == 0 then Unpadded(data[..|data| - 1]) else data
  }

  method Pad(data: seq<byte>) returns (out: seq<byte>)
    ensures out == Padded(data)
  {
    var target := BucketFor(|data|);
    out := data;
    if target > |out| { out := out + Zeros(target - |out|); }
  }

  method Unpad(data: seq<byte>) returns (out: seq<byte>)
    ensures out == Unpadded(data)
  {
    var end := |data|;
    assert data[..end] == data;
    while end > 0 && data[end - 1] == 0
      invariant 0 <= end <= |data| && Unpadded(data[..end]) == Unpadded(data)
    {
      assert data[..end][..end - 1] == data[..end - 1];
      end := end - 1;
    }
    out := data[..end];
  }

  lemma {:induction false} UnpadDropsZeros(data: seq<byte>, n: nat)
    ensures Unpadded(data + Zeros(n)) == Unpadded(data)
  {
    if n == 0 {
      assert data + Zeros(0) == data;
    } else {
      var padded := data + Zeros(n);
      assert padded[..|padded| - 1] == data + Zeros(n - 1);
      UnpadDropsZeros(data, n - 1);
    }
  }

  /** The documented law `unpad(pad(x)) == x` holds exactly for data that does not end in a zero
      octet; padding a short message reaches a bucket size and never removes data. */
  lemma UnpadPad(data: seq<byte>)
    ensures Unpadded(Padded(data)) == data <==> (data == [] || data[|data| - 1] != 0)
    ensures data <= Padded(data)
    ensures |Padded(data)| in BUCKETS <==> |data| <= 16_384
  {
    UnpadDropsZeros(data, SaturatingSub(BucketSize(|data|), |data|));
  }

  lemma {:induction false} UnpadIsIdempotent(data: seq<byte>)
    ensures Unpadded(Unpadded(data)) == Unpadded(data)
  {
    if data != [] && data[|data| - 1] == 0 { UnpadIsIdempotent(data[..|data| - 1]); }
  }

  // ---------------------------------------------------------------------------------------------
  // Round trip through the padded wire form
  // ---------------------------------------------------------------------------------------------

  /** The one event whose encoding is all zeros, which the decoder refuses. */
  const ZERO_EVENT: MeshEvent :=
    MeshEvent(HexEncode(Zeros(32)), HexEncode(Zeros(32)), 0, Alert, [], [],
              HexEncode(Zeros(64)), 0, 0, 0)

  lemma AllZerosSplit(x: seq<byte>, y: seq<byte>)
    ensures AllZeros(x + y) <==> AllZeros(x) && AllZeros(y)
  {
    assert forall i :: 0 <= i < |x| ==> (x + y)[i] == x[i];
    assert forall i :: 0 <= i < |y| ==> (x + y)[|x| + i] == y[i];
  }

  lemma {:induction false} ZeroInteger(n: nat, width: nat)
    requires n < Pow256(width)
    ensures AllZeros(LittleEndian(n, width)) <==> n == 0
  {
    if width != 0 {
      ZeroInteger(n / 256, width - 1);
      AllZerosSplit([n % 256], LittleEndian(n / 256, width - 1));
      assert AllZeros([n % 256]) <==> [n % 256][0] == 0;
    }
  }

  lemma ZeroHeader(h: Header)
    requires |h.id| == |h.pubkey| == 32
    ensures AllZeros(EncodeHeader(h)) <==> h == Header(Zeros(32), Zeros(32), 0, Alert)
  {
    var code := [KindCode(h.kind)];
    AllZerosSplit(h.id, h.pubkey + (LittleEndian(h.createdAt, 8) + code));
    AllZerosSplit(h.pubkey, LittleEndian(h.createdAt, 8) + code);
    AllZerosSplit(LittleEndian(h.createdAt, 8), code);
    assert h.createdAt < Pow256(8) by { Pow256Widths(); }
    ZeroInteger(h.createdAt, 8);
    assert AllZeros(code) <==> code[0] == 0;
    assert AllZeros(h.id) <==> h.id == Zeros(32);
    assert AllZeros(h.pubkey) <==> h.pubkey == Zeros(32);
  }

  lemma ZeroTrailer(t: Trailer)
    requires |t.sig| == 64
    ensures AllZeros(EncodeTrailer(t)) <==> t == Trailer(Zeros(64), 0, 0, 0)
  {
    var tail := [t.powDifficulty, t.ttl];
    AllZerosSplit(t.sig, LittleEndian(t.powNonce, 8) + tail);
    AllZerosSplit(LittleEndian(t.powNonce, 8), tail);
    assert t.powNonce < Pow256(8) by { Pow256Widths(); }
    ZeroInteger(t.powNonce, 8);
    assert AllZeros(tail) <==> tail[0] == 0 && tail[1] == 0;
    assert AllZeros(t.sig) <==> t.sig == Zeros(64);
  }

  lemma ZeroBody(h: Header, tags: seq<Text>, content: Text, t: Trailer)
    requires |tags| < U32_LIMIT && |content| < U32_LIMIT
    ensures AllZeros(Layout(h, tags, content, t)) <==>
            AllZeros(EncodeHeader(h)) && tags == [] && content == [] && AllZeros(EncodeTrailer(t))
  {
    var b3 := EncodeText(content) + EncodeTrailer(t);
    var b2 := EncodeTags(tags) + b3;
    AllZerosSplit(EncodeHeader(h), LittleEndian(|tags|, 4) + b2);
    AllZerosSplit(LittleEndian(|tags|, 4), b2);
    AllZerosSplit(EncodeTags(tags), b3);
    AllZerosSplit(EncodeText(content), EncodeTrailer(t));
    AllZerosSplit(LittleEndian(|content|, 4), content);
    assert |tags| < Pow256(4) && |content| < Pow256(4) by { Pow256Widths(); }
    ZeroInteger(|tags|, 4);
    ZeroInteger(|content|, 4);
  }

  lemma ZeroEventOnly(e: MeshEvent)
    requires Encodable(e)
    ensures Encode(e).Ok? && (AllZeros(Encode(e).value) <==> e == ZERO_EVENT)
  {
    LowerHexIsEncoded(e.id, 32); LowerHexIsEncoded(e.pubkey, 32); LowerHexIsEncoded(e.sig, 64);
    HexEncodeIsCanonical(Zeros(32)); HexEncodeIsCanonical(Zeros(64));
    var h := Header(HexDecode(e.id).value, HexDecode(e.pubkey).value, e.createdAt, e.kind);
    var t := Trailer(HexDecode(e.sig).value, e.powNonce, e.powDifficulty, e.ttl);
    ZeroBody(h, e.tags, e.content, t);
    ZeroHeader(h);
    ZeroTrailer(t);
  }

  /** Sending then receiving gives the event back exactly when the sender could check it would:
      lower-case hex fields, at most 10,000 tags, 32-bit lengths, and not the all-zero record. */
  lemma WireRoundTrip(e: MeshEvent)
    requires TextsValid(e) && Encode(e).Ok?
    ensures Decode(Padded(Encode(e).value)) == Ok(e) <==> Encodable(e) && e != ZERO_EVENT
  {
    var code := Encode(e).value;
    DecodeExact(Padded(code), e);
    assert AllZeros(Padded(code)) <==> AllZeros(code) by {
      assert forall i :: 0 <= i < |code| ==> Padded(code)[i] == code[i];
    }
    if Encodable(e) { ZeroEventOnly(e); }
  }

  /** No octets after the encoding change what is decoded, and no buffer decodes to two events. */
  lemma DecodeIgnoresSuffix(e: MeshEvent, suffix: seq<byte>, other: MeshEvent)
    requires TextsValid(e) && Encodable(e) && e != ZERO_EVENT
    ensures Encode(e).Ok? && Decode(Encode(e).value + suffix) == Ok(e)
    ensures (Encodable(other) && TextsValid(other) && Encode(other).Ok?
             && Encode(other).value <= Encode(e).value + suffix) ==> other == e
  {
    ZeroEventOnly(e);
    var data := Encode(e).value + suffix;
    NotAllZeros(Encode(e).value, suffix);
    DecodeExact(data, e);
    DecodeExact(data, other);
  }

  lemma NotAllZeros(code: seq<byte>, suffix: seq<byte>)
    requires !AllZeros(code)
    ensures !AllZeros(code + suffix) && code <= code + suffix
  {
    var k :| 0 <= k < |code| && code[k] != 0;
    assert (code + suffix)[k] != 0;
  }

  // ---------------------------------------------------------------------------------------------
  // The imperative writer and reader
  // ---------------------------------------------------------------------------------------------

  lemma {:induction false} EncodeTagsSnoc(tags: seq<Text>, t: Text)
    ensures EncodeTags(tags + [t]) == EncodeTags(tags) + EncodeText(t)
  {
    if tags == [] {
      assert [] + [t] == [t] && EncodeText(t) + [] == EncodeText(t);
    } else {
      assert (tags + [t])[1..] == tags[1..] + [t];
      EncodeTagsSnoc(tags[1..], t);
    }
  }

  method AppendTags(prefix: seq<byte>, tags: seq<Text>) returns (out: seq<byte>)
    ensures out == prefix + EncodeTags(tags)
  {
    out := prefix;
    for i := 0 to |tags|
      invariant out == prefix + EncodeTags(tags[..i])
    {
      assert tags[..i + 1] == tags[..i] + [tags[i]];
      EncodeTagsSnoc(tags[..i], tags[i]);
      out := out + LittleEndian(AsU32(|tags[i]|), 4);
      out := out + tags[i];
    }
    assert tags[..|tags|] == tags;
  }

  lemma HeaderFlat(h: Header)
    ensures h.id + h.pubkey + LittleEndian(h.createdAt, 8) + [KindCode(h.kind)] == EncodeHeader(h)
  {}

  lemma TrailerFlat(prefix: seq<byte>, t: Trailer)
    ensures prefix + t.sig + LittleEndian(t.powNonce, 8) + [t.powDifficulty] + [t.ttl]
         == prefix + EncodeTrailer(t)
  {}

  lemma BodyFlat(a: seq<byte>, b: seq<byte>, c: seq<byte>, d: seq<byte>, e: seq<byte>, f: seq<byte>)
    ensures a + b + c + d + e + f == a + (b + (c + ((d + e) + f)))
  {}

  method ToWireBytes(e: MeshEvent) returns (r: Result<seq<byte>>)
    ensures r == match Encode(e) case Ok(code) => Ok(Padded(code)) case Err(x) => Err(x)
  {
    var id :- HexDecodeN(e.id, 32);
    var pubkey :- HexDecodeN(e.pubkey, 32);
    var sig :- HexDecodeN(e.sig, 64);
    var out := id;
    out := out + pubkey;
    out := out + LittleEndian(e.createdAt, 8);
    out := out + [KindCode(e.kind)];
    HeaderFlat(Header(id, pubkey, e.createdAt, e.kind));
    ghost var header := out;
    out := out + LittleEndian(AsU32(|e.tags|), 4);
    out := AppendTags(out, e.tags);
    out := out + LittleEndian(AsU32(|e.content|), 4);
    out := out + e.content;
    ghost var body := out;
    out := out + sig;
    out := out + LittleEndian(e.powNonce, 8);
    out := out + [e.powDifficulty];
    out := out + [e.ttl];
    TrailerFlat(body, Trailer(sig, e.powNonce, e.powDifficulty, e.ttl));
    BodyFlat(header, LittleEndian(AsU32(|e.tags|), 4), EncodeTags(e.tags),
             LittleEndian(AsU32(|e.content|), 4), e.content,
             EncodeTrailer(Trailer(sig, e.powNonce, e.powDifficulty, e.ttl)));
    var padded := Pad(out);
    return Ok(padded);
  }

  /** The imperative reader's result `r` and unread octets agree with a decoding function's. */
  ghost predicate Agrees<T>(spec: Result<(T, seq<byte>)>, r: Result<T>, unread: seq<byte>) {
    match spec
    case Ok((v, rest)) => r == Ok(v) && unread == rest
    case Err(e) => r == Err(e)
  }

  class WireReader {
    const buf: seq<byte>
    var pos: nat

    ghost predicate Valid() reads this { pos <= |buf| }

    ghost function Unread(): seq<byte>
      requires Valid()
      reads this
    {
      buf[pos..]
    }

    constructor (data: seq<byte>)
      ensures Valid() && buf == data && Unread() == data
    {
      buf, pos := data, 0;
    }

    method TakeBytes(n: nat) returns (r: Result<seq<byte>>)
      requires Valid()
      modifies this
      ensures Valid() && Agrees(Take(n, old(Unread())), r, Unread())
    {
      if pos + n > |buf| { return Err(Truncated); }
      r := Ok(buf[pos..pos + n]);
      assert buf[pos..][..n] == buf[pos..pos + n];
      pos := pos + n;
    }

    method TakeNumber(width: nat) returns (r: Result<nat>)
      requires Valid()
      modifies this
      ensures Valid() && Agrees(TakeInt(width, old(Unread())), r, Unread())
    {
      var b :- TakeBytes(width);
      r := Ok(FromLittleEndian(b));
    }

    method TakeString() returns (r: Result<Text>)
      requires Valid()
      modifies this
      ensures Valid() && Agrees(TakeText(old(Unread())), r, Unread())
    {
      var len :- TakeNumber(4);
      var b :- TakeBytes(len);
      r := if ValidUtf8(b) then Ok(b) else Err(InvalidUtf8);
    }
  }

  function Prepend(ts: seq<Text>, r: Result<(seq<Text>, seq<byte>)>): Result<(seq<Text>, seq<byte>)> {
    match r
    case Ok((us, rest)) => Ok((ts + us, rest))
    case Err(e) => Err(e)
  }

  lemma PrependStep(ts: seq<Text>, n: nat, b: seq<byte>)
    requires n > 0
    ensures match TakeText(b)
            case Ok((t, b1)) =>
              Prepend(ts, TakeTags(n, b)) == Prepend(ts + [t], TakeTags(n - 1, b1))
            case Err(x) => Prepend(ts, TakeTags(n, b)) == Err(x)
  {
    if TakeText(b).Ok? {
      var (t, b1) := TakeText(b).value;
      if TakeTags(n - 1, b1).Ok? { Glue(ts, [t], TakeTags(n - 1, b1).value.0); }
    }
  }

  lemma PrependNone(r: Result<(seq<Text>, seq<byte>)>)
    ensures Prepend([], r) == r
  {
    if r.Ok? { assert [] + r.value.0 == r.value.0; }
  }

  method ReadTags(r: WireReader, count: nat) returns (out: Result<seq<Text>>)
    requires r.Valid()
    modifies r
    ensures r.Valid() && Agrees(TakeTags(count, old(r.Unread())), out, r.Unread())
  {
    ghost var spec := TakeTags(count, r.Unread());
    var tags: seq<Text> := [];
    PrependNone(spec);
    for i := 0 to count
      invariant r.Valid()
      invariant spec == Prepend(tags, TakeTags(count - i, r.Unread()))
    {
      PrependStep(tags, count - i, r.Unread());
      var t :- r.TakeString();
      tags := tags + [t];
    }
    out := Ok(tags);
    if TakeTags(0, r.Unread()).Ok? { assert tags + [] == tags; }
  }

  method ReadHeader(r: WireReader) returns (out: Result<Header>)
    requires r.Valid()
    modifies r
    ensures r.Valid() && Agrees(TakeHeader(old(r.Unread())), out, r.Unread())
  {
    var id :- r.TakeBytes(32);
    var pubkey :- r.TakeBytes(32);
    var createdAt :- r.TakeNumber(8);
    var code :- r.TakeBytes(1);
    var kind :- KindFromCode(code[0]);
    Pow256Widths();
    out := Ok(Header(id, pubkey, createdAt, kind));
  }

  method ReadTrailer(r: WireReader) returns (out: Result<Trailer>)
    requires r.Valid()
    modifies r
    ensures r.Valid() && Agrees(TakeTrailer(old(r.Unread())), out, r.Unread())
  {
    var sig :- r.TakeBytes(64);
    var nonce :- r.TakeNumber(8);
    var difficulty :- r.TakeBytes(1);
    var ttl :- r.TakeBytes(1);
    Pow256Widths();
    out := Ok(Trailer(sig, nonce, difficulty[0], ttl[0]));
  }

  method FromWireBytes(data: seq<byte>) returns (out: Result<MeshEvent>)
    ensures out == Decode(data)
  {
    if data != [] && AllZeros(data) { return Err(AllZero); }
    var r := new WireReader(data);
    var h :- ReadHeader(r);
    var count :- r.TakeNumber(4);
    if count > MAX_TAGS { return Err(TooManyTags); }
    var tags :- ReadTags(r, count);
    var content :- r.TakeString();
    var t :- ReadTrailer(r);
    out := Ok(MeshEvent(HexEncode(h.id), HexEncode(h.pubkey), h.createdAt, h.kind, tags, content,
                        HexEncode(t.sig), t.powNonce, t.powDifficulty, t.ttl));
  }
}
