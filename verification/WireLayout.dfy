/** What each octet of an encoded event says, field by field. */
module WireLayout {
  import opened Bytes
  import opened Wire

  const HEX_DIGITS: string := "0123456789abcdef"

  /** The kinds in the order of their codes. */
  const KINDS: seq<Kind> := [
    Alert, MutualAid, VoiceMemo, Transcription, Transaction, AiQuery, AiResponse,
    FileShareRequest, Heartbeat, UpdateAnnounce, UpdateManifest, UpdateChunk, UpdateRequest,
    Endorsement, IdentityRotation, AbuseReport, SocialPost, SocialComment, SocialVote,
    SocialFollow, SocialMessage, SocialModeration]

  lemma KindsInOrder(k: Kind)
    ensures |KINDS| == 22 && KindCode(k) < 22 && KINDS[KindCode(k)] == k
  {}

  // ---------------------------------------------------------------------------------------------
  // Numbers and texts
  // ---------------------------------------------------------------------------------------------

  /** Keeping the low 32 bits leaves the four low octets alone. */
  lemma LengthIsTruncated(n: nat)
    ensures LittleEndian(AsU32(n), 4) == LittleEndian(n, 4)
  {
    Pow256Widths();
    LowOctets(n, 4);
  }

  lemma {:induction false} LowOctets(n: nat, width: nat)
    ensures LittleEndian(n % Pow256(width), width) == LittleEndian(n, width)
  {
    if width > 0 {
      LowOctet(n, Pow256(width - 1));
      LowOctets(n / 256, width - 1);
    }
  }

  lemma LowOctet(n: nat, p: nat)
    requires p > 0
    ensures n % (256 * p) % 256 == n % 256 && n % (256 * p) / 256 == n / 256 % p
  {
    var q, r, low := n / 256 / p, n / 256 % p, n % 256;
    Spread(p, q, r);
    Multiples(256, r, p);
    Quotient(n, 256 * p, q, 256 * r + low);
    assert n % (256 * p) == 256 * r + low;
  }

  lemma Spread(p: nat, q: nat, r: nat)
    ensures 256 * (p * q + r) == (256 * p) * q + 256 * r
  {}

  /** A tag is its length in four octets and its text; tags follow one another in order. */
  lemma {:induction false} TagsInOrder(xs: seq<Text>, t: Text, ys: seq<Text>)
    ensures EncodeTags(xs + ([t] + ys)) == EncodeTags(xs) + (LittleEndian(|t|, 4) + t + EncodeTags(ys))
    ensures EncodeTags([]) == []
  {
    if xs == [] {
      assert xs + ([t] + ys) == [t] + ys && ([t] + ys)[1..] == ys;
      LengthIsTruncated(|t|);
    } else {
      TagsInOrder(xs[1..], t, ys);
      assert (xs + ([t] + ys))[0] == xs[0] && (xs + ([t] + ys))[1..] == xs[1..] + ([t] + ys);
      Glue(EncodeText(xs[0]), EncodeTags(xs[1..]), LittleEndian(|t|, 4) + t + EncodeTags(ys));
    }
  }

  // ---------------------------------------------------------------------------------------------
  // Hexadecimal
  // ---------------------------------------------------------------------------------------------

  /** Two digits an octet, the upper half first. */
  lemma {:induction false} HexDigits(b: seq<byte>, i: nat)
    requires i < |b|
    ensures HexEncode(b)[2 * i] == HEX_DIGITS[b[i] / 16] as int
    ensures HexEncode(b)[2 * i + 1] == HEX_DIGITS[b[i] % 16] as int
  {
    DigitIsListed(b[0] / 16);
    DigitIsListed(b[0] % 16);
    if i > 0 { HexDigits(b[1..], i - 1); }
  }

  lemma DigitIsListed(n: nat)
    requires n < 16
    ensures |HEX_DIGITS| == 16 && HexDigit(n) == HEX_DIGITS[n] as int
  {}

  /** Capital letters read as small ones. */
  function Lowered(c: byte): byte { if 'A' as int <= c <= 'Z' as int then c + 32 else c }

  function AllLowered(s: Text): (r: Text)
    ensures |r| == |s| && forall i :: 0 <= i < |s| ==> r[i] == Lowered(s[i])
  {
    seq(|s|, i requires 0 <= i < |s| => Lowered(s[i]))
  }

  /** A text reads as hexadecimal octets exactly when, in small letters, it is how those octets are written. */
  lemma {:induction false} HexReadsExactly(s: Text, b: seq<byte>)
    ensures HexDecode(s) == Ok(b) <==> AllLowered(s) == HexEncode(b)
  {
    if |s| >= 2 && b != [] {
      HexReadsExactly(s[2..], b[1..]);
      DigitReadsExactly(s[0], b[0] / 16);
      DigitReadsExactly(s[1], b[0] % 16);
      assert AllLowered(s) == [Lowered(s[0]), Lowered(s[1])] + AllLowered(s[2..]);
      SamePair(Lowered(s[0]), Lowered(s[1]), AllLowered(s[2..]), HexDigit(b[0] / 16), HexDigit(b[0] % 16),
               HexEncode(b[1..]));
      OctetReadsExactly(s, b);
    }
  }

  lemma SamePair(x: byte, y: byte, s: Text, x': byte, y': byte, s': Text)
    ensures [x, y] + s == [x', y'] + s' <==> x == x' && y == y' && s == s'
  {
    assert ([x, y] + s)[2..] == s && ([x', y'] + s')[2..] == s';
    assert ([x, y] + s)[0] == x && ([x, y] + s)[1] == y && ([x', y'] + s')[0] == x' && ([x', y'] + s')[1] == y';
  }

  lemma OctetReadsExactly(s: Text, b: seq<byte>)
    requires |s| >= 2 && b != []
    ensures HexDecode(s) == Ok(b) <==> HexValue(s[0]) == Some(b[0] / 16) && HexValue(s[1]) == Some(b[0] % 16)
                                       && HexDecode(s[2..]) == Ok(b[1..])
  {
    if HexValue(s[0]).Some? && HexValue(s[1]).Some? && HexDecode(s[2..]).Ok? {
      var hi, lo, tail := HexValue(s[0]).value, HexValue(s[1]).value, HexDecode(s[2..]).value;
      Halves(hi, lo, b[0]);
      assert [16 * hi + lo] + tail == b <==> 16 * hi + lo == b[0] && tail == b[1..];
    }
  }

  lemma Halves(hi: nat, lo: nat, x: byte)
    requires hi < 16 && lo < 16
    ensures 16 * hi + lo == x <==> hi == x / 16 && lo == x % 16
  {}

  lemma DigitReadsExactly(c: byte, n: nat)
    requires n < 16
    ensures HexValue(c) == Some(n) <==> Lowered(c) == HexDigit(n)
  {}

  // ---------------------------------------------------------------------------------------------
  // Where each field lies
  // ---------------------------------------------------------------------------------------------

  ghost predicate At(d: seq<byte>, i: nat, field: seq<byte>) {
    i + |field| <= |d| && d[i..i + |field|] == field
  }

  lemma Placed(before: seq<byte>, x: seq<byte>, after: seq<byte>)
    ensures At(before + (x + after), |before|, x) && before + (x + after) == (before + x) + after
  {}

  lemma HeaderInPlace(h: Header, rest: seq<byte>)
    requires |h.id| == |h.pubkey| == 32
    ensures var d := EncodeHeader(h) + rest;
            d[..32] == h.id && d[32..64] == h.pubkey && At(d, 64, LittleEndian(h.createdAt, 8))
            && d[72] == KindCode(h.kind)
  {
    Glue4(h.id, h.pubkey, LittleEndian(h.createdAt, 8), [KindCode(h.kind)], rest);
  }

  lemma TrailerInPlace(before: seq<byte>, t: Trailer)
    requires |t.sig| == 64
    ensures var d := before + EncodeTrailer(t); var n := |before|;
            d[n..n + 64] == t.sig && At(d, n + 64, LittleEndian(t.powNonce, 8)) && d[n + 72] == t.powDifficulty
            && d[n + 73] == t.ttl
  {}

  lemma MiddleInPlace(d: seq<byte>, head: seq<byte>, tags: seq<Text>, content: Text, rest: seq<byte>)
    requires d == head + (LittleEndian(AsU32(|tags|), 4) + (EncodeTags(tags) + (EncodeText(content) + rest)))
    ensures var k := |head| + 4 + |EncodeTags(tags)|;
            && At(d, |head|, LittleEndian(|tags|, 4)) && At(d, |head| + 4, EncodeTags(tags))
            && At(d, k, LittleEndian(|content|, 4)) && At(d, k + 4, content)
            && |d| == k + 4 + |content| + |rest| && d == d[..k + 4 + |content|] + rest
  {
    var v, x := LittleEndian(|tags|, 4), LittleEndian(|content|, 4);
    assert d == head + (v + (EncodeTags(tags) + ((x + content) + rest))) by {
      LengthIsTruncated(|tags|);
      LengthIsTruncated(|content|);
    }
    MiddlePlaced(d, head, v, EncodeTags(tags), x, content, rest);
  }

  lemma MiddlePlaced(d: seq<byte>, head: seq<byte>, v: seq<byte>, w: seq<byte>, x: seq<byte>, y: seq<byte>,
                     rest: seq<byte>)
    requires d == head + (v + (w + ((x + y) + rest)))
    ensures var k := |head| + |v| + |w|;
            && At(d, |head|, v) && At(d, |head| + |v|, w) && At(d, k, x) && At(d, k + |x|, y)
            && |d| == k + |x| + |y| + |rest| && d == d[..k + |x| + |y|] + rest
  {
    Glue(x, y, rest);
    Placed(head, v, w + (x + (y + rest)));
    Placed(head + v, w, x + (y + rest));
    Placed((head + v) + w, x, y + rest);
    Placed(((head + v) + w) + x, y, rest);
  }

  lemma LayoutMiddle(d: seq<byte>, h: Header, tags: seq<Text>, content: Text, t: Trailer)
    requires |h.id| == |h.pubkey| == 32 && |t.sig| == 64 && d == Layout(h, tags, content, t)
    ensures |d| == 155 + |EncodeTags(tags)| + |content| && d == d[..|d| - 74] + EncodeTrailer(t)
    ensures At(d, 73, LittleEndian(|tags|, 4)) && At(d, 77, EncodeTags(tags))
    ensures At(d, |d| - 78 - |content|, LittleEndian(|content|, 4)) && At(d, |d| - 74 - |content|, content)
  {
    assert |EncodeHeader(h)| == 73 && |EncodeTrailer(t)| == 74;
    MiddleInPlace(d, EncodeHeader(h), tags, content, EncodeTrailer(t));
  }

  lemma LayoutStart(d: seq<byte>, h: Header, tags: seq<Text>, content: Text, t: Trailer)
    requires |h.id| == |h.pubkey| == 32 && d == Layout(h, tags, content, t)
    ensures |d| >= 73 && d[..32] == h.id && d[32..64] == h.pubkey && At(d, 64, LittleEndian(h.createdAt, 8))
            && d[72] == KindCode(h.kind)
  {
    HeaderInPlace(h, LittleEndian(AsU32(|tags|), 4) + (EncodeTags(tags) + (EncodeText(content) + EncodeTrailer(t))));
  }

  lemma LayoutEnd(d: seq<byte>, t: Trailer)
    requires |t.sig| == 64 && |d| >= 74 && d == d[..|d| - 74] + EncodeTrailer(t)
    ensures var n := |d|;
            && d[n - 74..n - 10] == t.sig && At(d, n - 10, LittleEndian(t.powNonce, 8))
            && d[n - 2] == t.powDifficulty && d[n - 1] == t.ttl
  {
    TrailerInPlace(d[..|d| - 74], t);
  }

  lemma EncodedParts(e: MeshEvent) returns (h: Header, t: Trailer)
    requires Encode(e).Ok?
    ensures |h.id| == |h.pubkey| == 32 && |t.sig| == 64
    ensures HexEncode(h.id) == AllLowered(e.id) && HexEncode(h.pubkey) == AllLowered(e.pubkey)
            && HexEncode(t.sig) == AllLowered(e.sig)
    ensures h.createdAt == e.createdAt && h.kind == e.kind
            && t.powNonce == e.powNonce && t.powDifficulty == e.powDifficulty && t.ttl == e.ttl
    ensures Encode(e) == Ok(Layout(h, e.tags, e.content, t))
  {
    h := Header(HexDecode(e.id).value, HexDecode(e.pubkey).value, e.createdAt, e.kind);
    t := Trailer(HexDecode(e.sig).value, e.powNonce, e.powDifficulty, e.ttl);
    HexReadsExactly(e.id, h.id);
    HexReadsExactly(e.pubkey, h.pubkey);
    HexReadsExactly(e.sig, t.sig);
  }

  /** Identity, key, time, kind and the number of tags at fixed places, then the tags. */
  ghost predicate StartsWithFields(d: seq<byte>, e: MeshEvent) {
    && |d| == 155 + |EncodeTags(e.tags)| + |e.content|
    && HexEncode(d[..32]) == AllLowered(e.id) && HexEncode(d[32..64]) == AllLowered(e.pubkey)
    && At(d, 64, LittleEndian(e.createdAt, 8)) && d[72] == KindCode(e.kind)
    && At(d, 73, LittleEndian(|e.tags|, 4)) && At(d, 77, EncodeTags(e.tags))
  }

  /** Last the content; the signature, the proof of work and the lifetime, at fixed places from the end. */
  ghost predicate EndsWithFields(d: seq<byte>, e: MeshEvent) {
    var n := |d|;
    && n >= 155 + |e.content|
    && At(d, n - 78 - |e.content|, LittleEndian(|e.content|, 4)) && At(d, n - 74 - |e.content|, e.content)
    && HexEncode(d[n - 74..n - 10]) == AllLowered(e.sig)
    && At(d, n - 10, LittleEndian(e.powNonce, 8)) && d[n - 2] == e.powDifficulty && d[n - 1] == e.ttl
  }

  lemma FieldsInPlace(e: MeshEvent)
    requires Encode(e).Ok?
    ensures StartsWithFields(Encode(e).value, e) && EndsWithFields(Encode(e).value, e)
  {
    var h, t := EncodedParts(e);
    FirstFields(Encode(e).value, e, h, t);
    LastFields(Encode(e).value, e, h, t);
  }

  lemma FirstFields(d: seq<byte>, e: MeshEvent, h: Header, t: Trailer)
    requires |h.id| == |h.pubkey| == 32 && |t.sig| == 64 && d == Layout(h, e.tags, e.content, t)
    requires HexEncode(h.id) == AllLowered(e.id) && HexEncode(h.pubkey) == AllLowered(e.pubkey)
    requires h.createdAt == e.createdAt && h.kind == e.kind
    ensures StartsWithFields(d, e)
  {
    LayoutStart(d, h, e.tags, e.content, t);
    LayoutMiddle(d, h, e.tags, e.content, t);
  }

  lemma LastFields(d: seq<byte>, e: MeshEvent, h: Header, t: Trailer)
    requires |h.id| == |h.pubkey| == 32 && |t.sig| == 64 && d == Layout(h, e.tags, e.content, t)
    requires HexEncode(t.sig) == AllLowered(e.sig)
    requires t.powNonce == e.powNonce && t.powDifficulty == e.powDifficulty && t.ttl == e.ttl
    ensures EndsWithFields(d, e)
  {
    LayoutMiddle(d, h, e.tags, e.content, t);
    LayoutEnd(d, t);
  }
}
