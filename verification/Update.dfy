/** Signed update messages, chunked transfer and the receiver's protocol state. */
module Update {
  import opened Bytes

  const ANNOUNCEMENT_MAGIC: seq<byte> := [79, 78, 68, 69, 78, 69, 87, 49]
  const APK_MAGIC: seq<byte> := [79, 78, 68, 69, 65, 80, 75, 49]
  const MAX_APK_SIZE: nat := 200 * 1024 * 1024
  const MAX_CHUNKS: nat := 12_800
  const ANNOUNCEMENT_LEN: nat := 54
  const SIGNED_MANIFEST_LEN: nat := 80
  const MANIFEST_WIRE_LEN: nat := 92

  /** SHA-256 and Ed25519, of which nothing is assumed. */
  datatype Crypto = Crypto(hash: seq<byte> -> seq<byte>, verify: (seq<byte>, seq<byte>, seq<byte>) -> bool)

  datatype Version = Version(major: u16, minor: u16, patch: u16)

  predicate Newer(a: Version, b: Version) {
    || a.major > b.major
    || (a.major == b.major && a.minor > b.minor)
    || (a.major == b.major && a.minor == b.minor && a.patch > b.patch)
  }

  /** Major outweighs minor, and minor outweighs patch. */
  lemma NewerIsGreater(a: Version, b: Version)
    ensures Newer(a, b) <==>
              a.major * U32_LIMIT + a.minor * U16_LIMIT + a.patch > b.major * U32_LIMIT + b.minor * U16_LIMIT + b.patch
  {
    if a.major != b.major {
      assert a.major * U32_LIMIT + U32_LIMIT <= b.major * U32_LIMIT
             || b.major * U32_LIMIT + U32_LIMIT <= a.major * U32_LIMIT;
    }
  }

  // ---------------------------------------------------------------------------------------------
  // Wire formats
  // ---------------------------------------------------------------------------------------------

  function U16At(data: seq<byte>, i: nat): u16
    requires i + 2 <= |data|
  {
    assert Pow256(2) == U16_LIMIT by { Pow256Widths(); }
    FromLittleEndian(data[i..i + 2])
  }

  function U32At(data: seq<byte>, i: nat): u32
    requires i + 4 <= |data|
  {
    assert Pow256(4) == U32_LIMIT by { Pow256Widths(); }
    FromLittleEndian(data[i..i + 4])
  }

  function U64At(data: seq<byte>, i: nat): u64
    requires i + 8 <= |data|
  {
    assert Pow256(8) == U64_LIMIT by { Pow256Widths(); }
    FromLittleEndian(data[i..i + 8])
  }

  /** A field read from an offset equals a number exactly when its octets are that number's. */
  lemma FieldExact(data: seq<byte>, i: nat, width: nat, n: nat)
    requires i + width <= |data| && n < Pow256(width)
    ensures FromLittleEndian(data[i..i + width]) == n <==> data[i..i + width] == LittleEndian(n, width)
  {
    LittleEndianInverse(n, data[i..i + width]);
  }

  datatype Announcement = Announcement(version: Version, apkSha256: seq<byte>, timestamp: u64)

  function AnnouncementBytes(a: Announcement): seq<byte> {
    ANNOUNCEMENT_MAGIC + LittleEndian(a.version.major, 2) + LittleEndian(a.version.minor, 2)
    + LittleEndian(a.version.patch, 2) + a.apkSha256 + LittleEndian(a.timestamp, 8)
  }

  function ParseAnnouncement(data: seq<byte>): Option<Announcement> {
    if |data| != ANNOUNCEMENT_LEN || data[..8] != ANNOUNCEMENT_MAGIC then None
    else Some(Announcement(Version(U16At(data, 8), U16At(data, 10), U16At(data, 12)), data[14..46], U64At(data, 46)))
  }

  lemma AnnouncementLayout(data: seq<byte>, a: Announcement)
    requires |a.apkSha256| == 32
    ensures data == AnnouncementBytes(a) <==>
            && |data| == ANNOUNCEMENT_LEN && data[..8] == ANNOUNCEMENT_MAGIC
            && data[8..10] == LittleEndian(a.version.major, 2) && data[10..12] == LittleEndian(a.version.minor, 2)
            && data[12..14] == LittleEndian(a.version.patch, 2) && data[14..46] == a.apkSha256
            && data[46..54] == LittleEndian(a.timestamp, 8)
  {
    var enc := AnnouncementBytes(a);
    assert |enc| == ANNOUNCEMENT_LEN && enc[..8] == ANNOUNCEMENT_MAGIC
           && enc[8..10] == LittleEndian(a.version.major, 2);
    assert enc[10..12] == LittleEndian(a.version.minor, 2) && enc[12..14] == LittleEndian(a.version.patch, 2)
           && enc[14..46] == a.apkSha256 && enc[46..54] == LittleEndian(a.timestamp, 8);
    assert enc == enc[..8] + enc[8..10] + enc[10..12] + enc[12..14] + enc[14..46] + enc[46..54];
    if |data| == ANNOUNCEMENT_LEN {
      assert data == data[..8] + data[8..10] + data[10..12] + data[12..14] + data[14..46] + data[46..54];
    }
  }

  /** Announcements are parsed exactly: one octet string for each. */
  lemma AnnouncementExact(data: seq<byte>, a: Announcement)
    requires |a.apkSha256| == 32
    ensures ParseAnnouncement(data) == Some(a) <==> data == AnnouncementBytes(a)
  {
    AnnouncementLayout(data, a);
    if |data| == ANNOUNCEMENT_LEN {
      Pow256Widths();
      FieldExact(data, 8, 2, a.version.major);
      FieldExact(data, 10, 2, a.version.minor);
      FieldExact(data, 12, 2, a.version.patch);
      FieldExact(data, 46, 8, a.timestamp);
    }
  }

  datatype Manifest = Manifest(apkHash: seq<byte>, devPubkey: seq<byte>, timestamp: u64, apkSize: u64, chunkSize: u32)

  function SignedManifestBytes(m: Manifest): seq<byte> {
    APK_MAGIC + m.apkHash + m.devPubkey + LittleEndian(m.timestamp, 8)
  }

  function ManifestBytes(m: Manifest): seq<byte> {
    SignedManifestBytes(m) + LittleEndian(m.apkSize, 8) + LittleEndian(m.chunkSize, 4)
  }

  function ParseManifest(data: seq<byte>): Option<Manifest> {
    if |data| != MANIFEST_WIRE_LEN || data[..8] != APK_MAGIC then None
    else Some(Manifest(data[8..40], data[40..72], U64At(data, 72), U64At(data, 80), U32At(data, 88)))
  }

  lemma ManifestLayout(data: seq<byte>, m: Manifest)
    requires |m.apkHash| == 32 && |m.devPubkey| == 32
    ensures data == ManifestBytes(m) <==>
            && |data| == MANIFEST_WIRE_LEN && data[..8] == APK_MAGIC
            && data[8..40] == m.apkHash && data[40..72] == m.devPubkey
            && data[72..80] == LittleEndian(m.timestamp, 8)
            && data[80..88] == LittleEndian(m.apkSize, 8) && data[88..92] == LittleEndian(m.chunkSize, 4)
    ensures data == ManifestBytes(m) ==> data[..SIGNED_MANIFEST_LEN] == SignedManifestBytes(m)
  {
    var enc := ManifestBytes(m);
    assert |enc| == MANIFEST_WIRE_LEN && enc[..8] == APK_MAGIC && enc[8..40] == m.apkHash && enc[40..72] == m.devPubkey;
    assert enc[72..80] == LittleEndian(m.timestamp, 8) && enc[80..88] == LittleEndian(m.apkSize, 8)
           && enc[88..92] == LittleEndian(m.chunkSize, 4) && enc[..SIGNED_MANIFEST_LEN] == SignedManifestBytes(m);
    assert enc == enc[..8] + enc[8..40] + enc[40..72] + enc[72..80] + enc[80..88] + enc[88..92];
    if |data| == MANIFEST_WIRE_LEN {
      assert data == data[..8] + data[8..40] + data[40..72] + data[72..80] + data[80..88] + data[88..92];
    }
  }

  lemma ManifestExact(data: seq<byte>, m: Manifest)
    requires |m.apkHash| == 32 && |m.devPubkey| == 32
    ensures ParseManifest(data) == Some(m) <==> data == ManifestBytes(m)
  {
    ManifestLayout(data, m);
    if |data| == MANIFEST_WIRE_LEN {
      Pow256Widths();
      FieldExact(data, 72, 8, m.timestamp);
      FieldExact(data, 80, 8, m.apkSize);
      FieldExact(data, 88, 4, m.chunkSize);
    }
  }

  // ---------------------------------------------------------------------------------------------
  // Chunks
  // ---------------------------------------------------------------------------------------------

  function ChunkCount(len: nat, size: nat): nat {
    if size == 0 then 0 else (len + size - 1) / size
  }

  function ChunkOf(apk: seq<byte>, index: nat, size: nat): Option<seq<byte>> {
    var start := index * size;
    if start >= |apk| then None
    else Some(apk[start..if start + size < |apk| then start + size else |apk|])
  }

  datatype Pending = Pending(version: Version, manifest: Manifest, wire: seq<byte>, signature: seq<byte>,
                             peer: string, chunks: map<nat, seq<byte>>, expected: nat)

  datatype UpdateError =
    | InvalidSignature
    | NotNewer
    | ManifestMismatch
    | NoPendingTransfer
    | ChunkIndexOutOfBounds
    | ChunkTooLarge
    | IncompleteTransfer(received: nat, expected: nat)
    | VerificationFailed
    | InstallFailed

  datatype Result<T> = Ok(value: T) | Err(error: UpdateError)

  datatype ChunkStatus = Accepted | Duplicate

  function MaxChunkLen(p: Pending, index: nat): nat {
    if index == p.expected - 1 then SaturatingSub(p.manifest.apkSize, index * p.manifest.chunkSize)
    else p.manifest.chunkSize
  }

  /** Receiving one chunk. */
  function AcceptChunk(p: Pending, index: nat, data: seq<byte>): Result<Pending> {
    if index >= p.expected then Err(ChunkIndexOutOfBounds)
    else if |data| > MaxChunkLen(p, index) then Err(ChunkTooLarge)
    else if index in p.chunks then Ok(p)
    else Ok(p.(chunks := p.chunks[index := data]))
  }

  /** The chunks 0..n in a row, if none is missing. */
  function Joined(chunks: map<nat, seq<byte>>, n: nat): Option<seq<byte>> {
    if n == 0 then Some([])
    else
      var before := Joined(chunks, n - 1);
      if before.None? || n - 1 !in chunks then None else Some(before.value + chunks[n - 1])
  }

  function Assembly(p: Pending): (r: Result<seq<byte>>)
    ensures r.Ok? ==> |r.value| == p.manifest.apkSize
    ensures r.Err? ==> || r.error == IncompleteTransfer(|p.chunks.Keys|, p.expected)
                       || (r.error.IncompleteTransfer? && r.error.expected == p.manifest.apkSize != r.error.received)
  {
    var joined := Joined(p.chunks, p.expected);
    if |p.chunks.Keys| != p.expected || joined.None? then Err(IncompleteTransfer(|p.chunks.Keys|, p.expected))
    else if |joined.value| != p.manifest.apkSize then Err(IncompleteTransfer(|joined.value|, p.manifest.apkSize))
    else Ok(joined.value)
  }

  /** The transfer is laid out for a file as long as `apk`. */
  predicate LaidOutFor(p: Pending, apk: seq<byte>) {
    && p.manifest.apkSize == |apk| && p.manifest.chunkSize > 0
    && p.expected == ChunkCount(|apk|, p.manifest.chunkSize)
  }

  /** The transfer so far holds true chunks of `apk` only. */
  ghost predicate Carries(p: Pending, apk: seq<byte>) {
    && LaidOutFor(p, apk)
    && forall i :: i in p.chunks ==> i < p.expected && ChunkOf(apk, i, p.manifest.chunkSize) == Some(p.chunks[i])
  }

  lemma DivisionBounds(a: nat, b: nat)
    requires b > 0
    ensures (a / b) * b <= a < (a / b) * b + b
  {}

  lemma TimesMonotone(x: int, y: int, b: nat)
    requires x <= y
    ensures x * b <= y * b
  {}

  lemma ChunkBounds(len: nat, size: nat, i: nat)
    requires size > 0
    ensures i < ChunkCount(len, size) <==> i * size < len
    ensures i + 1 == ChunkCount(len, size) ==> len <= i * size + size
    ensures i + 1 < ChunkCount(len, size) ==> i * size + size < len
  {
    var n := ChunkCount(len, size);
    DivisionBounds(len + size - 1, size);
    assert (n - 1) * size == n * size - size && (i + 1) * size == i * size + size
           && (n - 2) * size == n * size - 2 * size;
    if i < n { TimesMonotone(i, n - 1, size); } else { TimesMonotone(n, i, size); }
    if i + 1 < n { TimesMonotone(i, n - 2, size); }
  }

  /** A chunk is refused exactly when it would begin beyond the end of the file, is longer than a chunk, or would
      reach beyond the end; the first one taken for an index stays. */
  lemma ChunkRefused(p: Pending, index: nat, data: seq<byte>)
    requires p.manifest.chunkSize > 0 && p.expected == ChunkCount(p.manifest.apkSize, p.manifest.chunkSize)
    ensures var r, start := AcceptChunk(p, index, data), index * p.manifest.chunkSize;
            && (r == Err(ChunkIndexOutOfBounds) <==> start >= p.manifest.apkSize)
            && (r == Err(ChunkTooLarge) <==>
                  start < p.manifest.apkSize && (|data| > p.manifest.chunkSize || start + |data| > p.manifest.apkSize))
            && (r.Err? ==> r.error in {ChunkIndexOutOfBounds, ChunkTooLarge})
            && (r.Ok? ==>
                  r.value == p.(chunks := p.chunks[index := if index in p.chunks then p.chunks[index] else data]))
  {
    ChunkBounds(p.manifest.apkSize, p.manifest.chunkSize, index);
    if index in p.chunks { assert p.chunks[index := p.chunks[index]] == p.chunks; }
  }

  /** A true chunk is never refused, whatever came before it; among true chunks it is recorded. */
  lemma TrueChunkAccepted(p: Pending, apk: seq<byte>, i: nat)
    requires LaidOutFor(p, apk) && i < p.expected
    ensures ChunkOf(apk, i, p.manifest.chunkSize).Some?
    ensures var r := AcceptChunk(p, i, ChunkOf(apk, i, p.manifest.chunkSize).value);
            && r.Ok? && r.value.chunks.Keys == p.chunks.Keys + {i}
            && r.value.expected == p.expected && r.value.manifest == p.manifest
            && (Carries(p, apk) ==> Carries(r.value, apk))
  {
    ChunkBounds(|apk|, p.manifest.chunkSize, i);
  }

  /** The octets covered by the first `n` chunks. */
  function Covered(apk: seq<byte>, n: nat, size: nat): seq<byte> {
    apk[..if n * size < |apk| then n * size else |apk|]
  }

  lemma NextChunkCovers(apk: seq<byte>, i: nat, size: nat)
    requires ChunkOf(apk, i, size).Some?
    ensures Covered(apk, i + 1, size) == Covered(apk, i, size) + ChunkOf(apk, i, size).value
  {
    assert (i + 1) * size == i * size + size;
  }

  lemma {:induction false} JoinedPrefix(p: Pending, apk: seq<byte>, n: nat)
    requires Carries(p, apk) && n <= p.expected && forall i :: 0 <= i < n ==> i in p.chunks
    ensures Joined(p.chunks, n) == Some(Covered(apk, n, p.manifest.chunkSize))
  {
    if n > 0 {
      JoinedPrefix(p, apk, n - 1);
      NextChunkCovers(apk, n - 1, p.manifest.chunkSize);
    }
  }

  lemma {:induction false} KeysBelow(keys: set<nat>, n: nat)
    requires forall i: nat :: i in keys <==> i < n
    ensures |keys| == n
  {
    if n > 0 {
      KeysBelow(keys - {n - 1}, n - 1);
    } else {
      assert keys == {};
    }
  }

  /** Feeding the chunks listed in `order`. */
  function Feed(p: Pending, apk: seq<byte>, order: seq<nat>): Result<Pending> {
    if order == [] then Ok(p)
    else
      var before := Feed(p, apk, order[..|order| - 1]);
      if before.Err? then before
      else
        var i := order[|order| - 1];
        var chunk := ChunkOf(apk, i, p.manifest.chunkSize);
        if chunk.None? then Err(ChunkIndexOutOfBounds) else AcceptChunk(before.value, i, chunk.value)
  }

  function Indices(order: seq<nat>): set<nat> {
    if order == [] then {} else Indices(order[..|order| - 1]) + {order[|order| - 1]}
  }

  lemma {:induction false} IndicesContain(order: seq<nat>, i: nat)
    ensures i in Indices(order) <==> i in order
  {
    if order != [] {
      IndicesContain(order[..|order| - 1], i);
      assert order == order[..|order| - 1] + [order[|order| - 1]];
    }
  }

  lemma {:induction false} FeedNeverFails(p: Pending, apk: seq<byte>, order: seq<nat>)
    requires Carries(p, apk) && forall k :: 0 <= k < |order| ==> order[k] < p.expected
    ensures var r := Feed(p, apk, order);
            r.Ok? && Carries(r.value, apk) && r.value.expected == p.expected && r.value.manifest == p.manifest
            && r.value.chunks.Keys == p.chunks.Keys + Indices(order)
  {
    if order == [] {
    } else {
      var init, i := order[..|order| - 1], order[|order| - 1];
      FeedNeverFails(p, apk, init);
      TrueChunkAccepted(Feed(p, apk, init).value, apk, i);
    }
  }

  lemma CompleteAssembly(q: Pending, apk: seq<byte>)
    requires Carries(q, apk) && forall i: nat :: i in q.chunks.Keys <==> i < q.expected
    ensures Assembly(q) == Ok(apk)
  {
    KeysBelow(q.chunks.Keys, q.expected);
    JoinedPrefix(q, apk, q.expected);
    ChunkBounds(|apk|, q.manifest.chunkSize, q.expected);
    assert apk[..|apk|] == apk;
  }

  /** Cutting an APK and feeding all chunks, in any order and with any repetition, gives back exactly
      the APK. */
  lemma TransferRoundTrip(p: Pending, apk: seq<byte>, order: seq<nat>)
    requires Carries(p, apk) && forall k :: 0 <= k < |order| ==> order[k] < p.expected
    requires forall i :: 0 <= i < p.expected ==> i in order
    ensures var r := Feed(p, apk, order);
            r.Ok? && Assembly(r.value) == Ok(apk)
  {
    FeedNeverFails(p, apk, order);
    var q := Feed(p, apk, order).value;
    forall i: nat ensures i in q.chunks.Keys <==> i < q.expected {
      IndicesContain(order, i);
    }
    CompleteAssembly(q, apk);
  }

  // ---------------------------------------------------------------------------------------------
  // Any chunks at all
  // ---------------------------------------------------------------------------------------------

  datatype Chunk = Chunk(index: nat, data: seq<byte>)

  predicate Fits(p: Pending, c: Chunk) {
    c.index < p.expected && |c.data| <= MaxChunkLen(p, c.index)
  }

  /** Receiving chunks from anyone; refused ones change nothing. */
  function FeedAny(p: Pending, cs: seq<Chunk>): Pending {
    if cs == [] then p
    else
      var before := FeedAny(p, cs[..|cs| - 1]);
      match AcceptChunk(before, cs[|cs| - 1].index, cs[|cs| - 1].data)
      case Ok(q) => q
      case Err(_) => before
  }

  /** The first chunk for index `i` that fits. */
  function FirstFitting(p: Pending, cs: seq<Chunk>, i: nat): Option<seq<byte>> {
    if cs == [] then None
    else
      var earlier, c := FirstFitting(p, cs[..|cs| - 1], i), cs[|cs| - 1];
      if earlier.Some? then earlier else if c.index == i && Fits(p, c) then Some(c.data) else None
  }

  function Kept(p: Pending, cs: seq<Chunk>, i: nat): Option<seq<byte>> {
    if i in p.chunks then Some(p.chunks[i]) else FirstFitting(p, cs, i)
  }

  /** What a transfer holds for an index is what it held, or else the first chunk that fits. */
  lemma {:induction false} FirstFittingIsKept(p: Pending, cs: seq<Chunk>, i: nat)
    ensures var q := FeedAny(p, cs);
            && q.manifest == p.manifest && q.expected == p.expected
            && (i in q.chunks <==> Kept(p, cs, i).Some?)
            && (i in q.chunks ==> q.chunks[i] == Kept(p, cs, i).value)
  {
    if cs != [] { FirstFittingIsKept(p, cs[..|cs| - 1], i); }
  }

  /** Every chunk held is within the limits for its index. */
  ghost predicate AllFit(p: Pending) {
    forall i :: i in p.chunks ==> Fits(p, Chunk(i, p.chunks[i]))
  }

  lemma {:induction false} FirstFittingFits(p: Pending, cs: seq<Chunk>, i: nat)
    ensures FirstFitting(p, cs, i).Some? ==> Fits(p, Chunk(i, FirstFitting(p, cs, i).value))
  {
    if cs != [] { FirstFittingFits(p, cs[..|cs| - 1], i); }
  }

  lemma {:induction false} JoinedIsBounded(p: Pending, apk: seq<byte>, n: nat)
    requires LaidOutFor(p, apk) && AllFit(p) && n < p.expected && Joined(p.chunks, n).Some?
    ensures |Joined(p.chunks, n).value| <= n * p.manifest.chunkSize
  {
    if n > 0 {
      JoinedIsBounded(p, apk, n - 1);
      assert Fits(p, Chunk(n - 1, p.chunks[n - 1]));
      assert n * p.manifest.chunkSize == (n - 1) * p.manifest.chunkSize + p.manifest.chunkSize;
    }
  }

  ghost predicate HasTrueChunk(q: Pending, apk: seq<byte>, i: nat) {
    i in q.chunks && ChunkOf(apk, i, q.manifest.chunkSize) == Some(q.chunks[i])
  }

  /** Chunks within their limits that make up a prefix of the file are the file's chunks: none can be
      short, for none can be long. */
  lemma {:induction false} JoinedHasTrueChunks(p: Pending, apk: seq<byte>, n: nat)
    requires LaidOutFor(p, apk) && AllFit(p) && n <= p.expected
    requires Joined(p.chunks, n) == Some(Covered(apk, n, p.manifest.chunkSize))
    ensures forall i :: 0 <= i < n ==> HasTrueChunk(p, apk, i)
  {
    if n > 0 {
      var size, before := p.manifest.chunkSize, Joined(p.chunks, n - 1).value;
      ChunkBounds(|apk|, size, n - 1);
      NextChunkCovers(apk, n - 1, size);
      JoinedIsBounded(p, apk, n - 1);
      assert Fits(p, Chunk(n - 1, p.chunks[n - 1]));
      SamePrefix(before, p.chunks[n - 1], Covered(apk, n - 1, size), ChunkOf(apk, n - 1, size).value);
      JoinedHasTrueChunks(p, apk, n - 1);
    }
  }

  lemma SamePrefix(a: seq<byte>, b: seq<byte>, c: seq<byte>, d: seq<byte>)
    requires a + b == c + d && |a| <= |c| && |b| <= |d|
    ensures a == c && b == d
  {
    assert a == (a + b)[..|a|] && b == (a + b)[|a|..];
    assert c == (c + d)[..|c|] && d == (c + d)[|c|..];
  }

  /** A transfer assembles to the file exactly when every index holds the file's own chunk. */
  lemma AssemblyExact(q: Pending, apk: seq<byte>)
    requires LaidOutFor(q, apk) && AllFit(q)
    ensures Assembly(q) == Ok(apk) <==> forall i :: 0 <= i < q.expected ==> HasTrueChunk(q, apk, i)
  {
    if Assembly(q) == Ok(apk) {
      WholeIsCovered(apk, q.expected, q.manifest.chunkSize);
      JoinedHasTrueChunks(q, apk, q.expected);
    }
    if forall i :: 0 <= i < q.expected ==> HasTrueChunk(q, apk, i) {
      assert Carries(q, apk) by {
        forall i | i in q.chunks
          ensures i < q.expected && ChunkOf(apk, i, q.manifest.chunkSize) == Some(q.chunks[i])
        {
          assert Fits(q, Chunk(i, q.chunks[i])) && HasTrueChunk(q, apk, i);
        }
      }
      forall i: nat ensures i in q.chunks.Keys <==> i < q.expected {
        assert i in q.chunks ==> Fits(q, Chunk(i, q.chunks[i]));
        assert i < q.expected ==> HasTrueChunk(q, apk, i);
      }
      CompleteAssembly(q, apk);
    }
  }

  lemma WholeIsCovered(apk: seq<byte>, n: nat, size: nat)
    requires size > 0 && n == ChunkCount(|apk|, size)
    ensures Covered(apk, n, size) == apk
  {
    ChunkBounds(|apk|, size, n);
  }

  lemma FedFromEmpty(p: Pending, cs: seq<Chunk>)
    requires p.chunks == map[]
    ensures var q := FeedAny(p, cs); q.manifest == p.manifest && q.expected == p.expected && AllFit(q)
  {
    var q := FeedAny(p, cs);
    FirstFittingIsKept(p, cs, 0);
    forall i | i in q.chunks ensures Fits(q, Chunk(i, q.chunks[i])) {
      FirstFittingIsKept(p, cs, i);
      FirstFittingFits(p, cs, i);
    }
  }

  lemma FirstFittingIsTrue(p: Pending, apk: seq<byte>, cs: seq<Chunk>, i: nat)
    requires LaidOutFor(p, apk) && p.chunks == map[] && i < p.expected
    ensures HasTrueChunk(FeedAny(p, cs), apk, i) <==>
            FirstFitting(p, cs, i) == ChunkOf(apk, i, p.manifest.chunkSize)
  {
    FirstFittingIsKept(p, cs, i);
    ChunkBounds(|apk|, p.manifest.chunkSize, i);
  }

  /** Whatever chunks arrive, the transfer assembles to the file exactly when, for every index, the first
      chunk that fits is the file's. A shorter first chunk spoils it, since the true one is then called a
      duplicate. */
  lemma TransferExact(p: Pending, apk: seq<byte>, cs: seq<Chunk>)
    requires LaidOutFor(p, apk) && p.chunks == map[]
    ensures Assembly(FeedAny(p, cs)) == Ok(apk) <==>
            forall i :: 0 <= i < p.expected ==> FirstFitting(p, cs, i) == ChunkOf(apk, i, p.manifest.chunkSize)
  {
    FedFromEmpty(p, cs);
    AssemblyExact(FeedAny(p, cs), apk);
    forall i: nat | i < p.expected
      ensures HasTrueChunk(FeedAny(p, cs), apk, i) <==>
              FirstFitting(p, cs, i) == ChunkOf(apk, i, p.manifest.chunkSize)
    {
      FirstFittingIsTrue(p, apk, cs, i);
    }
  }

  /** A transfer that holds every index never changes again, so one that does not make up the file stays
      so until another manifest replaces it. */
  lemma {:induction false} FullTransferIsFinal(p: Pending, cs: seq<Chunk>)
    requires forall i :: 0 <= i < p.expected ==> i in p.chunks
    ensures FeedAny(p, cs) == p && Assembly(FeedAny(p, cs)) == Assembly(p)
  {
    if cs != [] { FullTransferIsFinal(p, cs[..|cs| - 1]); }
  }
}
