/** The receiver of updates: the protocol object and the node's handlers around it. */
module UpdateReceiver {
  import opened Bytes
  import opened Update

  datatype Verified = Verified(version: Version, apkSha256: seq<byte>)

  datatype InstalledUpdate = InstalledUpdate(version: Version, apkSha256: seq<byte>, at: u64)

  function VerifyManifest(c: Crypto, root: seq<byte>, data: seq<byte>, sig: seq<byte>): Option<Manifest> {
    if |data| == MANIFEST_WIRE_LEN && c.verify(root, data[..SIGNED_MANIFEST_LEN], sig) then ParseManifest(data)
    else None
  }

  /** The end-to-end check: signature, form and content hash. */
  predicate ApkVerifies(c: Crypto, root: seq<byte>, apk: seq<byte>, signed: seq<byte>, sig: seq<byte>) {
    && |signed| == SIGNED_MANIFEST_LEN && signed[..8] == APK_MAGIC
    && c.verify(root, signed, sig)
    && c.hash(apk) == signed[8..40]
  }

  predicate Transferable(m: Manifest, a: Announcement) {
    && m.apkHash == a.apkSha256
    && m.apkSize <= MAX_APK_SIZE && m.chunkSize != 0
    && ChunkCount(m.apkSize, m.chunkSize) <= MAX_CHUNKS
  }

  function NewTransfer(m: Manifest, a: Announcement, data: seq<byte>, sig: seq<byte>, peer: string): Pending {
    Pending(a.version, m, data, sig, peer, map[], ChunkCount(m.apkSize, m.chunkSize))
  }

  /** An accepted manifest starts a transfer of any file as long as it says. */
  lemma NewTransferCarries(m: Manifest, a: Announcement, data: seq<byte>, sig: seq<byte>, peer: string, apk: seq<byte>)
    requires Transferable(m, a) && |apk| == m.apkSize
    ensures Carries(NewTransfer(m, a, data, sig, peer), apk)
  {}

  /** A transfer in progress has a verified manifest, is within the limits and has no stray chunk. */
  ghost predicate PendingOk(c: Crypto, root: seq<byte>, p: Pending) {
    && VerifyManifest(c, root, p.wire, p.signature) == Some(p.manifest)
    && p.manifest.apkSize <= MAX_APK_SIZE && p.manifest.chunkSize != 0
    && p.expected == ChunkCount(p.manifest.apkSize, p.manifest.chunkSize) <= MAX_CHUNKS
    && forall i :: i in p.chunks ==> i < p.expected && |p.chunks[i]| <= p.manifest.chunkSize
  }

  ghost predicate VersionsAscend(s: seq<InstalledUpdate>) {
    forall i, j :: 0 <= i < j < |s| ==> !Newer(s[i].version, s[j].version)
  }

  /** Stable insertion by version, and the sort built from it. */
  function InsertByVersion(s: seq<InstalledUpdate>, u: InstalledUpdate): seq<InstalledUpdate> {
    if s == [] || !Newer(s[|s| - 1].version, u.version) then s + [u]
    else InsertByVersion(s[..|s| - 1], u) + [s[|s| - 1]]
  }

  function SortByVersion(s: seq<InstalledUpdate>): seq<InstalledUpdate> {
    if s == [] then [] else InsertByVersion(SortByVersion(s[..|s| - 1]), s[|s| - 1])
  }

  lemma {:induction false} SortedStays(s: seq<InstalledUpdate>)
    requires VersionsAscend(s)
    ensures SortByVersion(s) == s
  {
    if s != [] {
      SortedStays(s[..|s| - 1]);
      assert s == s[..|s| - 1] + [s[|s| - 1]];
    }
  }

  lemma {:induction false} InsertKeepsAll(s: seq<InstalledUpdate>, u: InstalledUpdate)
    ensures multiset(InsertByVersion(s, u)) == multiset(s) + multiset{u}
  {
    if s != [] && Newer(s[|s| - 1].version, u.version) {
      var init, last := s[..|s| - 1], s[|s| - 1];
      assert multiset(s) == multiset(init) + multiset{last} by { assert s == init + [last]; }
      InsertKeepsAll(init, u);
      assert multiset(InsertByVersion(init, u) + [last]) == multiset(InsertByVersion(init, u)) + multiset{last};
    }
  }

  /** Whatever came before, a new one goes where the order stays. */
  lemma {:induction false} InsertKeepsOrder(s: seq<InstalledUpdate>, u: InstalledUpdate)
    requires VersionsAscend(s)
    ensures VersionsAscend(InsertByVersion(s, u))
  {
    if s != [] && Newer(s[|s| - 1].version, u.version) {
      var init, last := s[..|s| - 1], s[|s| - 1];
      InsertKeepsOrder(init, u);
      var r := InsertByVersion(init, u);
      forall i | 0 <= i < |r| ensures !Newer(r[i].version, last.version) {
        InsertKeepsAll(init, u);
        assert r[i] in multiset(r);
        assert r[i] == u || r[i] in init;
      }
    }
  }

  /** So sorting orders any list, and loses nothing. */
  lemma {:induction false} SortOrders(s: seq<InstalledUpdate>)
    ensures VersionsAscend(SortByVersion(s)) && multiset(SortByVersion(s)) == multiset(s)
  {
    if s != [] {
      var init, last := s[..|s| - 1], s[|s| - 1];
      assert multiset(s) == multiset(init) + multiset{last} by { assert s == init + [last]; }
      SortOrders(init);
      InsertKeepsOrder(SortByVersion(init), last);
      InsertKeepsAll(SortByVersion(init), last);
    }
  }

  class UpdateProtocol {
    const crypto: Crypto
    const root: seq<byte>
    var current: Version
    var pending: Option<Pending>
    var lastVerified: Option<Verified>
    var installed: seq<InstalledUpdate>

    ghost predicate Valid()
      reads this
    {
      pending.Some? ==> PendingOk(crypto, root, pending.value)
    }

    constructor (crypto: Crypto, root: seq<byte>, current: Version)
      ensures Valid() && this.crypto == crypto && this.root == root && this.current == current
      ensures pending == None && lastVerified == None && installed == []
    {
      this.crypto, this.root, this.current := crypto, root, current;
      pending, lastVerified, installed := None, None, [];
    }

    method HandleAnnouncement(data: seq<byte>, sig: seq<byte>) returns (r: Result<Announcement>)
      ensures ParseAnnouncement(data).None? || !crypto.verify(root, data, sig) ==> r == Err(InvalidSignature)
      ensures ParseAnnouncement(data).Some? && crypto.verify(root, data, sig) ==>
                var a := ParseAnnouncement(data).value;
                r == if Newer(a.version, current) then Ok(a) else Err(NotNewer)
    {
      var a := ParseAnnouncement(data);
      if a.None? || !crypto.verify(root, data, sig) { return Err(InvalidSignature); }
      if !Newer(a.value.version, current) { return Err(NotNewer); }
      return Ok(a.value);
    }

    /** A manifest is accepted exactly when it is signed, names the announced hash and stays within the
        limits; it replaces any transfer under way. */
    method HandleManifest(a: Announcement, data: seq<byte>, sig: seq<byte>, peer: string)
      returns (error: Option<UpdateError>)
      requires Valid()
      modifies this`pending, this`lastVerified
      ensures Valid()
      ensures var m := VerifyManifest(crypto, root, data, sig);
              error == None <==> m.Some? && Transferable(m.value, a)
      ensures error == None ==>
                lastVerified == None
                && pending == Some(NewTransfer(VerifyManifest(crypto, root, data, sig).value, a, data, sig, peer))
      ensures error != None ==> pending == old(pending) && lastVerified == old(lastVerified)
      ensures error == None ==> pending.value.chunks == map[] && pending.value.version == a.version
      ensures error == None <==>
                && |data| == 92 && ParseManifest(data).Some? && crypto.verify(root, data[..80], sig)
                && var m := ParseManifest(data).value;
                   m.apkHash == a.apkSha256 && m.apkSize <= 209_715_200 && 0 < m.chunkSize
                   && m.apkSize <= 12_800 * m.chunkSize
      ensures error == Some(ManifestMismatch) <==>
                && |data| == 92 && ParseManifest(data).Some? && crypto.verify(root, data[..80], sig)
                && ParseManifest(data).value.apkHash != a.apkSha256
      ensures error in [None, Some(ManifestMismatch), Some(InvalidSignature)]
    {
      var m := VerifyManifest(crypto, root, data, sig);
      if m.None? { return Some(InvalidSignature); }
      if m.value.apkHash != a.apkSha256 { return Some(ManifestMismatch); }
      if m.value.apkSize > MAX_APK_SIZE || m.value.chunkSize == 0 { return Some(InvalidSignature); }
      ChunkBounds(m.value.apkSize, m.value.chunkSize, MAX_CHUNKS);
      if ChunkCount(m.value.apkSize, m.value.chunkSize) > MAX_CHUNKS { return Some(InvalidSignature); }
      pending := Some(NewTransfer(m.value, a, data, sig, peer));
      lastVerified := None;
      return None;
    }

    method HandleChunk(index: nat, data: seq<byte>) returns (r: Result<ChunkStatus>)
      requires Valid()
      modifies this`pending
      ensures Valid()
      ensures old(pending).None? ==> r == Err(NoPendingTransfer) && pending == None
      ensures old(pending).Some? ==>
                match AcceptChunk(old(pending).value, index, data)
                case Err(e) => r == Err(e) && pending == old(pending)
                case Ok(q) =>
                  pending == Some(q) && r == Ok(if index in old(pending).value.chunks then Duplicate else Accepted)
    {
      if pending.None? { return Err(NoPendingTransfer); }
      var p := pending.value;
      if index >= p.expected { return Err(ChunkIndexOutOfBounds); }
      var maxLen := if index == p.expected - 1
                    then SaturatingSub(p.manifest.apkSize, index * p.manifest.chunkSize) else p.manifest.chunkSize;
      if |data| > maxLen { return Err(ChunkTooLarge); }
      if index in p.chunks { return Ok(Duplicate); }
      LastChunkFits(p.manifest.apkSize, p.manifest.chunkSize, index);
      pending := Some(p.(chunks := p.chunks[index := data]));
      return Ok(Accepted);
    }

    /** An incomplete transfer is kept; a complete one is consumed whether or not it verifies. */
    method AssembleAndVerify() returns (r: Result<seq<byte>>)
      requires Valid()
      modifies this`pending, this`lastVerified
      ensures Valid()
      ensures old(pending).None? ==> r == Err(NoPendingTransfer) && pending == None && lastVerified == old(lastVerified)
      ensures old(pending).Some? ==>
                var p := old(pending).value;
                match Assembly(p)
                case Err(e) => r == Err(e) && pending == old(pending) && lastVerified == old(lastVerified)
                case Ok(apk) =>
                  pending == None &&
                  if crypto.hash(apk) == p.manifest.apkHash
                  then r == Ok(apk) && lastVerified == Some(Verified(p.version, p.manifest.apkHash))
                  else r == Err(VerificationFailed) && lastVerified == old(lastVerified)
    {
      if pending.None? { return Err(NoPendingTransfer); }
      var p := pending.value;
      r := Assemble(p);
      if r.Err? { return; }
      pending := None;
      if !ApkVerifies(crypto, root, r.value, p.wire[..SIGNED_MANIFEST_LEN], p.signature) {
        return Err(VerificationFailed);
      }
      lastVerified := Some(Verified(p.version, crypto.hash(r.value)));
    }

    /** Only the content that was verified is installed, and only once. */
    method InstallVerified(apk: seq<byte>, written: bool, at: u64) returns (r: Result<InstalledUpdate>)
      requires Valid()
      modifies this`pending, this`lastVerified, this`installed, this`current
      ensures Valid()
      ensures r.Ok? <==> old(lastVerified).Some? && crypto.hash(apk) == old(lastVerified).value.apkSha256 && written
      ensures r.Ok? ==>
                && r.value == InstalledUpdate(old(lastVerified).value.version, crypto.hash(apk), at)
                && installed == SortByVersion(old(installed) + [r.value])
                && (installed != [] ==> current == installed[|installed| - 1].version)
                && lastVerified == None && pending == None
      ensures r.Err? ==> pending == old(pending) && lastVerified == old(lastVerified)
                         && installed == old(installed) && current == old(current)
    {
      if lastVerified.None? { return Err(NoPendingTransfer); }
      if crypto.hash(apk) != lastVerified.value.apkSha256 { return Err(VerificationFailed); }
      if !written { return Err(InstallFailed); }
      var u := InstalledUpdate(lastVerified.value.version, lastVerified.value.apkSha256, at);
      installed := SortByVersion(installed + [u]);
      if installed != [] { current := installed[|installed| - 1].version; }
      lastVerified, pending := None, None;
      return Ok(u);
    }
  }

  lemma LastChunkFits(size: nat, chunk: nat, index: nat)
    requires chunk > 0 && index < ChunkCount(size, chunk)
    ensures index == ChunkCount(size, chunk) - 1 ==> SaturatingSub(size, index * chunk) <= chunk
  {
    ChunkBounds(size, chunk, index);
  }

  /** The assembling loop. */
  method Assemble(p: Pending) returns (r: Result<seq<byte>>)
    ensures r == Assembly(p)
  {
    if |p.chunks.Keys| != p.expected { return Err(IncompleteTransfer(|p.chunks.Keys|, p.expected)); }
    var apk := [];
    for i := 0 to p.expected
      invariant Joined(p.chunks, i) == Some(apk)
    {
      if i !in p.chunks {
        MissingChunk(p.chunks, i, p.expected);
        return Err(IncompleteTransfer(|p.chunks.Keys|, p.expected));
      }
      apk := apk + p.chunks[i];
    }
    if |apk| != p.manifest.apkSize { return Err(IncompleteTransfer(|apk|, p.manifest.apkSize)); }
    return Ok(apk);
  }

  lemma {:induction false} MissingChunk(chunks: map<nat, seq<byte>>, i: nat, n: nat)
    requires i !in chunks && i < n
    ensures Joined(chunks, n).None?
  {
    if i < n - 1 { MissingChunk(chunks, i, n - 1); }
  }
}
