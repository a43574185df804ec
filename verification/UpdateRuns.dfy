/** Whole runs of the node's update handlers: only announced, signed and newer content is installed. */
module UpdateRuns {
  import opened Bytes
  import opened Update
  import opened UpdateReceiver

  /** An announcement the node accepted, with the evidence and the version current at that time. */
  datatype Acceptance = Acceptance(announcement: Announcement, data: seq<byte>, signature: seq<byte>,
                                   currentThen: Version)

  datatype Install = Install(version: Version, apk: seq<byte>)

  ghost predicate Genuine(c: Crypto, root: seq<byte>, a: Acceptance) {
    && ParseAnnouncement(a.data) == Some(a.announcement)
    && c.verify(root, a.data, a.signature)
    && Newer(a.announcement.version, a.currentThen)
  }

  ghost predicate AllGenuine(c: Crypto, root: seq<byte>, accepted: seq<Acceptance>) {
    forall i :: 0 <= i < |accepted| ==> Genuine(c, root, accepted[i])
  }

  ghost predicate Backed(accepted: seq<Acceptance>, version: Version, hash: seq<byte>) {
    exists i :: 0 <= i < |accepted| && accepted[i].announcement.version == version
                && accepted[i].announcement.apkSha256 == hash
  }

  /** What is under way was accepted and is newer than what runs. */
  ghost predicate Promised(accepted: seq<Acceptance>, current: Version, version: Version, hash: seq<byte>) {
    Backed(accepted, version, hash) && Newer(version, current)
  }

  ghost predicate InFlightOk(accepted: seq<Acceptance>, current: Version, announced: Option<Announcement>,
                             pending: Option<Pending>, verified: Option<Verified>) {
    && (announced.Some? ==> Promised(accepted, current, announced.value.version, announced.value.apkSha256))
    && (pending.Some? ==> Promised(accepted, current, pending.value.version, pending.value.manifest.apkHash))
    && (verified.Some? ==> Promised(accepted, current, verified.value.version, verified.value.apkSha256))
  }

  function VersionAfter(initial: Version, installs: seq<Install>): Version {
    if installs == [] then initial else installs[|installs| - 1].version
  }

  /** Every install raised the version and its content hashes to an accepted announcement. */
  ghost predicate InstallsOk(c: Crypto, accepted: seq<Acceptance>, initial: Version, installs: seq<Install>) {
    forall i :: 0 <= i < |installs| ==> InstallOk(c, accepted, initial, installs, i)
  }

  ghost predicate InstallOk(c: Crypto, accepted: seq<Acceptance>, initial: Version, installs: seq<Install>, i: nat)
    requires i < |installs|
  {
    && Newer(installs[i].version, VersionAfter(initial, installs[..i]))
    && Backed(accepted, installs[i].version, c.hash(installs[i].apk))
  }

  ghost predicate NoneAbove(installed: seq<InstalledUpdate>, current: Version) {
    VersionsAscend(installed) && forall i :: 0 <= i < |installed| ==> !Newer(installed[i].version, current)
  }

  lemma BackedStays(accepted: seq<Acceptance>, a: Acceptance, version: Version, hash: seq<byte>)
    requires Backed(accepted, version, hash)
    ensures Backed(accepted + [a], version, hash)
  {
    var i :| 0 <= i < |accepted| && accepted[i].announcement.version == version
             && accepted[i].announcement.apkSha256 == hash;
    assert (accepted + [a])[i] == accepted[i];
  }

  lemma AcceptanceAdded(c: Crypto, root: seq<byte>, accepted: seq<Acceptance>, a: Acceptance, current: Version,
                        announced: Option<Announcement>, pending: Option<Pending>, verified: Option<Verified>)
    requires AllGenuine(c, root, accepted) && Genuine(c, root, a) && a.currentThen == current
    requires InFlightOk(accepted, current, announced, pending, verified)
    ensures AllGenuine(c, root, accepted + [a])
    ensures InFlightOk(accepted + [a], current, Some(a.announcement), pending, verified)
  {
    assert (accepted + [a])[|accepted|] == a;
    if pending.Some? { BackedStays(accepted, a, pending.value.version, pending.value.manifest.apkHash); }
    if verified.Some? { BackedStays(accepted, a, verified.value.version, verified.value.apkSha256); }
  }

  lemma InstallsStayOk(c: Crypto, accepted: seq<Acceptance>, a: Acceptance, initial: Version, installs: seq<Install>)
    requires InstallsOk(c, accepted, initial, installs)
    ensures InstallsOk(c, accepted + [a], initial, installs)
  {
    forall i | 0 <= i < |installs| ensures InstallOk(c, accepted + [a], initial, installs, i) {
      assert InstallOk(c, accepted, initial, installs, i);
      BackedStays(accepted, a, installs[i].version, c.hash(installs[i].apk));
    }
  }

  lemma InstallAdded(c: Crypto, accepted: seq<Acceptance>, initial: Version, installs: seq<Install>, u: Install)
    requires InstallsOk(c, accepted, initial, installs)
    requires Promised(accepted, VersionAfter(initial, installs), u.version, c.hash(u.apk))
    ensures InstallsOk(c, accepted, initial, installs + [u])
  {
    var all := installs + [u];
    forall i | 0 <= i < |all| ensures InstallOk(c, accepted, initial, all, i) {
      if i < |installs| {
        assert InstallOk(c, accepted, initial, installs, i) && all[..i] == installs[..i];
      } else {
        assert all[..i] == installs;
      }
    }
  }

  lemma NewestGoesLast(installed: seq<InstalledUpdate>, current: Version, u: InstalledUpdate)
    requires NoneAbove(installed, current) && Newer(u.version, current)
    ensures SortByVersion(installed + [u]) == installed + [u]
    ensures NoneAbove(installed + [u], u.version)
  {
    SortedStays(installed + [u]);
  }

  /** Everything a run keeps. */
  ghost predicate Safe(c: Crypto, root: seq<byte>, accepted: seq<Acceptance>, initial: Version, installs: seq<Install>,
                       current: Version, announced: Option<Announcement>, pending: Option<Pending>,
                       verified: Option<Verified>, installed: seq<InstalledUpdate>) {
    && AllGenuine(c, root, accepted)
    && InFlightOk(accepted, current, announced, pending, verified)
    && InstallsOk(c, accepted, initial, installs)
    && current == VersionAfter(initial, installs)
    && NoneAbove(installed, current)
  }

  lemma CommitIsSafe(c: Crypto, root: seq<byte>, accepted: seq<Acceptance>, initial: Version, installs: seq<Install>,
                     current: Version, announced: Option<Announcement>, pending: Option<Pending>,
                     verified: Verified, installed: seq<InstalledUpdate>, apk: seq<byte>, at: u64)
    requires Safe(c, root, accepted, initial, installs, current, announced, pending, Some(verified), installed)
    requires c.hash(apk) == verified.apkSha256
    ensures var u := InstalledUpdate(verified.version, c.hash(apk), at);
            && SortByVersion(installed + [u]) == installed + [u]
            && Safe(c, root, accepted, initial, installs + [Install(u.version, apk)], u.version,
                    None, None, None, installed + [u])
    ensures Newer(verified.version, current)
  {
    NewestGoesLast(installed, current, InstalledUpdate(verified.version, c.hash(apk), at));
    InstallAdded(c, accepted, initial, installs, Install(verified.version, apk));
  }

  datatype Outcome =
    | Rejected
    | AnnouncementRequested
    | ManifestRequested
    | ChunkRequested(next: nat)
    | Installed(version: Version)

  class UpdateNode {
    const protocol: UpdateProtocol
    const initial: Version
    var pendingAnnouncement: Option<Announcement>
    ghost var accepted: seq<Acceptance>
    ghost var installs: seq<Install>

    ghost predicate Valid()
      reads this, protocol
    {
      && protocol.Valid()
      && Safe(protocol.crypto, protocol.root, accepted, initial, installs, protocol.current, pendingAnnouncement,
              protocol.pending, protocol.lastVerified, protocol.installed)
    }

    constructor (crypto: Crypto, root: seq<byte>, current: Version)
      ensures Valid() && fresh(protocol) && initial == current && installs == [] && accepted == []
      ensures protocol.crypto == crypto && protocol.root == root
    {
      protocol := new UpdateProtocol(crypto, root, current);
      initial, pendingAnnouncement := current, None;
      accepted, installs := [], [];
    }

    /** An announcement is accepted exactly when it is signed by the root and newer. */
    method OnUpdateAnnounce(data: seq<byte>, sig: seq<byte>) returns (outcome: Outcome)
      requires Valid()
      modifies this`pendingAnnouncement, this`accepted
      ensures Valid() && installs == old(installs)
      ensures var a := ParseAnnouncement(data);
              if a.Some? && protocol.crypto.verify(protocol.root, data, sig) && Newer(a.value.version, protocol.current)
              then outcome == AnnouncementRequested && pendingAnnouncement == a
                   && accepted == old(accepted) + [Acceptance(a.value, data, sig, protocol.current)]
              else outcome == Rejected && pendingAnnouncement == old(pendingAnnouncement) && accepted == old(accepted)
    {
      var r := protocol.HandleAnnouncement(data, sig);
      if r.Err? { return Rejected; }
      ghost var a := Acceptance(r.value, data, sig, protocol.current);
      AcceptanceAdded(protocol.crypto, protocol.root, accepted, a, protocol.current, pendingAnnouncement,
                      protocol.pending, protocol.lastVerified);
      InstallsStayOk(protocol.crypto, accepted, a, initial, installs);
      accepted := accepted + [a];
      pendingAnnouncement := Some(r.value);
      return AnnouncementRequested;
    }

    method OnUpdateManifest(data: seq<byte>, sig: seq<byte>, peer: string) returns (outcome: Outcome)
      requires Valid()
      modifies protocol`pending, protocol`lastVerified
      ensures Valid()
      ensures var m := VerifyManifest(protocol.crypto, protocol.root, data, sig);
              outcome == if pendingAnnouncement.Some? && m.Some? && Transferable(m.value, pendingAnnouncement.value)
                         then ManifestRequested else Rejected
      ensures outcome == ManifestRequested ==>
                protocol.pending.Some? && protocol.pending.value.chunks == map[]
                && protocol.pending.value.version == pendingAnnouncement.value.version
      ensures outcome == Rejected ==> protocol.pending == old(protocol.pending)
    {
      if pendingAnnouncement.None? { return Rejected; }
      var error := protocol.HandleManifest(pendingAnnouncement.value, data, sig, peer);
      return if error.Some? then Rejected else ManifestRequested;
    }

    /** A chunk is refused, or asks for the next, or completes the transfer. The version moves only with
        an install, and only up. */
    method OnUpdateChunk(index: nat, data: seq<byte>, written: bool, at: u64) returns (outcome: Outcome)
      requires Valid()
      modifies this`pendingAnnouncement, this`installs, protocol
      ensures Valid()
      ensures outcome.Installed? <==> installs != old(installs)
      ensures if outcome.Installed?
              then protocol.current == outcome.version && Newer(outcome.version, old(protocol.current))
              else protocol.current == old(protocol.current) && protocol.installed == old(protocol.installed)
      ensures old(protocol.pending).None? ==> outcome == Rejected
      ensures old(protocol.pending).Some? ==>
                match AcceptChunk(old(protocol.pending).value, index, data)
                case Err(_) => outcome == Rejected && protocol.pending == old(protocol.pending)
                case Ok(q) =>
                  if |q.chunks.Keys| < q.expected
                  then outcome == ChunkRequested(index + 1) && protocol.pending == Some(q)
                  else if Assembly(q).Ok? && protocol.crypto.hash(Assembly(q).value) == q.manifest.apkHash && written
                  then outcome == Installed(q.version)
                       && installs == old(installs) + [Install(q.version, Assembly(q).value)]
                  else outcome == Rejected
      ensures old(protocol.pending).Some? ==>
                match AcceptChunk(old(protocol.pending).value, index, data)
                case Err(_) => pendingAnnouncement == old(pendingAnnouncement)
                case Ok(q) =>
                  if |q.chunks.Keys| < q.expected then pendingAnnouncement == old(pendingAnnouncement)
                  else Finished(protocol.crypto, q, written, old(pendingAnnouncement),
                                pendingAnnouncement, protocol.pending)
    {
      var r := protocol.HandleChunk(index, data);
      if r.Err? { return Rejected; }
      if |protocol.pending.value.chunks.Keys| < protocol.pending.value.expected { return ChunkRequested(index + 1); }
      outcome := Finish(written, at);
    }

    /** The last chunk is in: assemble, verify and install. */
    method Finish(written: bool, at: u64) returns (outcome: Outcome)
      requires Valid() && protocol.pending.Some?
      modifies this`pendingAnnouncement, this`installs, protocol
      ensures Valid()
      ensures var p := old(protocol.pending).value;
              if Assembly(p).Ok? && protocol.crypto.hash(Assembly(p).value) == p.manifest.apkHash && written
              then outcome == Installed(p.version)
                   && installs == old(installs) + [Install(p.version, Assembly(p).value)]
              else outcome == Rejected && installs == old(installs)
      ensures Finished(protocol.crypto, old(protocol.pending).value, written, old(pendingAnnouncement),
                       pendingAnnouncement, protocol.pending)
      ensures if outcome.Installed?
              then protocol.current == outcome.version && Newer(outcome.version, old(protocol.current))
              else protocol.current == old(protocol.current) && protocol.installed == old(protocol.installed)
    {
      var apk := protocol.AssembleAndVerify();
      if apk.Err? {
        pendingAnnouncement := None;
        return Rejected;
      }
      outcome := Commit(apk.value, written, at);
    }

    method Commit(apk: seq<byte>, written: bool, at: u64) returns (outcome: Outcome)
      requires Valid() && protocol.lastVerified.Some?
               && protocol.crypto.hash(apk) == protocol.lastVerified.value.apkSha256
      modifies this`pendingAnnouncement, this`installs, protocol
      ensures Valid()
      ensures pendingAnnouncement == (if written then None else old(pendingAnnouncement))
      ensures protocol.pending == if written then None else old(protocol.pending)
      ensures if written
              then outcome == Installed(old(protocol.lastVerified).value.version)
                   && installs == old(installs) + [Install(outcome.version, apk)]
                   && protocol.current == outcome.version && Newer(outcome.version, old(protocol.current))
              else outcome == Rejected && installs == old(installs) && protocol.current == old(protocol.current)
                   && protocol.installed == old(protocol.installed)
    {
      ghost var before := protocol.installed;
      CommitIsSafe(protocol.crypto, protocol.root, accepted, initial, installs, protocol.current, pendingAnnouncement,
                   protocol.pending, protocol.lastVerified.value, before, apk, at);
      var u := protocol.InstallVerified(apk, written, at);
      if u.Err? { return Rejected; }
      assert protocol.installed == before + [u.value] && protocol.current == u.value.version;
      installs := installs + [Install(u.value.version, apk)];
      pendingAnnouncement := None;
      return Installed(u.value.version);
    }
  }

  /** What a finished transfer leaves: the chunks stay only if they do not make up the file, and the
      announcement stays only if the verified content could not be written. */
  ghost predicate Finished(c: Crypto, p: Pending, written: bool, announced: Option<Announcement>,
                           announced': Option<Announcement>, pending': Option<Pending>) {
    && announced' == (if Completes(c, p) && !written then announced else None)
    && pending' == (if Assembly(p).Ok? then None else Some(p))
  }

  /** The transfer is complete and its content is the announced one. */
  predicate Completes(c: Crypto, p: Pending) {
    Assembly(p).Ok? && c.hash(Assembly(p).value) == p.manifest.apkHash
  }

  /** When the signed hash is that of a file, feeding its chunks completes the transfer of it. */
  lemma TrueTransferCompletes(c: Crypto, p: Pending, apk: seq<byte>, order: seq<nat>)
    requires Carries(p, apk) && p.manifest.apkHash == c.hash(apk)
    requires forall k :: 0 <= k < |order| ==> order[k] < p.expected
    requires forall i :: 0 <= i < p.expected ==> i in order
    ensures var r := Feed(p, apk, order);
            r.Ok? && Completes(c, r.value) && Assembly(r.value) == Ok(apk)
  {
    TransferRoundTrip(p, apk, order);
    FeedNeverFails(p, apk, order);
  }

  /** Every install of a run was announced by the root with the hash of the very content installed, at a
      time when it was newer than what ran; and versions only rise. */
  lemma InstallsAreAuthorised(c: Crypto, root: seq<byte>, accepted: seq<Acceptance>, initial: Version,
                              installs: seq<Install>, i: nat)
    requires AllGenuine(c, root, accepted) && InstallsOk(c, accepted, initial, installs) && i < |installs|
    ensures exists a :: a in accepted && Genuine(c, root, a) && a.announcement.version == installs[i].version
                        && a.announcement.apkSha256 == c.hash(installs[i].apk)
    ensures forall j :: 0 <= j < i ==> Newer(installs[i].version, installs[j].version)
    ensures Newer(installs[i].version, initial)
  {
    assert InstallOk(c, accepted, initial, installs, i);
    var k :| 0 <= k < |accepted| && accepted[k].announcement.version == installs[i].version
             && accepted[k].announcement.apkSha256 == c.hash(installs[i].apk);
    assert accepted[k] in accepted;
    VersionsRise(c, accepted, initial, installs, i);
  }

  lemma {:induction false} VersionsRise(c: Crypto, accepted: seq<Acceptance>, initial: Version,
                                        installs: seq<Install>, i: nat)
    requires InstallsOk(c, accepted, initial, installs) && i < |installs|
    ensures forall j :: 0 <= j < i ==> Newer(installs[i].version, installs[j].version)
    ensures Newer(installs[i].version, initial)
  {
    assert InstallOk(c, accepted, initial, installs, i);
    if i > 0 { VersionsRise(c, accepted, initial, installs, i - 1); }
  }
}
