/** The web of trust: endorsements, promotion, and why trust is grounded in the seeds. */
module Trust {
  import opened Bytes

  const TRUSTED_THRESHOLD: real := 0.7
  const ENDORSEMENT_DECAY: real := 0.5
  const GENESIS_TRUST: real := 0.8
  const UNKNOWN_TRUST: real := 0.0
  const REQUIRED_ENDORSEMENTS: nat := 3

  type Node = string
  type Scores = map<Node, real>

  datatype Endorsement = Endorsement(endorser: Node, endorsed: Node, timestamp: u64)

  type Endorsements = map<Node, seq<Endorsement>>

  datatype Refusal = SelfEndorsement | NotTrustedEnough | Duplicate | Unverified

  datatype Result = Ok(score: real) | Err(reason: Refusal)

  function Score(scores: Scores, n: Node): real {
    if n in scores then scores[n] else UNKNOWN_TRUST
  }

  predicate Trusted(scores: Scores, n: Node) {
    Score(scores, n) >= TRUSTED_THRESHOLD
  }

  function Clamp(x: real): real {
    if x < 0.0 then 0.0 else if x > 1.0 then 1.0 else x
  }

  /** The nearest score there is. */
  lemma ClampIsNearest(x: real, y: real)
    requires 0.0 <= y <= 1.0
    ensures 0.0 <= Clamp(x) <= 1.0
    ensures x <= y ==> x <= Clamp(x) <= y || Clamp(x) == 0.0
    ensures y <= x ==> y <= Clamp(x) <= x || Clamp(x) == 1.0
  {}

  /** The score of a node after its `count`-th endorsement. */
  function Raised(current: real, endorserScore: real, count: nat): real {
    var best := Gained(current, endorserScore);
    if count >= REQUIRED_ENDORSEMENTS && best < TRUSTED_THRESHOLD then TRUSTED_THRESHOLD else best
  }

  function Gained(current: real, endorserScore: real): real {
    if current < endorserScore * ENDORSEMENT_DECAY then endorserScore * ENDORSEMENT_DECAY else current
  }

  /** One endorsement lifts a score to half the endorser's, three to the threshold, and no further. */
  lemma RaisedIsLeast(current: real, endorserScore: real, count: nat, x: real)
    ensures Raised(current, endorserScore, count) <= x
            <==> current <= x && endorserScore / 2.0 <= x && (count >= 3 ==> 0.7 <= x)
  {}

  function ListOf(e: Endorsements, n: Node): seq<Endorsement> {
    if n in e then e[n] else []
  }

  predicate HasEndorser(list: seq<Endorsement>, n: Node) {
    exists i :: 0 <= i < |list| && list[i].endorser == n
  }

  function QualifiedCount(list: seq<Endorsement>, scores: Scores): (n: nat)
    ensures n <= |list|
  {
    if list == [] then 0
    else QualifiedCount(list[..|list| - 1], scores) + if Trusted(scores, list[|list| - 1].endorser) then 1 else 0
  }

  ghost predicate Qualifies(x: Endorsement, scores: Scores) {
    x.endorser in scores && scores[x.endorser] >= 0.7
  }

  lemma {:induction false} QualifiedIsCounted(list: seq<Endorsement>, scores: Scores)
    ensures QualifiedCount(list, scores) == |set i | 0 <= i < |list| && Qualifies(list[i], scores)|
  {
    if list != [] {
      var n := |list| - 1;
      QualifiedIsCounted(list[..n], scores);
      QualifyingNext(list, scores);
    }
  }

  lemma QualifyingNext(list: seq<Endorsement>, scores: Scores)
    requires list != []
    ensures var n := |list| - 1;
            |set i | 0 <= i < |list| && Qualifies(list[i], scores)|
            == |set i | 0 <= i < n && Qualifies(list[..n][i], scores)| + if Qualifies(list[n], scores) then 1 else 0
  {
    var n := |list| - 1;
    var before := set i | 0 <= i < n && Qualifies(list[..n][i], scores);
    var all := set i | 0 <= i < |list| && Qualifies(list[i], scores);
    assert all == before + if Qualifies(list[n], scores) then {n} else {};
  }

  lemma {:induction false} AllQualified(list: seq<Endorsement>, scores: Scores)
    requires forall i :: 0 <= i < |list| ==> Trusted(scores, list[i].endorser)
    ensures QualifiedCount(list, scores) == |list|
  {
    if list != [] { AllQualified(list[..|list| - 1], scores); }
  }

  // ---------------------------------------------------------------------------------------------
  // Groundedness
  // ---------------------------------------------------------------------------------------------

  ghost predicate ScoresOk(scores: Scores) {
    forall n :: n in scores ==> 0.0 <= scores[n] <= 1.0
  }

  /** Endorsers are distinct, trusted, and not the node itself. */
  ghost predicate ListOk(list: seq<Endorsement>, scores: Scores, n: Node) {
    && (forall i, j :: 0 <= i < j < |list| ==> list[i].endorser != list[j].endorser)
    && (forall i :: 0 <= i < |list| ==> Trusted(scores, list[i].endorser) && list[i].endorser != n)
  }

  ghost predicate ListsOk(e: Endorsements, scores: Scores) {
    forall n :: n in e ==> ListOk(e[n], scores, n)
  }

  /** The k-th promoted node has three distinct endorsers that are seeds or were promoted before it. */
  ghost predicate PromotedFairly(e: Endorsements, seeds: set<Node>, order: seq<Node>, k: nat)
    requires k < |order|
  {
    var list := ListOf(e, order[k]);
    |list| >= REQUIRED_ENDORSEMENTS &&
    forall i :: 0 <= i < REQUIRED_ENDORSEMENTS ==> list[i].endorser in seeds || list[i].endorser in order[..k]
  }

  /** The trusted nodes are the seeds and, in order of promotion, the others; and a node that is no seed
      is trusted exactly when it has the required endorsements. */
  ghost predicate Grounded(scores: Scores, e: Endorsements, seeds: set<Node>, order: seq<Node>) {
    && (forall n :: Trusted(scores, n) <==> n in seeds || n in order)
    && (forall k :: 0 <= k < |order| ==> PromotedFairly(e, seeds, order, k))
    && (forall n :: n !in seeds ==> (Trusted(scores, n) <==> |ListOf(e, n)| >= REQUIRED_ENDORSEMENTS))
  }

  lemma ListsExtend(e: Endorsements, scores: Scores, x: Endorsement)
    requires ListsOk(e, scores) && Trusted(scores, x.endorser) && x.endorser != x.endorsed
    requires !HasEndorser(ListOf(e, x.endorsed), x.endorser)
    ensures ListsOk(e[x.endorsed := ListOf(e, x.endorsed) + [x]], scores)
  {
    var list, e' := ListOf(e, x.endorsed), e[x.endorsed := ListOf(e, x.endorsed) + [x]];
    forall n | n in e' ensures ListOk(e'[n], scores, n) {
      if n == x.endorsed {
        assert x.endorsed in e ==> ListOk(list, scores, n);
      } else {
        assert ListOk(e[n], scores, n);
      }
    }
  }

  lemma ListsSurvive(e: Endorsements, scores: Scores, scores': Scores)
    requires ListsOk(e, scores) && forall n :: Trusted(scores, n) ==> Trusted(scores', n)
    ensures ListsOk(e, scores')
  {
    forall n | n in e ensures ListOk(e[n], scores', n) { assert ListOk(e[n], scores, n); }
  }

  lemma FairnessExtends(e: Endorsements, seeds: set<Node>, order: seq<Node>, x: Endorsement, k: nat)
    requires k < |order| && PromotedFairly(e, seeds, order, k)
    ensures PromotedFairly(e[x.endorsed := ListOf(e, x.endorsed) + [x]], seeds, order, k)
  {}

  /** Raising a score leaves every recorded endorser qualified. */
  lemma EveryEndorserCounts(e: Endorsements, scores: Scores, n: Node, raised: real)
    requires ListsOk(e, scores) && n in e && raised >= Score(scores, n)
    ensures QualifiedCount(e[n], scores[n := raised]) == |e[n]|
  {
    assert ListOk(e[n], scores, n);
    AllQualified(e[n], scores[n := raised]);
  }

  /** One accepted endorsement. `scores'` raises the endorsed node, to the threshold if this is its
      third endorsement. */
  lemma EndorsementKeepsGrounded(scores: Scores, scores': Scores, e: Endorsements, seeds: set<Node>, order: seq<Node>,
                                 x: Endorsement)
    requires Grounded(scores, e, seeds, order) && ListsOk(e, scores) && Trusted(scores, x.endorser)
    requires forall n :: n != x.endorsed ==> Score(scores', n) == Score(scores, n)
    requires Trusted(scores', x.endorsed) <==>
               Trusted(scores, x.endorsed) || |ListOf(e, x.endorsed)| + 1 >= REQUIRED_ENDORSEMENTS
    ensures var e' := e[x.endorsed := ListOf(e, x.endorsed) + [x]];
            var promoted := Trusted(scores', x.endorsed) && !Trusted(scores, x.endorsed);
            Grounded(scores', e', seeds, if promoted then order + [x.endorsed] else order)
  {
    var e' := e[x.endorsed := ListOf(e, x.endorsed) + [x]];
    var promoted := Trusted(scores', x.endorsed) && !Trusted(scores, x.endorsed);
    var order' := if promoted then order + [x.endorsed] else order;
    forall k | 0 <= k < |order'| ensures PromotedFairly(e', seeds, order', k) {
      if k < |order| {
        FairnessExtends(e, seeds, order, x, k);
        assert order'[..k] == order[..k];
      } else {
        assert order'[..k] == order;
        var list := ListOf(e, x.endorsed);
        assert x.endorsed in e ==> ListOk(list, scores, x.endorsed);
      }
    }
    forall n ensures Trusted(scores', n) <==> n in seeds || n in order' {
      assert n != x.endorsed ==> (n in order' <==> n in order);
    }
  }

  /** Every endorser counts, the new one included, so the third endorsement is what promotes. */
  lemma EndorsementCounts(scores: Scores, scores': Scores, e: Endorsements, x: Endorsement)
    requires ScoresOk(scores) && ListsOk(e, scores) && Trusted(scores, x.endorser) && x.endorser != x.endorsed
    requires !HasEndorser(ListOf(e, x.endorsed), x.endorser)
    requires forall n :: n != x.endorsed ==> Score(scores', n) == Score(scores, n)
    requires var best := Gained(Score(scores, x.endorsed), Score(scores, x.endorser));
             Score(scores', x.endorsed)
             == Raised(Score(scores, x.endorsed), Score(scores, x.endorser),
                       QualifiedCount(ListOf(e, x.endorsed) + [x], scores[x.endorsed := best]))
    ensures ListsOk(e[x.endorsed := ListOf(e, x.endorsed) + [x]], scores)
    ensures forall n :: Trusted(scores, n) ==> Trusted(scores', n)
    ensures Trusted(scores', x.endorsed) <==>
              Trusted(scores, x.endorsed) || |ListOf(e, x.endorsed)| + 1 >= REQUIRED_ENDORSEMENTS
  {
    ListsExtend(e, scores, x);
    EveryEndorserCounts(e[x.endorsed := ListOf(e, x.endorsed) + [x]], scores, x.endorsed,
                        Gained(Score(scores, x.endorsed), Score(scores, x.endorser)));
  }

  /** All that an accepted endorsement keeps, and whom it promotes. */
  lemma AcceptedKeepsGrounded(scores: Scores, scores': Scores, e: Endorsements, seeds: set<Node>, order: seq<Node>,
                              x: Endorsement)
    requires ScoresOk(scores) && ListsOk(e, scores) && Grounded(scores, e, seeds, order)
    requires Trusted(scores, x.endorser) && x.endorser != x.endorsed && !HasEndorser(ListOf(e, x.endorsed), x.endorser)
    requires forall n :: n != x.endorsed ==> Score(scores', n) == Score(scores, n)
    requires var best := Gained(Score(scores, x.endorsed), Score(scores, x.endorser));
             Score(scores', x.endorsed)
             == Raised(Score(scores, x.endorsed), Score(scores, x.endorser),
                       QualifiedCount(ListOf(e, x.endorsed) + [x], scores[x.endorsed := best]))
    ensures var e' := e[x.endorsed := ListOf(e, x.endorsed) + [x]];
            var promoted := Trusted(scores', x.endorsed) && !Trusted(scores, x.endorsed);
            && ListsOk(e', scores')
            && Grounded(scores', e', seeds, if promoted then order + [x.endorsed] else order)
            && (promoted <==> x.endorsed !in seeds && |ListOf(e, x.endorsed)| + 1 == REQUIRED_ENDORSEMENTS)
  {
    EndorsementCounts(scores, scores', e, x);
    ListsSurvive(e[x.endorsed := ListOf(e, x.endorsed) + [x]], scores, scores');
    EndorsementKeepsGrounded(scores, scores', e, seeds, order, x);
  }

  /** With at most two seeds nobody is ever promoted. */
  lemma TwoSeedsPromoteNobody(scores: Scores, e: Endorsements, seeds: set<Node>, order: seq<Node>)
    requires Grounded(scores, e, seeds, order) && ListsOk(e, scores) && |seeds| <= 2
    ensures order == [] && forall n :: Trusted(scores, n) <==> n in seeds
  {
    if order != [] {
      assert PromotedFairly(e, seeds, order, 0);
      var list := ListOf(e, order[0]);
      assert ListOk(list, scores, order[0]);
      var endorsers := [list[0].endorser, list[1].endorser, list[2].endorser];
      assert order[..0] == [];
      DistinctFits(endorsers, seeds);
      assert false;
    }
  }

  lemma NobodyPromotedYet(scores: Scores, seeds: set<Node>, order: seq<Node>)
    requires Grounded(scores, map[], seeds, order)
    ensures order == []
  {
    var none: Endorsements := map[];
    assert 0 < |order| ==> PromotedFairly(none, seeds, order, 0);
  }

  /** A score fixed by hand before any endorsement makes or unmakes a seed. */
  lemma HandKeepsGrounded(scores: Scores, seeds: set<Node>, n: Node, score: real)
    requires Grounded(scores, map[], seeds, [])
    ensures Grounded(scores[n := Clamp(score)], map[],
                     if score >= TRUSTED_THRESHOLD then seeds + {n} else seeds - {n}, [])
  {}

  class ReputationSystem {
    var scores: Scores
    var endorsements: Endorsements
    ghost var seeds: set<Node>
    ghost var order: seq<Node>
    /** No score was fixed by hand after the first endorsement. */
    ghost var pristine: bool

    ghost predicate Valid()
      reads this
    {
      && ScoresOk(scores)
      && (pristine ==> ListsOk(endorsements, scores) && Grounded(scores, endorsements, seeds, order))
    }

    constructor ()
      ensures Valid() && scores == map[] && endorsements == map[] && seeds == {} && order == [] && pristine
    {
      scores, endorsements, seeds, order, pristine := map[], map[], {}, [], true;
    }

    /** Fixing a score by hand; before any endorsement this decides who is a seed. */
    method SetTrusted(pubkey: Node, score: real)
      requires Valid()
      modifies this`scores, this`seeds, this`pristine
      ensures Valid() && pristine == (old(pristine) && endorsements == map[])
      ensures scores == old(scores)[pubkey := Clamp(score)]
      ensures seeds == if score >= TRUSTED_THRESHOLD then old(seeds) + {pubkey} else old(seeds) - {pubkey}
    {
      if pristine && endorsements == map[] {
        NobodyPromotedYet(scores, seeds, order);
        HandKeepsGrounded(scores, seeds, pubkey, score);
      }
      pristine := pristine && endorsements == map[];
      scores := scores[pubkey := Clamp(score)];
      seeds := if score >= TRUSTED_THRESHOLD then seeds + {pubkey} else seeds - {pubkey};
    }

    method Bootstrap(genesis: seq<Node>)
      requires Valid()
      modifies this`scores, this`seeds, this`pristine
      ensures Valid() && pristine == (old(pristine) && (endorsements == map[] || genesis == []))
      ensures forall n :: Score(scores, n) == if n in genesis then GENESIS_TRUST else Score(old(scores), n)
      ensures seeds == old(seeds) + set n | n in genesis
    {
      for i := 0 to |genesis|
        invariant Valid() && pristine == (old(pristine) && (endorsements == map[] || i == 0))
        invariant forall n :: Score(scores, n) == if n in genesis[..i] then GENESIS_TRUST else Score(old(scores), n)
        invariant seeds == old(seeds) + set n | n in genesis[..i]
      {
        SetTrusted(genesis[i], GENESIS_TRUST);
        assert genesis[..i + 1] == genesis[..i] + [genesis[i]];
      }
      assert genesis[..|genesis|] == genesis;
    }

    /** An endorsement counts exactly when it comes from another, trusted node for the first time. No
        score drops, only the endorsed node's may rise, and, with no score fixed by hand meanwhile, a node
        gains trust with its third. */
    method Endorse(endorser: Node, endorsed: Node, timestamp: u64) returns (r: Result)
      requires Valid()
      modifies this`scores, this`endorsements, this`order
      ensures Valid()
      ensures r.Ok? <==> endorser != endorsed && Trusted(old(scores), endorser)
                         && !HasEndorser(ListOf(old(endorsements), endorsed), endorser)
      ensures r == Err(SelfEndorsement) <==> endorser == endorsed
      ensures r == Err(NotTrustedEnough) <==> endorser != endorsed && !Trusted(old(scores), endorser)
      ensures r.Err? ==> scores == old(scores) && endorsements == old(endorsements) && order == old(order)
      ensures forall n :: Score(old(scores), n) <= Score(scores, n)
      ensures forall n :: n != endorsed ==> Score(scores, n) == Score(old(scores), n)
      ensures forall n :: n in old(endorsements) ==> n in endorsements && old(endorsements)[n] <= endorsements[n]
      ensures r == Err(Duplicate) <==>
                && endorser != endorsed && Trusted(old(scores), endorser) && endorsed in old(endorsements)
                && exists x :: x in old(endorsements)[endorsed] && x.endorser == endorser
      ensures r.Ok? ==>
                var list := ListOf(endorsements, endorsed);
                var best := Gained(Score(old(scores), endorsed), Score(old(scores), endorser));
                && endorsements == old(endorsements)[endorsed := ListOf(old(endorsements), endorsed)
                                                                 + [Endorsement(endorser, endorsed, timestamp)]]
                && r.score == Score(scores, endorsed)
                           == Raised(Score(old(scores), endorsed), Score(old(scores), endorser),
                                     QualifiedCount(list, old(scores)[endorsed := best]))
      ensures r.Ok? && pristine ==>
                (Trusted(scores, endorsed) && !Trusted(old(scores), endorsed)
                 <==> endorsed !in seeds && |ListOf(endorsements, endorsed)| == REQUIRED_ENDORSEMENTS)
    {
      if endorser == endorsed { return Err(SelfEndorsement); }
      if !Trusted(scores, endorser) { return Err(NotTrustedEnough); }
      var list := ListOf(endorsements, endorsed);
      if HasEndorser(list, endorser) { return Err(Duplicate); }
      var x := Endorsement(endorser, endorsed, timestamp);
      Add(x);
      return Ok(Score(scores, endorsed));
    }

    method Add(x: Endorsement)
      requires Valid() && x.endorser != x.endorsed && Trusted(scores, x.endorser)
      requires !HasEndorser(ListOf(endorsements, x.endorsed), x.endorser)
      modifies this`scores, this`endorsements, this`order
      ensures Valid()
      ensures endorsements == old(endorsements)[x.endorsed := ListOf(old(endorsements), x.endorsed) + [x]]
      ensures forall n :: n != x.endorsed ==> Score(scores, n) == Score(old(scores), n)
      ensures var best := Gained(Score(old(scores), x.endorsed), Score(old(scores), x.endorser));
              Score(scores, x.endorsed)
              == Raised(Score(old(scores), x.endorsed), Score(old(scores), x.endorser),
                        QualifiedCount(ListOf(endorsements, x.endorsed), old(scores)[x.endorsed := best]))
      ensures pristine ==> (Trusted(scores, x.endorsed) && !Trusted(old(scores), x.endorsed)
                            <==> x.endorsed !in seeds && |ListOf(endorsements, x.endorsed)| == REQUIRED_ENDORSEMENTS)
    {
      ghost var before, listed := scores, endorsements;
      endorsements := endorsements[x.endorsed := ListOf(endorsements, x.endorsed) + [x]];
      Raise(x);
      if pristine { AcceptedKeepsGrounded(before, scores, listed, seeds, order, x); }
      order := if Trusted(scores, x.endorsed) && !Trusted(before, x.endorsed) then order + [x.endorsed] else order;
    }

    /** The endorsed node's score, once the endorsement is listed. */
    method Raise(x: Endorsement)
      requires ScoresOk(scores) && x.endorsed in endorsements && Trusted(scores, x.endorser)
      modifies this`scores
      ensures ScoresOk(scores)
      ensures forall n :: n != x.endorsed ==> Score(scores, n) == Score(old(scores), n)
      ensures var best := Gained(Score(old(scores), x.endorsed), Score(old(scores), x.endorser));
              Score(scores, x.endorsed)
              == Raised(Score(old(scores), x.endorsed), Score(old(scores), x.endorser),
                        QualifiedCount(endorsements[x.endorsed], old(scores)[x.endorsed := best]))
    {
      var gained := Score(scores, x.endorser) * ENDORSEMENT_DECAY;
      var raised := if Score(scores, x.endorsed) < gained then gained else Score(scores, x.endorsed);
      scores := scores[x.endorsed := raised];
      var qualified := CountQualified(endorsements[x.endorsed]);
      if qualified >= REQUIRED_ENDORSEMENTS && raised < TRUSTED_THRESHOLD {
        scores := scores[x.endorsed := TRUSTED_THRESHOLD];
      }
    }

    method CountQualified(list: seq<Endorsement>) returns (n: nat)
      ensures n == QualifiedCount(list, scores)
    {
      n := 0;
      for i := 0 to |list|
        invariant n == QualifiedCount(list[..i], scores)
      {
        assert list[..i + 1][..i] == list[..i];
        if Trusted(scores, list[i].endorser) { n := n + 1; }
      }
      assert list[..|list|] == list;
    }

    method ApplyRemoteEndorsement(x: Endorsement, verified: bool) returns (r: Result)
      requires Valid()
      modifies this`scores, this`endorsements, this`order
      ensures Valid()
      ensures r.Ok? <==> verified && x.endorser != x.endorsed && Trusted(old(scores), x.endorser)
                         && !HasEndorser(ListOf(old(endorsements), x.endorsed), x.endorser)
      ensures r.Err? ==> scores == old(scores) && endorsements == old(endorsements) && order == old(order)
      ensures forall n :: Score(old(scores), n) <= Score(scores, n)
      ensures forall n :: n != x.endorsed ==> Score(scores, n) == Score(old(scores), n)
      ensures forall n :: n in old(endorsements) ==> n in endorsements && old(endorsements)[n] <= endorsements[n]
      ensures r.Ok? ==>
                var list := ListOf(endorsements, x.endorsed);
                var best := Gained(Score(old(scores), x.endorsed), Score(old(scores), x.endorser));
                && endorsements == old(endorsements)[x.endorsed := ListOf(old(endorsements), x.endorsed) + [x]]
                && r.score == Score(scores, x.endorsed)
                           == Raised(Score(old(scores), x.endorsed), Score(old(scores), x.endorser),
                                     QualifiedCount(list, old(scores)[x.endorsed := best]))
    {
      if !verified { return Err(Unverified); }
      r := Endorse(x.endorser, x.endorsed, x.timestamp);
    }
  }
}
