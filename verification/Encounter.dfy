/** Encounter search of the mesh simulator: the quadratic reference and its two spatial indexes.

    A profile lookup is folded into the position, so `rangeM` is `TECH_PROFILES[tech].range_m`.
    Floats are reals, so rounding is out of scope. */
module Encounter {
  import opened Bytes

  datatype Position = Position(nodeId: int, x: real, y: real, rangeM: real)

  type Pair = (int, int)
  type Cell = (int, int)

  function Max(a: real, b: real): real { if a >= b then a else b }

  predicate Hit(a: Position, b: Position) {
    var dx, dy, r := a.x - b.x, a.y - b.y, Max(a.rangeM, b.rangeM);
    dx * dx + dy * dy <= r * r
  }

  // ---------------------------------------------------------------------------------------------
  // What the searches return
  // ---------------------------------------------------------------------------------------------

  /** The indices below `n` that `i` meets and that come after it, in increasing order. */
  function Row(ps: seq<Position>, i: nat, n: nat): (row: seq<nat>)
    requires i < |ps| && n <= |ps|
    ensures forall k :: 0 <= k < |row| ==> i < row[k] < n
  {
    if n <= i + 1 then [] else Row(ps, i, n - 1) + if Hit(ps[i], ps[n - 1]) then [n - 1] else []
  }

  function Elements(s: seq<nat>): set<nat> { set k | k in s }

  lemma {:induction false} RowIsExact(ps: seq<Position>, i: nat, n: nat)
    requires i < |ps| && n <= |ps|
    ensures StrictlyIncreasing(Row(ps, i, n))
    ensures forall j :: j in Row(ps, i, n) <==> i < j < n && Hit(ps[i], ps[j])
  {
    if n > i + 1 {
      RowIsExact(ps, i, n - 1);
      var row := Row(ps, i, n - 1);
      assert row + [] == row;
    }
  }

  function Named(ps: seq<Position>, i: nat, row: seq<nat>): seq<Pair>
    requires i < |ps| && forall k :: 0 <= k < |row| ==> row[k] < |ps|
  {
    seq(|row|, k requires 0 <= k < |row| => (ps[i].nodeId, ps[row[k]].nodeId))
  }

  lemma NamedSnoc(ps: seq<Position>, i: nat, row: seq<nat>, j: nat)
    requires i < |ps| && j < |ps| && forall k :: 0 <= k < |row| ==> row[k] < |ps|
    ensures Named(ps, i, row + [j]) == Named(ps, i, row) + [(ps[i].nodeId, ps[j].nodeId)]
  {}

  /** The encounters whose first index is below `i`, ordered by first and then second index. */
  function EncountersBelow(ps: seq<Position>, i: nat): seq<Pair>
    requires i <= |ps|
  {
    if i == 0 then [] else EncountersBelow(ps, i - 1) + Named(ps, i - 1, Row(ps, i - 1, |ps|))
  }

  function Encounters(ps: seq<Position>): seq<Pair> { EncountersBelow(ps, |ps|) }

  ghost predicate StrictlyIncreasing(s: seq<nat>) {
    forall i, j :: 0 <= i < j < |s| ==> s[i] < s[j]
  }

  lemma ButLast(a: seq<nat>)
    requires a != [] && StrictlyIncreasing(a)
    ensures StrictlyIncreasing(a[..|a| - 1]) && Elements(a[..|a| - 1]) == Elements(a) - {a[|a| - 1]}
  {
    var a', x := a[..|a| - 1], a[|a| - 1];
    assert a == a' + [x];
    assert forall i :: 0 <= i < |a'| ==> a'[i] == a[i] < x;
  }

  /** Strictly increasing sequences are determined by their elements. */
  lemma {:induction false} StrictlyIncreasingUnique(a: seq<nat>, b: seq<nat>)
    requires StrictlyIncreasing(a) && StrictlyIncreasing(b) && Elements(a) == Elements(b)
    ensures a == b
  {
    assert |a| > 0 ==> a[0] in Elements(a);
    assert |b| > 0 ==> b[0] in Elements(b);
    if a != [] {
      var x, y := a[|a| - 1], b[|b| - 1];
      assert x in Elements(b) && y in Elements(a);
      assert x == y;
      ButLast(a);
      ButLast(b);
      StrictlyIncreasingUnique(a[..|a| - 1], b[..|b| - 1]);
      assert a == a[..|a| - 1] + [x] && b == b[..|b| - 1] + [x];
    }
  }

  /** `out` names the pairs of indices `at`, which are in order. */
  ghost predicate Listed(ps: seq<Position>, at: seq<(nat, nat)>, out: seq<Pair>) {
    && |at| == |out|
    && (forall k :: 0 <= k < |at| ==> at[k].0 < at[k].1 < |ps|)
    && (forall k :: 0 <= k < |at| ==> out[k] == (ps[at[k].0].nodeId, ps[at[k].1].nodeId))
    && forall k, l :: 0 <= k < l < |at| ==> at[k].0 < at[l].0 || (at[k].0 == at[l].0 && at[k].1 < at[l].1)
  }

  /** Every pair of positions that meet is reported once, the earlier node first, in the order of the two indices. */
  lemma EncountersExact(ps: seq<Position>) returns (at: seq<(nat, nat)>)
    ensures Listed(ps, at, Encounters(ps))
    ensures forall p: (nat, nat) :: p in at <==> p.0 < p.1 < |ps| && Hit(ps[p.0], ps[p.1])
  {
    at := ListedBelow(ps, |ps|);
    assert forall p: (nat, nat) :: p in at <==> Meets(ps, p, |ps|);
  }

  ghost predicate Meets(ps: seq<Position>, p: (nat, nat), n: nat) {
    p.0 < n && p.0 < p.1 < |ps| && Hit(ps[p.0], ps[p.1])
  }

  lemma {:induction false} ListedBelow(ps: seq<Position>, n: nat) returns (at: seq<(nat, nat)>)
    requires n <= |ps|
    ensures Listed(ps, at, EncountersBelow(ps, n))
    ensures forall p: (nat, nat) :: p in at <==> Meets(ps, p, n)
  {
    if n == 0 {
      at := [];
    } else {
      var before := ListedBelow(ps, n - 1);
      var next := ListedRow(ps, n - 1);
      at := before + next;
      assert forall p :: p in before ==> Meets(ps, p, n - 1);
      ListedJoin(ps, n - 1, before, EncountersBelow(ps, n - 1), next, Named(ps, n - 1, Row(ps, n - 1, |ps|)));
      forall p: (nat, nat) ensures p in at <==> Meets(ps, p, n) {
        assert p in at <==> p in before || p in next;
        assert Meets(ps, p, n) <==> Meets(ps, p, n - 1) || (p.0 == n - 1 && Meets(ps, p, n));
      }
    }
  }

  lemma ListedRow(ps: seq<Position>, i: nat) returns (at: seq<(nat, nat)>)
    requires i < |ps|
    ensures Listed(ps, at, Named(ps, i, Row(ps, i, |ps|)))
    ensures forall p: (nat, nat) :: p in at <==> p.0 == i && Meets(ps, p, i + 1)
  {
    var row := Row(ps, i, |ps|);
    RowIsExact(ps, i, |ps|);
    at := PairedWith(ps, i, row);
  }

  lemma PairedWith(ps: seq<Position>, i: nat, row: seq<nat>) returns (at: seq<(nat, nat)>)
    requires i < |ps| && StrictlyIncreasing(row) && forall k :: 0 <= k < |row| ==> i < row[k] < |ps|
    ensures Listed(ps, at, Named(ps, i, row))
    ensures forall p: (nat, nat) :: p in at <==> p.0 == i && p.1 in row
  {
    at := seq(|row|, k requires 0 <= k < |row| => (i, row[k]));
    forall p: (nat, nat) | p.0 == i && p.1 in row ensures p in at {
      var k :| 0 <= k < |row| && row[k] == p.1;
      assert at[k] == p;
    }
  }

  lemma ListedJoin(ps: seq<Position>, n: nat, at: seq<(nat, nat)>, out: seq<Pair>, at': seq<(nat, nat)>,
                   out': seq<Pair>)
    requires Listed(ps, at, out) && forall p :: p in at ==> p.0 < n
    requires Listed(ps, at', out') && forall p :: p in at' ==> p.0 == n
    ensures Listed(ps, at + at', out + out')
  {
    var all := at + at';
    forall k, l | 0 <= k < l < |all|
      ensures all[k].0 < all[l].0 || (all[k].0 == all[l].0 && all[k].1 < all[l].1)
    {
      if k < |at| <= l { assert all[k] in at && all[l] in at'; }
    }
  }

  /** Up to one position there is nothing to report. */
  lemma FewPositions(ps: seq<Position>)
    requires |ps| < 2
    ensures Encounters(ps) == []
  {
    if |ps| == 1 { assert EncountersBelow(ps, 0) == []; }
  }

  /** The pairs of `i` with later indices below `n`. */
  function PairsOf(ps: seq<Position>, i: nat, n: nat): seq<Pair>
    requires i < n <= |ps|
  {
    if n == i + 1 then []
    else PairsOf(ps, i, n - 1) + if Hit(ps[i], ps[n - 1]) then [(ps[i].nodeId, ps[n - 1].nodeId)] else []
  }

  lemma {:induction false} PairsOfIsNamed(ps: seq<Position>, i: nat, n: nat)
    requires i < n <= |ps|
    ensures PairsOf(ps, i, n) == Named(ps, i, Row(ps, i, n))
  {
    if n > i + 1 {
      var row := Row(ps, i, n - 1);
      PairsOfIsNamed(ps, i, n - 1);
      NamedSnoc(ps, i, row, n - 1);
      assert row + [] == row;
    }
  }

  lemma NextRow(ps: seq<Position>, i: nat)
    requires i < |ps|
    ensures EncountersBelow(ps, i + 1) == EncountersBelow(ps, i) + PairsOf(ps, i, |ps|)
  {
    PairsOfIsNamed(ps, i, |ps|);
  }

  // ---------------------------------------------------------------------------------------------
  // What an encounter is
  // ---------------------------------------------------------------------------------------------

  /** Two positions on a horizontal line meet when they are no farther apart than one of their ranges. */
  lemma HitOnALine(a: Position, b: Position)
    requires a.y == b.y && a.rangeM >= 0.0 && b.rangeM >= 0.0
    ensures Hit(a, b) <==> -a.rangeM <= a.x - b.x <= a.rangeM || -b.rangeM <= a.x - b.x <= b.rangeM
  {
    SquareBounds(a.x - b.x, Max(a.rangeM, b.rangeM));
  }

  lemma SquareBounds(d: real, r: real)
    requires r >= 0.0
    ensures d * d <= r * r <==> -r <= d <= r
  {
    assert (r - d) * (r + d) == r * r - d * d;
    if d > r { Beyond(d, d - r, r); }
    if d < -r { Beyond(-d, -d - r, r); }
  }

  lemma Beyond(d: real, e: real, r: real)
    requires e > 0.0 && r >= 0.0 && d == r + e
    ensures d * d > r * r
  {
    assert d * d == r * r + 2.0 * (r * e) + e * e;
    assert r * e >= 0.0 && e * e > 0.0;
  }

  /** The plane turned about the origin, by the angle with cosine `c` and sine `s`. */
  function Turned(p: Position, c: real, s: real): Position {
    p.(x := c * p.x - s * p.y, y := s * p.x + c * p.y)
  }

  function Shifted(p: Position, dx: real, dy: real): Position {
    p.(x := p.x + dx, y := p.y + dy)
  }

  function AllTurned(ps: seq<Position>, c: real, s: real): seq<Position> {
    seq(|ps|, i requires 0 <= i < |ps| => Turned(ps[i], c, s))
  }

  function AllShifted(ps: seq<Position>, dx: real, dy: real): seq<Position> {
    seq(|ps|, i requires 0 <= i < |ps| => Shifted(ps[i], dx, dy))
  }

  lemma TurningKeepsSquares(dx: real, dy: real, c: real, s: real)
    requires c * c + s * s == 1.0
    ensures var ex, ey := c * dx - s * dy, s * dx + c * dy; ex * ex + ey * ey == dx * dx + dy * dy
  {
    var ex, ey := c * dx - s * dy, s * dx + c * dy;
    Square(c * dx, -(s * dy));
    Square(s * dx, c * dy);
    Regroup(c, s, dx, dy);
    assert ex * ex + ey * ey == (c * c + s * s) * (dx * dx) + (c * c + s * s) * (dy * dy);
  }

  lemma Square(u: real, v: real)
    ensures (u + v) * (u + v) == u * u + 2.0 * (u * v) + v * v
  {}

  lemma Regroup(c: real, s: real, dx: real, dy: real)
    ensures (c * dx) * (c * dx) == (c * c) * (dx * dx) && (s * dx) * (s * dx) == (s * s) * (dx * dx)
    ensures (c * dy) * (c * dy) == (c * c) * (dy * dy) && (-(s * dy)) * (-(s * dy)) == (s * s) * (dy * dy)
    ensures (c * dx) * (-(s * dy)) + (s * dx) * (c * dy) == 0.0
    ensures (c * c) * (dx * dx) + (s * s) * (dx * dx) == (c * c + s * s) * (dx * dx)
    ensures (c * c) * (dy * dy) + (s * s) * (dy * dy) == (c * c + s * s) * (dy * dy)
  {}

  lemma TurningKeepsHit(a: Position, b: Position, c: real, s: real)
    requires c * c + s * s == 1.0
    ensures Hit(Turned(a, c, s), Turned(b, c, s)) == Hit(a, b)
  {
    var dx, dy := a.x - b.x, a.y - b.y;
    var a', b' := Turned(a, c, s), Turned(b, c, s);
    Differences(c, a.x, b.x);
    Differences(s, a.y, b.y);
    Differences(s, a.x, b.x);
    Differences(c, a.y, b.y);
    assert a'.x - b'.x == c * dx - s * dy && a'.y - b'.y == s * dx + c * dy;
    TurningKeepsSquares(dx, dy, c, s);
  }

  lemma Differences(k: real, u: real, v: real)
    ensures k * u - k * v == k * (u - v)
  {}

  /** Turning or shifting the plane changes no encounter. */
  lemma TurningKeepsEncounters(ps: seq<Position>, c: real, s: real)
    requires c * c + s * s == 1.0
    ensures Encounters(AllTurned(ps, c, s)) == Encounters(ps)
  {
    forall i, j | 0 <= i < |ps| && 0 <= j < |ps|
      ensures Hit(AllTurned(ps, c, s)[i], AllTurned(ps, c, s)[j]) == Hit(ps[i], ps[j])
    {
      TurningKeepsHit(ps[i], ps[j], c, s);
    }
    SameHits(ps, AllTurned(ps, c, s));
  }

  lemma ShiftingKeepsEncounters(ps: seq<Position>, dx: real, dy: real)
    ensures Encounters(AllShifted(ps, dx, dy)) == Encounters(ps)
  {
    forall i, j | 0 <= i < |ps| && 0 <= j < |ps|
      ensures Hit(AllShifted(ps, dx, dy)[i], AllShifted(ps, dx, dy)[j]) == Hit(ps[i], ps[j])
    {
      ShiftingKeepsHit(ps[i], ps[j], dx, dy);
    }
    SameHits(ps, AllShifted(ps, dx, dy));
  }

  lemma ShiftingKeepsHit(a: Position, b: Position, dx: real, dy: real)
    ensures Hit(Shifted(a, dx, dy), Shifted(b, dx, dy)) == Hit(a, b)
  {
    assert Shifted(a, dx, dy).x - Shifted(b, dx, dy).x == a.x - b.x;
    assert Shifted(a, dx, dy).y - Shifted(b, dx, dy).y == a.y - b.y;
  }

  ghost predicate HitAlike(ps: seq<Position>, qs: seq<Position>) {
    && |qs| == |ps| && (forall i :: 0 <= i < |ps| ==> qs[i].nodeId == ps[i].nodeId)
    && forall i, j :: 0 <= i < |ps| && 0 <= j < |ps| ==> Hit(qs[i], qs[j]) == Hit(ps[i], ps[j])
  }

  lemma {:induction false} SameRow(ps: seq<Position>, qs: seq<Position>, i: nat, n: nat)
    requires HitAlike(ps, qs) && i < |ps| && n <= |ps|
    ensures Row(qs, i, n) == Row(ps, i, n)
  {
    if n > i + 1 { SameRow(ps, qs, i, n - 1); }
  }

  lemma SameHits(ps: seq<Position>, qs: seq<Position>)
    requires HitAlike(ps, qs)
    ensures Encounters(qs) == Encounters(ps)
  {
    forall i | 0 <= i < |ps| ensures Named(qs, i, Row(qs, i, |qs|)) == Named(ps, i, Row(ps, i, |ps|)) {
      SameRow(ps, qs, i, |ps|);
      SameNames(ps, qs, i, Row(ps, i, |ps|));
    }
    SameLists(ps, qs, |ps|);
  }

  lemma {:induction false} SameLists(ps: seq<Position>, qs: seq<Position>, n: nat)
    requires n <= |ps| == |qs|
    requires forall i :: 0 <= i < |ps| ==> Named(qs, i, Row(qs, i, |qs|)) == Named(ps, i, Row(ps, i, |ps|))
    ensures EncountersBelow(qs, n) == EncountersBelow(ps, n)
  {
    if n > 0 { SameLists(ps, qs, n - 1); }
  }

  lemma SameNames(ps: seq<Position>, qs: seq<Position>, i: nat, row: seq<nat>)
    requires |qs| == |ps| && forall k :: 0 <= k < |ps| ==> qs[k].nodeId == ps[k].nodeId
    requires i < |ps| && forall k :: 0 <= k < |row| ==> row[k] < |ps|
    ensures Named(qs, i, row) == Named(ps, i, row)
  {}

  /** The reference double loop (`_encounter_pairs_naive`). */
  method EncounterPairsNaive(ps: seq<Position>) returns (pairs: seq<Pair>)
    ensures pairs == Encounters(ps)
  {
    pairs := [];
    for i := 0 to |ps|
      invariant pairs == EncountersBelow(ps, i)
    {
      pairs := NaiveRow(ps, i, pairs);
      NextRow(ps, i);
    }
  }

  /** Its inner loop. */
  method NaiveRow(ps: seq<Position>, i: nat, before: seq<Pair>) returns (pairs: seq<Pair>)
    requires i < |ps|
    ensures pairs == before + PairsOf(ps, i, |ps|)
  {
    pairs := before;
    for j := i + 1 to |ps|
      invariant pairs == before + PairsOf(ps, i, j)
    {
      if Hit(ps[i], ps[j]) { pairs := pairs + [(ps[i].nodeId, ps[j].nodeId)]; }
    }
  }

  // ---------------------------------------------------------------------------------------------
  // Why a window of nine cells is enough
  // ---------------------------------------------------------------------------------------------

  function CellOf(p: Position, size: real): Cell
    requires size > 0.0
  {
    ((p.x / size).Floor, (p.y / size).Floor)
  }

  predicate Adjacent(a: Cell, b: Cell) {
    -1 <= a.0 - b.0 <= 1 && -1 <= a.1 - b.1 <= 1
  }

  lemma FloorsAdjacent(a: real, b: real, size: real)
    requires size > 0.0 && (a - b) * (a - b) <= size * size
    ensures -1 <= (a / size).Floor - (b / size).Floor <= 1
  {
    var qa, qb := a / size, b / size;
    assert a == qa * size && b == qb * size;
    assert (b - a) * (b - a) == (a - b) * (a - b);
    if qa - qb > 1.0 { Magnified(a - b, qa - qb, size); }
    if qb - qa > 1.0 { Magnified(b - a, qb - qa, size); }
  }

  lemma Magnified(d: real, q: real, size: real)
    requires q > 1.0 && size > 0.0 && d == q * size
    ensures d * d > size * size
  {
    assert d - size == (q - 1.0) * size > 0.0;
    var u, v := d - size, d + size;
    assert u > 0.0 && v > 0.0 && u * v > 0.0;
    assert u * v == d * d - size * size;
  }

  /** Positions that meet lie in adjacent cells of every grid at least as coarse as their range. */
  lemma HitsAreAdjacent(a: Position, b: Position, size: real)
    requires size > 0.0 && Hit(a, b)
    requires Max(a.rangeM, b.rangeM) * Max(a.rangeM, b.rangeM) <= size * size
    ensures Adjacent(CellOf(a, size), CellOf(b, size))
  {
    var dx, dy := a.x - b.x, a.y - b.y;
    assert dx * dx >= 0.0 && dy * dy >= 0.0;
    FloorsAdjacent(a.x, b.x, size);
    FloorsAdjacent(a.y, b.y, size);
  }

  // ---------------------------------------------------------------------------------------------
  // Sorting of candidates
  // ---------------------------------------------------------------------------------------------

  function Insert(x: nat, s: seq<nat>): (r: seq<nat>)
    requires StrictlyIncreasing(s) && x !in s
    ensures StrictlyIncreasing(r) && Elements(r) == Elements(s) + {x}
  {
    if s == [] then [x]
    else if x < s[0] then [x] + s
    else
      var t := Insert(x, s[1..]);
      InsertAfterFirst(x, s, t);
      [s[0]] + t
  }

  lemma InsertAfterFirst(x: nat, s: seq<nat>, t: seq<nat>)
    requires StrictlyIncreasing(s) && s != [] && x > s[0]
    requires StrictlyIncreasing(t) && Elements(t) == Elements(s[1..]) + {x}
    ensures StrictlyIncreasing([s[0]] + t) && Elements([s[0]] + t) == Elements(s) + {x}
  {
    forall k | 0 <= k < |t| ensures s[0] < t[k] {
      assert t[k] in Elements(t);
    }
    assert s == [s[0]] + s[1..];
    assert Elements(s) == {s[0]} + Elements(s[1..]);
    assert Elements([s[0]] + t) == {s[0]} + Elements(t);
  }

  /** `list.sort` on a list without duplicates. */
  method SortList(s: seq<nat>) returns (r: seq<nat>)
    requires Distinct(s)
    ensures StrictlyIncreasing(r) && Elements(r) == Elements(s)
  {
    r := [];
    for i := 0 to |s|
      invariant StrictlyIncreasing(r) && Elements(r) == Elements(s[..i])
    {
      assert s[..i + 1] == s[..i] + [s[i]];
      assert s[i] !in s[..i];
      assert s[i] !in Elements(r);
      r := Insert(s[i], r);
      assert Elements(s[..i + 1]) == Elements(s[..i]) + {s[i]};
    }
    assert s[..|s|] == s;
  }

  /** `sorted` on a set, whatever order the set is iterated in. */
  method SortSet(s: set<nat>) returns (r: seq<nat>)
    ensures StrictlyIncreasing(r) && Elements(r) == s
  {
    r := [];
    var todo := s;
    while todo != {}
      invariant todo <= s && StrictlyIncreasing(r) && Elements(r) == s - todo
      decreases |todo|
    {
      var k :| k in todo;
      assert k !in Elements(r);
      r := Insert(k, r);
      todo := todo - {k};
    }
  }

  // ---------------------------------------------------------------------------------------------
  // The final filter, shared by both indexes
  // ---------------------------------------------------------------------------------------------

  /** The candidates include every index the reference would report. */
  ghost predicate Covers(ps: seq<Position>, i: nat, cands: seq<nat>)
    requires i < |ps|
  {
    forall j :: i < j < |ps| && Hit(ps[i], ps[j]) ==> j in cands
  }

  lemma RowIsDetermined(ps: seq<Position>, i: nat, cands: seq<nat>, row: seq<nat>)
    requires i < |ps| && Covers(ps, i, cands) && StrictlyIncreasing(row)
    requires forall n :: 0 <= n < |row| ==> i < row[n] < |ps| && Hit(ps[i], ps[row[n]])
    requires forall n :: 0 <= n < |cands| && i < cands[n] < |ps| && Hit(ps[i], ps[cands[n]]) ==> cands[n] in row
    ensures row == Row(ps, i, |ps|)
  {
    var exact := Row(ps, i, |ps|);
    RowIsExact(ps, i, |ps|);
    forall j | j in exact ensures j in row { assert j in cands; }
    assert Elements(row) == Elements(exact);
    StrictlyIncreasingUnique(row, exact);
  }

  /** Filtering sorted candidates by distance gives the reference row, provided they cover it. */
  method FilterRow(ps: seq<Position>, i: nat, cands: seq<nat>) returns (pairs: seq<Pair>)
    requires i < |ps| && StrictlyIncreasing(cands)
    requires forall k :: 0 <= k < |cands| ==> i < cands[k] < |ps|
    ensures Covers(ps, i, cands) ==> pairs == Named(ps, i, Row(ps, i, |ps|))
  {
    pairs := [];
    ghost var row: seq<nat> := [];
    for k := 0 to |cands|
      invariant StrictlyIncreasing(row) && forall n :: 0 <= n < |row| ==> i < row[n] < |ps| && Hit(ps[i], ps[row[n]])
      invariant row != [] ==> k > 0 && row[|row| - 1] <= cands[k - 1]
      invariant forall n :: 0 <= n < k && Hit(ps[i], ps[cands[n]]) ==> cands[n] in row
      invariant pairs == Named(ps, i, row)
    {
      var j := cands[k];
      if Hit(ps[i], ps[j]) {
        NamedSnoc(ps, i, row, j);
        pairs := pairs + [(ps[i].nodeId, ps[j].nodeId)];
        row := row + [j];
      }
    }
    if Covers(ps, i, cands) { RowIsDetermined(ps, i, cands, row); }
  }

  // ---------------------------------------------------------------------------------------------
  // One grid
  // ---------------------------------------------------------------------------------------------

  ghost predicate IsMaxRange(ps: seq<Position>, size: real) {
    (exists i :: 0 <= i < |ps| && ps[i].rangeM == size) && forall i :: 0 <= i < |ps| ==> ps[i].rangeM <= size
  }

  method MaxRange(ps: seq<Position>) returns (size: real)
    requires ps != []
    ensures IsMaxRange(ps, size)
  {
    size := ps[0].rangeM;
    for i := 1 to |ps|
      invariant exists k :: 0 <= k < i && ps[k].rangeM == size
      invariant forall k :: 0 <= k < i ==> ps[k].rangeM <= size
    {
      if ps[i].rangeM > size { size := ps[i].rangeM; }
    }
  }

  function Bucket(cells: map<Cell, seq<nat>>, c: Cell): seq<nat> {
    if c in cells then cells[c] else []
  }

  /** Every bucket lists, in increasing order, exactly the positions below `n` in its cell. */
  ghost predicate IsGrid(ps: seq<Position>, size: real, cells: map<Cell, seq<nat>>, n: nat)
    requires size > 0.0 && n <= |ps|
  {
    forall c :: IsBucket(ps, size, c, Bucket(cells, c), n)
  }

  ghost predicate IsBucket(ps: seq<Position>, size: real, c: Cell, bucket: seq<nat>, n: nat)
    requires size > 0.0 && n <= |ps|
  {
    StrictlyIncreasing(bucket) && forall k :: k in bucket <==> 0 <= k < n && CellOf(ps[k], size) == c
  }

  lemma AddToBucket(ps: seq<Position>, size: real, c: Cell, bucket: seq<nat>, i: nat)
    requires size > 0.0 && i < |ps| && IsBucket(ps, size, c, bucket, i)
    ensures IsBucket(ps, size, c, if CellOf(ps[i], size) == c then bucket + [i] else bucket, i + 1)
  {
    assert forall n :: 0 <= n < |bucket| ==> bucket[n] in bucket;
  }

  method BuildGrid(ps: seq<Position>, size: real) returns (cells: map<Cell, seq<nat>>, cellOf: seq<Cell>)
    requires size > 0.0
    ensures IsGrid(ps, size, cells, |ps|)
    ensures |cellOf| == |ps| && forall i :: 0 <= i < |ps| ==> cellOf[i] == CellOf(ps[i], size)
  {
    cells, cellOf := map[], [];
    for i := 0 to |ps|
      invariant IsGrid(ps, size, cells, i)
      invariant |cellOf| == i && forall k :: 0 <= k < i ==> cellOf[k] == CellOf(ps[k], size)
    {
      var c := CellOf(ps[i], size);
      cellOf := cellOf + [c];
      ghost var before := cells;
      assert [] + [i] == [i];
      if c !in cells {
        cells := cells[c := [i]];
      } else {
        cells := cells[c := cells[c] + [i]];
      }
      GridGrows(ps, size, before, cells, c, i);
    }
  }

  lemma GridGrows(ps: seq<Position>, size: real, before: map<Cell, seq<nat>>, cells: map<Cell, seq<nat>>, c: Cell,
                  i: nat)
    requires size > 0.0 && i < |ps| && IsGrid(ps, size, before, i) && c == CellOf(ps[i], size)
    requires cells == before[c := Bucket(before, c) + [i]]
    ensures IsGrid(ps, size, cells, i + 1)
  {
    forall d ensures IsBucket(ps, size, d, Bucket(cells, d), i + 1) {
      assert IsBucket(ps, size, d, Bucket(before, d), i);
      AddToBucket(ps, size, d, Bucket(before, d), i);
    }
  }

  function Above(s: seq<nat>, i: nat): set<nat> { set k | k in s && k > i }

  /** The members of `bucket` above `i`, after the candidates found so far. */
  method AppendAbove(cands: seq<nat>, bucket: seq<nat>, i: nat) returns (out: seq<nat>)
    requires Distinct(cands) && StrictlyIncreasing(bucket)
    requires forall k :: k in cands ==> k !in bucket
    ensures Distinct(out) && Elements(out) == Elements(cands) + Above(bucket, i)
  {
    out := cands;
    assert bucket[..|bucket|] == bucket;
    for n := 0 to |bucket|
      invariant Distinct(out) && Elements(out) == Elements(cands) + Above(bucket[..n], i)
    {
      var j := bucket[n];
      assert bucket[..n + 1] == bucket[..n] + [j];
      assert j !in bucket[..n];
      if j > i {
        assert j in bucket && j !in Elements(out);
        assert Elements(out + [j]) == Elements(out) + {j};
        out := out + [j];
      }
      assert Above(bucket[..n + 1], i) == Above(bucket[..n], i) + if j > i then {j} else {};
    }
  }

  /** `o` comes before `p` in the order the nine offsets are visited. */
  predicate Before(o: Cell, p: Cell) { o.0 < p.0 || (o.0 == p.0 && o.1 < p.1) }

  /** The positions after `i` in the window cells around `centre` visited before offset `stop`. */
  ghost function Window(ps: seq<Position>, size: real, centre: Cell, i: nat, stop: Cell): set<nat>
    requires size > 0.0
  {
    set k | 0 <= k < |ps| && k > i && Adjacent(CellOf(ps[k], size), centre)
            && Before((CellOf(ps[k], size).0 - centre.0, CellOf(ps[k], size).1 - centre.1), stop)
  }

  method GatherWindow(ps: seq<Position>, size: real, cells: map<Cell, seq<nat>>, centre: Cell, i: nat)
    returns (cands: seq<nat>)
    requires size > 0.0 && IsGrid(ps, size, cells, |ps|)
    ensures Distinct(cands) && Elements(cands) == Window(ps, size, centre, i, (2, -1))
  {
    cands := [];
    for ox := -1 to 2
      invariant Distinct(cands) && Elements(cands) == Window(ps, size, centre, i, (ox, -1))
    {
      for oy := -1 to 2
        invariant Distinct(cands) && Elements(cands) == Window(ps, size, centre, i, (ox, oy))
      {
        var c := (centre.0 + ox, centre.1 + oy);
        ghost var bucket := Bucket(cells, c);
        assert IsBucket(ps, size, c, bucket, |ps|);
        assert Window(ps, size, centre, i, (ox, oy + 1))
            == Window(ps, size, centre, i, (ox, oy)) + Above(bucket, i);
        forall k | k in cands ensures k !in bucket { assert k in Elements(cands); }
        if c in cells {
          cands := AppendAbove(cands, cells[c], i);
        } else {
          assert Elements(cands) + Above(bucket, i) == Elements(cands);
        }
      }
      assert Window(ps, size, centre, i, (ox, 2)) == Window(ps, size, centre, i, (ox + 1, -1));
    }
  }

  /** No range is below the negated cell size, as is the case when every range is positive. */
  ghost predicate RangesWithinCell(ps: seq<Position>) {
    forall i, size :: 0 <= i < |ps| && IsMaxRange(ps, size) && size > 0.0 ==> -size <= ps[i].rangeM
  }

  /** `_encounter_pairs_bucketed`. */
  method EncounterPairsBucketed(ps: seq<Position>) returns (pairs: seq<Pair>)
    ensures RangesWithinCell(ps) ==> pairs == Encounters(ps)
  {
    if |ps| < 2 {
      FewPositions(ps);
      return [];
    }
    var size := MaxRange(ps);
    if size <= 0.0 {
      pairs := EncounterPairsNaive(ps);
      return;
    }
    var cells, cellOf := BuildGrid(ps, size);
    pairs := BucketedRows(ps, size, cells, cellOf);
  }

  /** No range exceeds the cell side in size. */
  ghost predicate InReach(ps: seq<Position>, size: real) {
    forall k :: 0 <= k < |ps| ==> -size <= ps[k].rangeM <= size
  }

  method BucketedRows(ps: seq<Position>, size: real, cells: map<Cell, seq<nat>>, cellOf: seq<Cell>)
    returns (pairs: seq<Pair>)
    requires size > 0.0 && IsGrid(ps, size, cells, |ps|)
    requires |cellOf| == |ps| && forall k :: 0 <= k < |ps| ==> cellOf[k] == CellOf(ps[k], size)
    ensures InReach(ps, size) ==> pairs == Encounters(ps)
  {
    pairs := [];
    ghost var within := InReach(ps, size);
    for i := 0 to |ps|
      invariant within ==> pairs == EncountersBelow(ps, i)
    {
      var row := BucketedRow(ps, size, cells, cellOf[i], i);
      NextRow(ps, i);
      pairs := pairs + row;
    }
  }

  method BucketedRow(ps: seq<Position>, size: real, cells: map<Cell, seq<nat>>, c: Cell, i: nat)
    returns (row: seq<Pair>)
    requires i < |ps| && size > 0.0 && c == CellOf(ps[i], size) && IsGrid(ps, size, cells, |ps|)
    ensures InReach(ps, size) ==> row == PairsOf(ps, i, |ps|)
  {
    PairsOfIsNamed(ps, i, |ps|);
    var cands := GatherWindow(ps, size, cells, c, i);
    cands := SortList(cands);
    WindowSuffices(ps, size, i, cands);
    row := FilterRow(ps, i, cands);
  }

  lemma WindowSuffices(ps: seq<Position>, size: real, i: nat, cands: seq<nat>)
    requires i < |ps| && size > 0.0
    requires Elements(cands) == Window(ps, size, CellOf(ps[i], size), i, (2, -1))
    ensures forall k :: 0 <= k < |cands| ==> i < cands[k] < |ps|
    ensures InReach(ps, size) ==> Covers(ps, i, cands)
  {
    forall k | 0 <= k < |cands| ensures i < cands[k] < |ps| { assert cands[k] in Elements(cands); }
    forall j | i < j < |ps| && Hit(ps[i], ps[j]) && InReach(ps, size) ensures j in cands {
      SquareMonotone(Max(ps[i].rangeM, ps[j].rangeM), size);
      HitsAreAdjacent(ps[i], ps[j], size);
      assert j in Elements(cands);
    }
  }

  lemma SquareMonotone(r: real, size: real)
    requires -size <= r <= size
    ensures r * r <= size * size
  {
    assert (size - r) * (size + r) >= 0.0;
    assert (size - r) * (size + r) == size * size - r * r;
  }

  // ---------------------------------------------------------------------------------------------
  // One grid per range
  // ---------------------------------------------------------------------------------------------

  /** A cell of a tier grid: the positions in it, by their own range. */
  type TierCell = map<real, seq<nat>>
  type TierGrid = map<Cell, TierCell>

  function TierBucket(cell: TierCell, r: real): seq<nat> { if r in cell then cell[r] else [] }

  function CellAt(grid: TierGrid, c: Cell): TierCell { if c in grid then grid[c] else map[] }

  ghost predicate IsTierBucket(ps: seq<Position>, size: real, c: Cell, r: real, bucket: seq<nat>, n: nat)
    requires size > 0.0 && n <= |ps|
  {
    forall k :: k in bucket <==> 0 <= k < n && CellOf(ps[k], size) == c && ps[k].rangeM == r
  }

  ghost predicate IsTierGrid(ps: seq<Position>, size: real, grid: TierGrid, n: nat)
    requires size > 0.0 && n <= |ps|
  {
    forall c, r :: IsTierBucket(ps, size, c, r, TierBucket(CellAt(grid, c), r), n)
  }

  method BuildTierGrid(ps: seq<Position>, size: real) returns (grid: TierGrid)
    requires size > 0.0
    ensures IsTierGrid(ps, size, grid, |ps|)
  {
    grid := map[];
    for i := 0 to |ps|
      invariant IsTierGrid(ps, size, grid, i)
    {
      var r := ps[i].rangeM;
      var c := CellOf(ps[i], size);
      ghost var before := grid;
      var cell := if c in grid then grid[c] else map[];
      cell := cell[r := (if r in cell then cell[r] else []) + [i]];
      grid := grid[c := cell];
      forall d, q ensures IsTierBucket(ps, size, d, q, TierBucket(CellAt(grid, d), q), i + 1) {
        assert IsTierBucket(ps, size, d, q, TierBucket(CellAt(before, d), q), i);
      }
    }
  }

  function Ranges(ps: seq<Position>): set<real> { set p | p in ps :: p.rangeM }

  lemma NonEmpty(s: set<real>)
    requires s != {}
    ensures exists r :: r in s
  {
    assert (forall r :: r !in s) ==> s == {};
  }

  function InsertTier(r: real, tiers: seq<real>): (out: seq<real>)
    ensures forall q :: q in out <==> q == r || q in tiers
  {
    if tiers == [] then [r]
    else if r <= tiers[0] then [r] + tiers
    else
      var rest := InsertTier(r, tiers[1..]);
      assert tiers == [tiers[0]] + tiers[1..];
      [tiers[0]] + rest
  }

  ghost predicate Ascending(tiers: seq<real>) {
    forall i, j :: 0 <= i < j < |tiers| ==> tiers[i] < tiers[j]
  }

  lemma {:induction false} InsertKeepsAscending(r: real, tiers: seq<real>)
    requires Ascending(tiers) && r !in tiers
    ensures Ascending(InsertTier(r, tiers))
  {
    assert tiers != [] ==> tiers == [tiers[0]] + tiers[1..];
    if tiers != [] && r > tiers[0] {
      InsertKeepsAscending(r, tiers[1..]);
      AscendingCons(tiers[0], r, tiers[1..], InsertTier(r, tiers[1..]));
    }
  }

  lemma AscendingCons(first: real, r: real, tail: seq<real>, rest: seq<real>)
    requires Ascending([first] + tail) && first < r && Ascending(rest) && forall q :: q in rest <==> q == r || q in tail
    ensures Ascending([first] + rest)
  {
    forall i | 0 <= i < |rest| ensures first < rest[i] {
      if rest[i] != r {
        assert rest[i] in tail;
        var k :| 0 <= k < |tail| && tail[k] == rest[i];
        assert ([first] + tail)[0] < ([first] + tail)[k + 1];
      }
    }
  }

  /** `sorted(set(ranges))`. */
  method SortTiers(ranges: set<real>) returns (tiers: seq<real>)
    ensures Ascending(tiers) && forall r :: r in tiers <==> r in ranges
  {
    tiers := [];
    var todo := ranges;
    while todo != {}
      invariant todo <= ranges && Ascending(tiers) && forall r :: r in tiers <==> r in ranges - todo
      decreases |todo|
    {
      NonEmpty(todo);
      var r :| r in todo;
      InsertKeepsAscending(r, tiers);
      tiers := InsertTier(r, tiers);
      todo := todo - {r};
    }
  }

  /** The candidates of `i` a tier contributes: those whose pair range with `i` is that tier, in the
      window cells visited before offset `stop`. */
  ghost function TierWindow(ps: seq<Position>, size: real, i: nat, stop: Cell): set<nat>
    requires size > 0.0 && i < |ps|
  {
    set k | k in Window(ps, size, CellOf(ps[i], size), i, stop) && Max(ps[i].rangeM, ps[k].rangeM) == size
  }

  /** The candidates of one cell, whatever order its ranges are iterated in. */
  method GatherTierCell(ps: seq<Position>, size: real, cell: TierCell, c: Cell, i: nat) returns (cand: set<nat>)
    requires size > 0.0 && i < |ps|
    requires forall r :: IsTierBucket(ps, size, c, r, TierBucket(cell, r), |ps|)
    ensures cand == set k | i < k < |ps| && CellOf(ps[k], size) == c && Max(ps[i].rangeM, ps[k].rangeM) == size
  {
    cand := {};
    var todo := cell.Keys;
    while todo != {}
      invariant todo <= cell.Keys
      invariant cand == set k | i < k < |ps| && CellOf(ps[k], size) == c && ps[k].rangeM in cell.Keys - todo
                                && Max(ps[i].rangeM, ps[k].rangeM) == size
      decreases |todo|
    {
      NonEmpty(todo);
      var r :| r in todo;
      assert IsTierBucket(ps, size, c, r, TierBucket(cell, r), |ps|);
      todo := todo - {r};
      if Max(ps[i].rangeM, r) == size {
        cand := cand + Above(cell[r], i);
      }
    }
    forall k | i < k < |ps| && CellOf(ps[k], size) == c ensures ps[k].rangeM in cell.Keys {
      assert IsTierBucket(ps, size, c, ps[k].rangeM, TierBucket(cell, ps[k].rangeM), |ps|);
    }
  }

  method GatherTier(ps: seq<Position>, size: real, grid: TierGrid, i: nat) returns (cand: set<nat>)
    requires size > 0.0 && i < |ps| && IsTierGrid(ps, size, grid, |ps|)
    ensures cand == TierWindow(ps, size, i, (2, -1))
  {
    cand := {};
    var centre := CellOf(ps[i], size);
    for ox := -1 to 2
      invariant cand == TierWindow(ps, size, i, (ox, -1))
    {
      for oy := -1 to 2
        invariant cand == TierWindow(ps, size, i, (ox, oy))
      {
        var c := (centre.0 + ox, centre.1 + oy);
        var more := GatherTierCell(ps, size, CellAt(grid, c), c, i);
        assert TierWindow(ps, size, i, (ox, oy + 1)) == TierWindow(ps, size, i, (ox, oy)) + more;
        cand := cand + more;
      }
      assert TierWindow(ps, size, i, (ox, 2)) == TierWindow(ps, size, i, (ox + 1, -1));
    }
  }

  ghost predicate AreGrids(ps: seq<Position>, tiers: seq<real>, grids: map<real, TierGrid>) {
    forall t :: 0 <= t < |tiers| ==>
      tiers[t] > 0.0 && tiers[t] in grids && IsTierGrid(ps, tiers[t], grids[tiers[t]], |ps|)
  }

  method BuildGrids(ps: seq<Position>, tiers: seq<real>) returns (grids: map<real, TierGrid>)
    requires forall t :: 0 <= t < |tiers| ==> tiers[t] > 0.0
    ensures AreGrids(ps, tiers, grids)
  {
    grids := map[];
    for t := 0 to |tiers|
      invariant AreGrids(ps, tiers[..t], grids)
    {
      var grid := BuildTierGrid(ps, tiers[t]);
      grids := grids[tiers[t] := grid];
    }
    assert tiers[..|tiers|] == tiers;
  }

  /** Every position in a candidate set comes after `i`; every encounter whose pair range is one of the
      first `n` tiers is in it. */
  ghost predicate Gathered(ps: seq<Position>, tiers: seq<real>, n: nat, i: nat, cand: set<nat>)
    requires i < |ps| && n <= |tiers|
  {
    && (forall k :: k in cand ==> i < k < |ps|)
    && forall j :: i < j < |ps| && Hit(ps[i], ps[j]) && Max(ps[i].rangeM, ps[j].rangeM) in tiers[..n] ==> j in cand
  }

  method GatherCandidates(ps: seq<Position>, tiers: seq<real>, grids: map<real, TierGrid>, i: nat)
    returns (cand: set<nat>)
    requires i < |ps| && AreGrids(ps, tiers, grids)
    ensures Gathered(ps, tiers, |tiers|, i, cand)
  {
    cand := {};
    for t := 0 to |tiers|
      invariant Gathered(ps, tiers, t, i, cand)
    {
      var size := tiers[t];
      assert tiers[..t + 1] == tiers[..t] + [size];
      if size >= ps[i].rangeM {
        var more := GatherTier(ps, size, grids[size], i);
        forall j | i < j < |ps| && Hit(ps[i], ps[j]) && Max(ps[i].rangeM, ps[j].rangeM) == size ensures j in more {
          HitsAreAdjacent(ps[i], ps[j], size);
        }
        cand := cand + more;
      }
    }
  }

  lemma TiersPositive(ps: seq<Position>, tiers: seq<real>)
    requires forall i :: 0 <= i < |ps| ==> ps[i].rangeM > 0.0
    requires forall r :: r in tiers <==> r in Ranges(ps)
    ensures forall t :: 0 <= t < |tiers| ==> tiers[t] > 0.0
  {
    forall t | 0 <= t < |tiers| ensures tiers[t] > 0.0 {
      var r := tiers[t];
      assert r in tiers;
      assert r in Ranges(ps);
      var p :| p in ps && p.rangeM == r;
    }
  }

  /** `_encounter_pairs_tiered`, which agrees with the reference on every list of positions. */
  method EncounterPairsTiered(ps: seq<Position>) returns (pairs: seq<Pair>)
    ensures pairs == Encounters(ps)
  {
    if |ps| < 2 {
      FewPositions(ps);
      return [];
    }
    if exists i :: 0 <= i < |ps| && ps[i].rangeM <= 0.0 {
      pairs := EncounterPairsNaive(ps);
      return;
    }
    var tiers := SortTiers(Ranges(ps));
    TiersPositive(ps, tiers);
    var grids := BuildGrids(ps, tiers);
    pairs := TieredRows(ps, tiers, grids);
  }

  method TieredRows(ps: seq<Position>, tiers: seq<real>, grids: map<real, TierGrid>) returns (pairs: seq<Pair>)
    requires AreGrids(ps, tiers, grids) && forall r :: r in tiers <==> r in Ranges(ps)
    ensures pairs == Encounters(ps)
  {
    pairs := [];
    for i := 0 to |ps|
      invariant pairs == EncountersBelow(ps, i)
    {
      var row := TieredRow(ps, tiers, grids, i);
      pairs := pairs + row;
    }
  }

  method TieredRow(ps: seq<Position>, tiers: seq<real>, grids: map<real, TierGrid>, i: nat) returns (row: seq<Pair>)
    requires i < |ps| && AreGrids(ps, tiers, grids) && forall r :: r in tiers <==> r in Ranges(ps)
    ensures row == Named(ps, i, Row(ps, i, |ps|))
  {
    var cand := GatherCandidates(ps, tiers, grids, i);
    var sorted := SortSet(cand);
    TiersCover(ps, tiers, i, cand, sorted);
    row := FilterRow(ps, i, sorted);
  }

  lemma TiersCover(ps: seq<Position>, tiers: seq<real>, i: nat, cand: set<nat>, sorted: seq<nat>)
    requires i < |ps| && (forall r :: r in tiers <==> r in Ranges(ps))
    requires Gathered(ps, tiers, |tiers|, i, cand) && Elements(sorted) == cand
    ensures forall k :: 0 <= k < |sorted| ==> i < sorted[k] < |ps|
    ensures Covers(ps, i, sorted)
  {
    assert tiers[..|tiers|] == tiers;
    forall k | 0 <= k < |sorted| ensures i < sorted[k] < |ps| { assert sorted[k] in Elements(sorted); }
    forall j | i < j < |ps| && Hit(ps[i], ps[j]) ensures j in sorted {
      assert ps[i] in ps && ps[j] in ps;
      assert Max(ps[i].rangeM, ps[j].rangeM) in Ranges(ps);
      assert j in Elements(sorted);
    }
  }
}
