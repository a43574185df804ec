/** Geohash bisection, and the sharded message store that relies on it. */
module Geohash {
  import opened Bytes

  const BASE32: string := "0123456789bcdefghjkmnpqrstuvwxyz"

  datatype Range = Range(lo: real, hi: real) {
    function Mid(): real { (lo + hi) / 2.0 }

    function Width(): real { hi - lo }

    predicate Contains(x: real) { lo <= x <= hi }

    function Half(upper: bool): Range { if upper then Range(Mid(), hi) else Range(lo, Mid()) }
  }

  const LON: Range := Range(-180.0, 180.0)
  const LAT: Range := Range(-90.0, 90.0)

  // ---------------------------------------------------------------------------------------------
  // Bisecting one coordinate
  // ---------------------------------------------------------------------------------------------

  /** The cell of `x` after `n` bisections. */
  function CellOf(x: real, r: Range, n: nat): Range
    decreases n
  {
    if n == 0 then r else CellOf(x, r.Half(x >= r.Mid()), n - 1)
  }

  /** The k-th bit: whether `x` lies in the upper half of the cell found so far. */
  function BitOf(x: real, r: Range, k: nat): bool {
    x >= CellOf(x, r, k).Mid()
  }

  function TwoTo(n: nat): nat {
    if n == 0 then 1 else 2 * TwoTo(n - 1)
  }

  lemma {:induction false} CellStep(x: real, r: Range, n: nat)
    ensures CellOf(x, r, n + 1) == CellOf(x, r, n).Half(BitOf(x, r, n))
    decreases n
  {
    if n > 0 { CellStep(x, r.Half(x >= r.Mid()), n - 1); }
  }

  /** `w / 2^n`, by halving `n` times. */
  function Halved(w: real, n: nat): real
    decreases n
  {
    if n == 0 then w else Halved(w / 2.0, n - 1)
  }

  lemma {:induction false} HalvedIsDivision(w: real, n: nat)
    ensures Halved(w, n) * TwoTo(n) as real == w
    decreases n
  {
    if n > 0 {
      HalvedIsDivision(w / 2.0, n - 1);
      Doubled(Halved(w / 2.0, n - 1), TwoTo(n - 1));
    }
  }

  lemma Doubled(w: real, t: nat)
    ensures w * (2 * t) as real == 2.0 * (w * t as real)
  {}

  /** Every bisection halves the width. */
  lemma {:induction false} CellWidth(x: real, r: Range, n: nat)
    ensures CellOf(x, r, n).Width() == Halved(r.Width(), n)
    decreases n
  {
    if n > 0 { CellWidth(x, r.Half(x >= r.Mid()), n - 1); }
  }

  /** Cells nest, and a point inside stays inside. */
  lemma {:induction false} CellShrinks(x: real, r: Range, n: nat)
    requires r.lo < r.hi
    ensures r.lo <= CellOf(x, r, n).lo < CellOf(x, r, n).hi <= r.hi
    ensures r.Contains(x) ==> CellOf(x, r, n).Contains(x)
    decreases n
  {
    if n > 0 { CellShrinks(x, r.Half(x >= r.Mid()), n - 1); }
  }

  /** A cell holds its lower end and not its upper one. */
  lemma {:induction false} CellIsHalfOpen(x: real, r: Range, n: nat)
    requires r.lo <= x < r.hi
    ensures CellOf(x, r, n).lo <= x < CellOf(x, r, n).hi
    decreases n
  {
    if n > 0 { CellIsHalfOpen(x, r.Half(x >= r.Mid()), n - 1); }
  }

  ghost predicate SameBits(x: real, y: real, r: Range, n: nat) {
    forall k: nat :: k < n ==> BitOf(x, r, k) == BitOf(y, r, k)
  }

  /** Two points have the same first `n` bits exactly when they fall in the same cell. */
  lemma {:induction false} SameCellSameBits(x: real, y: real, r: Range, n: nat)
    requires r.lo < r.hi
    ensures SameBits(x, y, r, n) <==> CellOf(x, r, n) == CellOf(y, r, n)
    decreases n
  {
    if n > 0 {
      var hx, hy := r.Half(x >= r.Mid()), r.Half(y >= r.Mid());
      assert BitOf(x, r, 0) == (x >= r.Mid()) && BitOf(y, r, 0) == (y >= r.Mid());
      assert forall k: nat :: BitOf(x, r, k + 1) == BitOf(x, hx, k) && BitOf(y, r, k + 1) == BitOf(y, hy, k);
      if hx == hy {
        SameCellSameBits(x, y, hx, n - 1);
        if SameBits(x, y, r, n) {
          forall k: nat | k < n - 1 ensures BitOf(x, hx, k) == BitOf(y, hx, k) {
            assert BitOf(x, r, k + 1) == BitOf(y, r, k + 1);
          }
        }
        if SameBits(x, y, hx, n - 1) {
          forall k: nat | k < n ensures BitOf(x, r, k) == BitOf(y, r, k) {
            if k > 0 { assert BitOf(x, hx, k - 1) == BitOf(y, hx, k - 1); }
          }
        }
      } else {
        CellShrinks(x, hx, n - 1);
        CellShrinks(y, hy, n - 1);
      }
    }
  }

  // ---------------------------------------------------------------------------------------------
  // Interleaving and letters
  // ---------------------------------------------------------------------------------------------

  /** Bit `j` of a geohash: longitude first, then alternating. */
  function HashBit(lat: real, lon: real, j: nat): bool {
    if j % 2 == 0 then BitOf(lon, LON, j / 2) else BitOf(lat, LAT, j / 2)
  }

  function Digit(b: bool): nat { if b then 1 else 0 }

  /** The first `m` bits of the `i`-th letter as a number. */
  function Accumulated(lat: real, lon: real, i: nat, m: nat): (n: nat)
    ensures n < TwoTo(m)
  {
    if m == 0 then 0 else 2 * Accumulated(lat, lon, i, m - 1) + Digit(HashBit(lat, lon, 5 * i + m - 1))
  }

  function Letter(lat: real, lon: real, i: nat): char {
    FiveBits();
    BASE32[Accumulated(lat, lon, i, 5)]
  }

  function Hash(lat: real, lon: real, precision: nat): string {
    seq(precision, i requires 0 <= i < precision => Letter(lat, lon, i))
  }

  lemma FiveBits()
    ensures TwoTo(5) == 32 && |BASE32| == 32
  {
    assert TwoTo(3) == 8 && TwoTo(5) == 4 * TwoTo(3);
  }

  lemma AlphabetAscends(i: nat)
    requires i < 31
    ensures BASE32[i] < BASE32[i + 1]
  {}

  lemma {:induction false} AlphabetIsInjective(i: nat, j: nat)
    requires i < j < 32
    ensures BASE32[i] < BASE32[j]
  {
    AlphabetAscends(j - 1);
    if i < j - 1 { AlphabetIsInjective(i, j - 1); }
  }

  lemma {:induction false} SameAccumulated(lat: real, lon: real, lat': real, lon': real, i: nat, m: nat)
    ensures Accumulated(lat, lon, i, m) == Accumulated(lat', lon', i, m)
            <==> forall j: nat :: 5 * i <= j < 5 * i + m ==> HashBit(lat, lon, j) == HashBit(lat', lon', j)
  {
    if m > 0 {
      SameAccumulated(lat, lon, lat', lon', i, m - 1);
    }
  }

  lemma SameLetter(lat: real, lon: real, lat': real, lon': real, i: nat)
    ensures Letter(lat, lon, i) == Letter(lat', lon', i)
            <==> forall j: nat :: 5 * i <= j < 5 * i + 5 ==> HashBit(lat, lon, j) == HashBit(lat', lon', j)
  {
    FiveBits();
    SameAccumulated(lat, lon, lat', lon', i, 5);
    var a, b := Accumulated(lat, lon, i, 5), Accumulated(lat', lon', i, 5);
    if a < b { AlphabetIsInjective(a, b); } else if b < a { AlphabetIsInjective(b, a); }
  }

  ghost predicate SameHashBits(lat: real, lon: real, lat': real, lon': real, n: nat) {
    forall j: nat :: j < n ==> HashBit(lat, lon, j) == HashBit(lat', lon', j)
  }

  lemma SameHash(lat: real, lon: real, lat': real, lon': real, n: nat)
    ensures Hash(lat, lon, n) == Hash(lat', lon', n) <==> SameHashBits(lat, lon, lat', lon', 5 * n)
  {
    if Hash(lat, lon, n) == Hash(lat', lon', n) {
      forall j: nat | j < 5 * n ensures HashBit(lat, lon, j) == HashBit(lat', lon', j) {
        assert Hash(lat, lon, n)[j / 5] == Hash(lat', lon', n)[j / 5];
        SameLetter(lat, lon, lat', lon', j / 5);
      }
    }
    if SameHashBits(lat, lon, lat', lon', 5 * n) {
      forall i | 0 <= i < n ensures Letter(lat, lon, i) == Letter(lat', lon', i) {
        SameLetter(lat, lon, lat', lon', i);
      }
    }
  }

  lemma Deinterleave(lat: real, lon: real, lat': real, lon': real, n: nat)
    ensures SameHashBits(lat, lon, lat', lon', n)
            <==> SameBits(lon, lon', LON, (n + 1) / 2) && SameBits(lat, lat', LAT, n / 2)
  {
    if SameHashBits(lat, lon, lat', lon', n) {
      forall k: nat | k < (n + 1) / 2 ensures BitOf(lon, LON, k) == BitOf(lon', LON, k) {
        assert HashBit(lat, lon, 2 * k) == HashBit(lat', lon', 2 * k);
      }
      forall k: nat | k < n / 2 ensures BitOf(lat, LAT, k) == BitOf(lat', LAT, k) {
        assert HashBit(lat, lon, 2 * k + 1) == HashBit(lat', lon', 2 * k + 1);
      }
    }
    if SameBits(lon, lon', LON, (n + 1) / 2) && SameBits(lat, lat', LAT, n / 2) {
      forall j: nat | j < n ensures HashBit(lat, lon, j) == HashBit(lat', lon', j) {
        assert j % 2 == 0 ==> BitOf(lon, LON, j / 2) == BitOf(lon', LON, j / 2);
        assert j % 2 == 1 ==> BitOf(lat, LAT, j / 2) == BitOf(lat', LAT, j / 2);
      }
    }
  }

  /** A geohash of `n` letters names a cell: two points share it exactly when they share the cell. */
  lemma HashNamesCell(lat: real, lon: real, lat': real, lon': real, n: nat)
    ensures Hash(lat, lon, n) == Hash(lat', lon', n)
            <==> CellOf(lon, LON, (5 * n + 1) / 2) == CellOf(lon', LON, (5 * n + 1) / 2)
                 && CellOf(lat, LAT, 5 * n / 2) == CellOf(lat', LAT, 5 * n / 2)
  {
    SameHash(lat, lon, lat', lon', n);
    Deinterleave(lat, lon, lat', lon', 5 * n);
    SameCellSameBits(lon, lon', LON, (5 * n + 1) / 2);
    SameCellSameBits(lat, lat', LAT, 5 * n / 2);
  }

  function Distance(x: real, y: real): (d: real)
    ensures d >= 0.0 && (d == x - y || d == y - x)
  {
    if x < y then y - x else x - y
  }

  lemma SameCellIsClose(x: real, y: real, r: Range, n: nat)
    requires r.lo < r.hi && r.Contains(x) && r.Contains(y) && CellOf(x, r, n) == CellOf(y, r, n)
    ensures Distance(x, y) <= Halved(r.Width(), n)
  {
    CellShrinks(x, r, n);
    CellShrinks(y, r, n);
    CellWidth(x, r, n);
  }

  ghost predicate OnEarth(lat: real, lon: real) { LAT.Contains(lat) && LON.Contains(lon) }

  /** Two points sharing their first `n` letters differ by at most 360 / 2^ceil(5n/2) degrees of
      longitude and 180 / 2^floor(5n/2) of latitude. */
  lemma SharedPrefixIsClose(lat: real, lon: real, lat': real, lon': real, n: nat)
    requires OnEarth(lat, lon) && OnEarth(lat', lon') && Hash(lat, lon, n) == Hash(lat', lon', n)
    ensures Distance(lon, lon') <= Halved(360.0, (5 * n + 1) / 2)
    ensures Distance(lat, lat') <= Halved(180.0, 5 * n / 2)
  {
    HashNamesCell(lat, lon, lat', lon', n);
    SameCellIsClose(lon, lon', LON, (5 * n + 1) / 2);
    SameCellIsClose(lat, lat', LAT, 5 * n / 2);
  }

  /** A shorter hash is a prefix of a longer one. */
  lemma ShorterIsPrefix(lat: real, lon: real, n: nat, m: nat)
    requires n <= m
    ensures Hash(lat, lon, m)[..n] == Hash(lat, lon, n)
  {}

  // ---------------------------------------------------------------------------------------------
  // Reading a geohash back
  // ---------------------------------------------------------------------------------------------

  /** Where `c` stands in the alphabet, from `i` on. */
  ghost function IndexOf(c: char, i: nat): nat
    requires i <= |BASE32|
    decreases |BASE32| - i
  {
    if i == |BASE32| || BASE32[i] == c then i else IndexOf(c, i + 1)
  }

  ghost function WithoutLast(d: nat, n: nat): nat
    decreases n
  {
    if n == 0 then d else WithoutLast(d / 2, n - 1)
  }

  /** Bit `k` of a letter's five, the most significant first. */
  ghost function LetterBit(c: char, k: nat): bool
    requires k < 5
  {
    WithoutLast(IndexOf(c, 0), 4 - k) % 2 == 1
  }

  /** The ranges of longitude and latitude that the first `j` bits of a geohash name. */
  ghost function Decoded(s: string, j: nat): (Range, Range)
    requires j <= 5 * |s|
  {
    if j == 0 then (LON, LAT)
    else
      Narrowed(Decoded(s, j - 1), j - 1, BitAt(s, j - 1))
  }

  ghost function BitAt(s: string, j: nat): bool
    requires j < 5 * |s|
  {
    LetterBit(s[j / 5], j % 5)
  }

  ghost function Narrowed(cell: (Range, Range), j: nat, bit: bool): (Range, Range) {
    if j % 2 == 0 then (cell.0.Half(bit), cell.1) else (cell.0, cell.1.Half(bit))
  }

  ghost function CellAfter(lat: real, lon: real, j: nat): (Range, Range) {
    (CellOf(lon, LON, (j + 1) / 2), CellOf(lat, LAT, j / 2))
  }

  lemma CellsNarrow(lat: real, lon: real, b: nat)
    ensures Narrowed(CellAfter(lat, lon, b), b, HashBit(lat, lon, b)) == CellAfter(lat, lon, b + 1)
  {
    if b % 2 == 0 {
      assert (b + 1) / 2 == b / 2 && (b + 2) / 2 == b / 2 + 1;
      CellStep(lon, LON, b / 2);
    } else {
      assert (b + 1) / 2 == b / 2 + 1 == (b + 2) / 2;
      CellStep(lat, LAT, b / 2);
    }
  }

  lemma {:induction false} IndexOfLetter(d: nat, i: nat)
    requires i <= d < 32 == |BASE32|
    ensures IndexOf(BASE32[d], i) == d
    decreases d - i
  {
    if i < d {
      AlphabetIsInjective(i, d);
      IndexOfLetter(d, i + 1);
    }
  }

  lemma {:induction false} FewerBits(lat: real, lon: real, i: nat, m: nat, n: nat)
    requires n <= m
    ensures WithoutLast(Accumulated(lat, lon, i, m), n) == Accumulated(lat, lon, i, m - n)
    decreases n
  {
    if n > 0 {
      LastBit(Accumulated(lat, lon, i, m - 1), HashBit(lat, lon, 5 * i + m - 1));
      FewerBits(lat, lon, i, m - 1, n - 1);
    }
  }

  lemma BitOfNumber(lat: real, lon: real, i: nat, m: nat, k: nat)
    requires k < m
    ensures WithoutLast(Accumulated(lat, lon, i, m), m - 1 - k) % 2 == Digit(HashBit(lat, lon, 5 * i + k))
  {
    FewerBits(lat, lon, i, m, m - 1 - k);
    LastBit(Accumulated(lat, lon, i, k), HashBit(lat, lon, 5 * i + k));
  }

  lemma LastBit(n: nat, bit: bool)
    ensures (2 * n + Digit(bit)) / 2 == n && (2 * n + Digit(bit)) % 2 == Digit(bit)
  {}

  lemma LetterSpellsBits(lat: real, lon: real, i: nat, k: nat)
    requires k < 5
    ensures LetterBit(Letter(lat, lon, i), k) == HashBit(lat, lon, 5 * i + k)
  {
    FiveBits();
    var d := Accumulated(lat, lon, i, 5);
    IndexOfLetter(d, 0);
    BitOfNumber(lat, lon, i, 5, k);
  }

  lemma BitReadBack(lat: real, lon: real, n: nat, b: nat)
    requires b < 5 * n
    ensures BitAt(Hash(lat, lon, n), b) == HashBit(lat, lon, b)
  {
    LetterSpellsBits(lat, lon, b / 5, b % 5);
    assert 5 * (b / 5) + b % 5 == b;
  }

  lemma {:induction false} BitsMakeCell(s: string, lat: real, lon: real, j: nat)
    requires j <= 5 * |s| && forall b: nat :: b < 5 * |s| ==> BitAt(s, b) == HashBit(lat, lon, b)
    ensures Decoded(s, j) == CellAfter(lat, lon, j)
  {
    if j > 0 {
      BitsMakeCell(s, lat, lon, j - 1);
      CellsNarrow(lat, lon, j - 1);
    }
  }

  lemma DecodedIsCell(lat: real, lon: real, n: nat)
    ensures Decoded(Hash(lat, lon, n), 5 * n) == CellAfter(lat, lon, 5 * n)
  {
    var s := Hash(lat, lon, n);
    forall b: nat | b < 5 * n ensures BitAt(s, b) == HashBit(lat, lon, b) { BitReadBack(lat, lon, n, b); }
    BitsMakeCell(s, lat, lon, 5 * n);
  }

  /** What a geohash is read back as is the cell it names, which the point lies in. */
  lemma DecodedHoldsPoint(lat: real, lon: real, n: nat)
    requires OnEarth(lat, lon)
    ensures var (lons, lats) := Decoded(Hash(lat, lon, n), 5 * n);
            && lons.Contains(lon) && lons.Width() == Halved(360.0, (5 * n + 1) / 2)
            && lats.Contains(lat) && lats.Width() == Halved(180.0, 5 * n / 2)
  {
    DecodedIsCell(lat, lon, n);
    CellShrinks(lon, LON, (5 * n + 1) / 2);
    CellShrinks(lat, LAT, 5 * n / 2);
    CellWidth(lon, LON, (5 * n + 1) / 2);
    CellWidth(lat, LAT, 5 * n / 2);
  }

  method Bisect(x: real, range: Range, accumulated: nat) returns (half: Range, acc: nat)
    ensures half == range.Half(x >= range.Mid()) && acc == 2 * accumulated + Digit(x >= range.Mid())
  {
    var mid := range.Mid();
    if x >= mid {
      acc := 2 * accumulated + 1;
      half := Range(mid, range.hi);
    } else {
      acc := 2 * accumulated;
      half := Range(range.lo, mid);
    }
  }

  /** `m` bits of letter `i` have been read. */
  ghost predicate Scanning(lat: real, lon: real, i: nat, m: nat, isLon: bool, lonRange: Range, latRange: Range,
                           acc: nat) {
    var j := 5 * i + m;
    && isLon == (j % 2 == 0)
    && lonRange == CellOf(lon, LON, (j + 1) / 2) && latRange == CellOf(lat, LAT, j / 2)
    && acc == Accumulated(lat, lon, i, m)
  }

  lemma ScanLon(lat: real, lon: real, i: nat, m: nat, lonRange: Range, latRange: Range, acc: nat)
    requires Scanning(lat, lon, i, m, true, lonRange, latRange, acc)
    ensures var bit := lon >= lonRange.Mid();
            Scanning(lat, lon, i, m + 1, false, lonRange.Half(bit), latRange, 2 * acc + Digit(bit))
  {
    var j := 5 * i + m;
    CellStep(lon, LON, j / 2);
    assert (j + 1) / 2 == j / 2 && (j + 2) / 2 == j / 2 + 1;
  }

  lemma ScanLat(lat: real, lon: real, i: nat, m: nat, lonRange: Range, latRange: Range, acc: nat)
    requires Scanning(lat, lon, i, m, false, lonRange, latRange, acc)
    ensures var bit := lat >= latRange.Mid();
            Scanning(lat, lon, i, m + 1, true, lonRange, latRange.Half(bit), 2 * acc + Digit(bit))
  {
    var j := 5 * i + m;
    CellStep(lat, LAT, j / 2);
    assert (j + 1) / 2 == j / 2 + 1 && (j + 2) / 2 == j / 2 + 1;
  }

  lemma ScanLetter(lat: real, lon: real, i: nat, isLon: bool, lonRange: Range, latRange: Range, acc: nat)
    requires Scanning(lat, lon, i, 5, isLon, lonRange, latRange, acc)
    ensures acc < |BASE32| && BASE32[acc] == Letter(lat, lon, i)
    ensures Scanning(lat, lon, i + 1, 0, isLon, lonRange, latRange, 0)
  {
    FiveBits();
  }

  /** The bit-by-bit loop computes the geohash. */
  method PositionToGeohash(lat: real, lon: real, precision: nat) returns (geohash: string)
    ensures geohash == Hash(lat, lon, precision)
  {
    geohash := "";
    var latRange, lonRange := LAT, LON;
    var bits: nat, accumulated: nat := 0, 0;
    var isLon := true;
    while |geohash| < precision
      invariant |geohash| <= precision && 0 <= bits < 5
      invariant Scanning(lat, lon, |geohash|, bits, isLon, lonRange, latRange, accumulated)
      invariant forall i :: 0 <= i < |geohash| ==> geohash[i] == Letter(lat, lon, i)
      decreases 5 * (precision - |geohash|) - bits
    {
      if isLon {
        ScanLon(lat, lon, |geohash|, bits, lonRange, latRange, accumulated);
        lonRange, accumulated := Bisect(lon, lonRange, accumulated);
      } else {
        ScanLat(lat, lon, |geohash|, bits, lonRange, latRange, accumulated);
        latRange, accumulated := Bisect(lat, latRange, accumulated);
      }
      isLon := !isLon;
      bits := bits + 1;
      if bits == 5 {
        ScanLetter(lat, lon, |geohash|, isLon, lonRange, latRange, accumulated);
        geohash := geohash + [BASE32[accumulated]];
        bits, accumulated := 0, 0;
      }
    }
  }

  // ---------------------------------------------------------------------------------------------
  // The sharded store
  // ---------------------------------------------------------------------------------------------

  datatype Tier = Critical | Important | Normal | Low

  datatype Policy = Mobile | Desktop | Gateway

  function RetentionSecs(tier: Tier): nat {
    match tier
    case Critical => 7 * 24 * 3600
    case Important => 2 * 24 * 3600
    case Normal => 6 * 3600
    case Low => 3600
  }

  function MaxBytes(policy: Policy): nat {
    match policy
    case Mobile => 64 * 1024 * 1024
    case Desktop => 2 * 1024 * 1024 * 1024
    case Gateway => 16 * 1024 * 1024 * 1024
  }

  function ShardPrefixLen(policy: Policy): nat {
    match policy
    case Mobile => 5
    case Desktop => 4
    case Gateway => 3
  }

  datatype Stored = Stored(id: string, tier: Tier, createdAt: u64, payload: seq<byte>, originalSize: nat,
                           geohash: string)

  predicate SharePrefix(a: string, b: string, n: nat) {
    n <= |a| && n <= |b| && forall i :: 0 <= i < n ==> a[i] == b[i]
  }

  predicate KeptHere(geohash: string, mine: string, tier: Tier, prefixLen: nat) {
    tier == Critical || (prefixLen > 0 && SharePrefix(geohash, mine, prefixLen))
  }

  /** Counting the common letters decides the same. */
  method ShouldStoreLocally(geohash: string, mine: string, tier: Tier, prefixLen: nat) returns (keep: bool)
    ensures keep == KeptHere(geohash, mine, tier, prefixLen)
    ensures keep <==> tier == Critical || (0 < prefixLen <= |geohash| && prefixLen <= |mine|
                                           && geohash[..prefixLen] == mine[..prefixLen])
  {
    if tier == Critical { return true; }
    if prefixLen == 0 { return false; }
    var common := 0;
    while common < |geohash| && common < |mine| && geohash[common] == mine[common]
      invariant SharePrefix(geohash, mine, common)
    {
      common := common + 1;
    }
    return common >= prefixLen;
  }

  /** A message that is not critical and kept by a node comes from its neighbourhood. */
  lemma KeptIsNear(lat: real, lon: real, n: nat, lat': real, lon': real, m: nat, tier: Tier, policy: Policy)
    requires OnEarth(lat, lon) && OnEarth(lat', lon') && tier != Critical
    requires KeptHere(Hash(lat, lon, n), Hash(lat', lon', m), tier, ShardPrefixLen(policy))
    ensures var k := ShardPrefixLen(policy);
            && Distance(lon, lon') <= Halved(360.0, (5 * k + 1) / 2)
            && Distance(lat, lat') <= Halved(180.0, 5 * k / 2)
  {
    var k := ShardPrefixLen(policy);
    forall i | 0 <= i < k ensures Hash(lat, lon, k)[i] == Hash(lat', lon', k)[i] {
      assert Hash(lat, lon, n)[i] == Hash(lat', lon', m)[i];
    }
    SharedPrefixIsClose(lat, lon, lat', lon', k);
  }

  lemma {:induction false} TwoToAdds(a: nat, b: nat)
    ensures TwoTo(a + b) == TwoTo(a) * TwoTo(b)
  {
    if a > 0 {
      TwoToAdds(a - 1, b);
      DoubledFirst(TwoTo(a - 1), TwoTo(b));
    }
  }

  lemma DoubledFirst(x: nat, y: nat)
    ensures 2 * (x * y) == (2 * x) * y
  {}

  lemma Powers()
    ensures TwoTo(7) == 128 && TwoTo(8) == 256 && TwoTo(10) == 1024 && TwoTo(12) == 4096 && TwoTo(13) == 8192
  {
    FiveBits();
    TwoToAdds(5, 2);
    TwoToAdds(5, 3);
    TwoToAdds(5, 5);
    TwoToAdds(5, 7);
    TwoToAdds(5, 8);
  }

  lemma HalvedBy(w: real, n: nat, d: nat)
    requires TwoTo(n) == d > 0
    ensures Halved(w, n) == w / d as real
  {
    HalvedIsDivision(w, n);
  }

  /** In degrees: 0.044 both ways on a phone, 0.352 and 0.176 on a computer, 1.41 both ways on a gateway. */
  lemma NeighbourhoodByPolicy(lat: real, lon: real, n: nat, lat': real, lon': real, m: nat, tier: Tier, policy: Policy)
    requires OnEarth(lat, lon) && OnEarth(lat', lon') && tier != Critical
    requires KeptHere(Hash(lat, lon, n), Hash(lat', lon', m), tier, ShardPrefixLen(policy))
    ensures var (east, north) := match policy
              case Mobile => (360.0 / 8192.0, 180.0 / 4096.0)
              case Desktop => (360.0 / 1024.0, 180.0 / 1024.0)
              case Gateway => (360.0 / 256.0, 180.0 / 128.0);
            Distance(lon, lon') <= east && Distance(lat, lat') <= north
  {
    KeptIsNear(lat, lon, n, lat', lon', m, tier, policy);
    Powers();
    match policy
    case Mobile => HalvedBy(360.0, 13, 8192); HalvedBy(180.0, 12, 4096);
    case Desktop => HalvedBy(360.0, 10, 1024); HalvedBy(180.0, 10, 1024);
    case Gateway => HalvedBy(360.0, 8, 256); HalvedBy(180.0, 7, 128);
  }

  /** 64 MiB, 2 GiB and 16 GiB. */
  lemma BudgetByPolicy(policy: Policy)
    ensures MaxBytes(policy) == TwoTo(match policy case Mobile => 26 case Desktop => 31 case Gateway => 34)
  {
    Powers();
    TwoToAdds(13, 13);
    TwoToAdds(26, 5);
    TwoToAdds(26, 8);
    FiveBits();
  }

  function RawBytes(ms: seq<Stored>): nat {
    if ms == [] then 0 else RawBytes(ms[..|ms| - 1]) + ms[|ms| - 1].originalSize
  }

  ghost predicate DistinctIds(ms: seq<Stored>) {
    forall i, j :: 0 <= i < j < |ms| ==> ms[i].id != ms[j].id
  }

  predicate Holds(ms: seq<Stored>, id: string) {
    exists i :: 0 <= i < |ms| && ms[i].id == id
  }

  lemma HoldsExactly(ms: seq<Stored>, id: string)
    ensures !Holds(ms, id) <==> forall m :: m in ms ==> m.id != id
  {
    if i :| 0 <= i < |ms| && ms[i].id == id { assert ms[i] in ms; }
  }

  /** The messages not yet expired, in order. */
  function Unexpired(ms: seq<Stored>, now: u64): (kept: seq<Stored>)
    ensures |kept| <= |ms|
  {
    if ms == [] then []
    else
      var m := ms[|ms| - 1];
      Unexpired(ms[..|ms| - 1], now) + if SaturatingSub(now, m.createdAt) < RetentionSecs(m.tier) then [m] else []
  }

  /** A critical message is kept for a week, an important one for two days, a normal one for six hours and
      the rest for one, counted from its creation. */
  lemma KeptForItsTier(m: Stored, now: u64)
    ensures Unexpired([m], now) == [m] || Unexpired([m], now) == []
    ensures Unexpired([m], now) == [m] <==>
              now < m.createdAt + (match m.tier
                                   case Critical => 604_800
                                   case Important => 172_800
                                   case Normal => 21_600
                                   case Low => 3_600)
  {
    assert [m][..0] == [];
  }

  /** Messages expire one by one, and every message counts its size. */
  lemma {:induction false} SweepsApart(xs: seq<Stored>, ys: seq<Stored>, now: u64)
    ensures Unexpired(xs + ys, now) == Unexpired(xs, now) + Unexpired(ys, now)
    ensures RawBytes(xs + ys) == RawBytes(xs) + RawBytes(ys)
  {
    if ys == [] {
      assert xs + ys == xs;
    } else {
      SweepsApart(xs, ys[..|ys| - 1], now);
      assert (xs + ys)[..|xs + ys| - 1] == xs + ys[..|ys| - 1];
    }
  }

  lemma CountsItsSize(m: Stored)
    ensures RawBytes([m]) == m.originalSize
  {
    assert [m][..0] == [];
  }

  lemma {:induction false} SweepOnlyRemoves(ms: seq<Stored>, now: u64, m: Stored)
    ensures m in Unexpired(ms, now) ==> m in ms
  {
    if ms != [] {
      SweepOnlyRemoves(ms[..|ms| - 1], now, m);
      assert ms == ms[..|ms| - 1] + [ms[|ms| - 1]];
    }
  }

  lemma {:induction false} SweepFrees(ms: seq<Stored>, now: u64)
    ensures RawBytes(Unexpired(ms, now)) <= RawBytes(ms)
  {
    if ms != [] {
      SweepFrees(ms[..|ms| - 1], now);
      var kept, last := Unexpired(ms[..|ms| - 1], now), ms[|ms| - 1];
      assert (kept + [last])[..|kept|] == kept && kept + [] == kept;
    }
  }

  lemma {:induction false} SweepKeepsDistinct(ms: seq<Stored>, now: u64)
    requires DistinctIds(ms)
    ensures DistinctIds(Unexpired(ms, now))
  {
    if ms != [] {
      var init, last := ms[..|ms| - 1], ms[|ms| - 1];
      SweepKeepsDistinct(init, now);
      var kept := Unexpired(init, now);
      forall i | 0 <= i < |kept| ensures kept[i].id != last.id {
        SweepOnlyRemoves(init, now, kept[i]);
        var k :| 0 <= k < |init| && init[k] == kept[i];
        assert ms[k].id != ms[|ms| - 1].id;
      }
    }
  }

  class TieredMessageStore {
    const policy: Policy
    const compress: seq<byte> -> seq<byte>
    var messages: seq<Stored>
    var myGeohash: string

    /** One copy per id, within the budget on raw bytes. */
    ghost predicate Valid()
      reads this
    {
      DistinctIds(messages) && RawBytes(messages) <= MaxBytes(policy)
    }

    constructor (policy: Policy, geohash: string, compress: seq<byte> -> seq<byte>)
      ensures Valid() && messages == [] && myGeohash == geohash && this.policy == policy && this.compress == compress
    {
      this.policy, this.compress, messages, myGeohash := policy, compress, [], geohash;
    }

    method SetMyGeohash(geohash: string)
      requires Valid()
      modifies this`myGeohash
      ensures Valid() && myGeohash == geohash
    {
      myGeohash := geohash;
    }

    /** Kept exactly when it is new, fits the budget and belongs here. */
    method Store(id: string, tier: Tier, payload: seq<byte>, createdAt: u64, geohash: string) returns (kept: bool)
      requires Valid()
      modifies this`messages
      ensures Valid()
      ensures kept <==> (forall m :: m in old(messages) ==> m.id != id)
                        && RawBytes(old(messages)) + |payload| <= MaxBytes(policy)
                        && KeptHere(geohash, myGeohash, tier, ShardPrefixLen(policy))
      ensures var m := Stored(id, tier, createdAt, compress(payload), |payload|, geohash);
              messages == if kept then old(messages) + [m] else old(messages)
    {
      HoldsExactly(messages, id);
      if Holds(messages, id) { return false; }
      var used := UsedRawBytes();
      if used + |payload| > MaxBytes(policy) { return false; }
      var here := ShouldStoreLocally(geohash, myGeohash, tier, ShardPrefixLen(policy));
      if !here { return false; }
      ghost var before := messages;
      messages := messages + [Stored(id, tier, createdAt, compress(payload), |payload|, geohash)];
      assert messages[..|before|] == before;
      return true;
    }

    method UsedRawBytes() returns (n: nat)
      ensures n == RawBytes(messages)
    {
      n := 0;
      for i := 0 to |messages|
        invariant n == RawBytes(messages[..i])
      {
        assert messages[..i + 1][..i] == messages[..i];
        n := n + messages[i].originalSize;
      }
      assert messages[..|messages|] == messages;
    }

    method SweepExpired(now: u64) returns (purged: nat)
      requires Valid()
      modifies this`messages
      ensures Valid() && messages == Unexpired(old(messages), now) && purged == |old(messages)| - |messages|
    {
      var before := messages;
      SweepKeepsDistinct(messages, now);
      SweepFrees(messages, now);
      messages := [];
      for i := 0 to |before|
        invariant messages == Unexpired(before[..i], now)
      {
        assert before[..i + 1][..i] == before[..i];
        var m := before[i];
        if SaturatingSub(now, m.createdAt) < RetentionSecs(m.tier) { messages := messages + [m]; }
      }
      assert before[..|before|] == before;
      purged := |before| - |messages|;
    }
  }
}
