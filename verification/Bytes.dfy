/** Octets, little-endian integers and a few facts about sequences shared by every module. */
module Bytes {
  type byte = x: int | 0 <= x < 256

  const U16_LIMIT: nat := 0x1_0000
  const U32_LIMIT: nat := 0x1_0000_0000
  const U64_LIMIT: nat := 0x1_0000_0000_0000_0000

  type u16 = x: int | 0 <= x < U16_LIMIT
  type u32 = x: int | 0 <= x < U32_LIMIT
  type u64 = x: int | 0 <= x < U64_LIMIT

  datatype Option<+T> = None | Some(value: T)

  /** Rust's `saturating_sub` on unsigned integers. */
  function SaturatingSub(a: nat, b: nat): nat {
    if a < b then 0 else a - b
  }

  /** Rust's `as u32`: keep the low 32 bits. */
  function AsU32(n: nat): u32 {
    if n < U32_LIMIT then n else n % U32_LIMIT
  }

  function Pow256(width: nat): (p: nat)
    ensures p > 0
  {
    if width == 0 then 1 else 256 * Pow256(width - 1)
  }

  lemma Pow256Widths()
    ensures Pow256(2) == U16_LIMIT
    ensures Pow256(4) == U32_LIMIT
    ensures Pow256(8) == U64_LIMIT
  {
    assert Pow256(2) == 256 * 256;
    assert Pow256(4) == 256 * 256 * Pow256(2);
    assert Pow256(6) == 256 * 256 * Pow256(4);
    assert Pow256(8) == 256 * 256 * Pow256(6);
  }

  /** The `width` low octets of `n`, least significant first (`to_le_bytes`). */
  function LittleEndian(n: nat, width: nat): (b: seq<byte>)
    ensures |b| == width
  {
    if width == 0 then [] else [n % 256] + LittleEndian(n / 256, width - 1)
  }

  function FromLittleEndian(b: seq<byte>): (n: nat)
    ensures n < Pow256(|b|)
  {
    if b == [] then 0 else b[0] + 256 * FromLittleEndian(b[1..])
  }

  /** Encoding and decoding are mutually inverse between octet strings and the integers that fit. */
  lemma {:induction false} LittleEndianInverse(n: nat, b: seq<byte>)
    requires n < Pow256(|b|)
    ensures LittleEndian(n, |b|) == b <==> FromLittleEndian(b) == n
  {
    if b != [] {
      assert n / 256 < Pow256(|b| - 1);
      LittleEndianInverse(n / 256, b[1..]);
      assert b == [b[0]] + b[1..];
      if FromLittleEndian(b) == n {
        assert n % 256 == b[0];
      }
    }
  }

  /** Octet `i` counts the `256^i`s. */
  lemma {:induction false} LittleEndianAt(n: nat, width: nat, i: nat)
    requires i < width
    ensures LittleEndian(n, width)[i] == n / Pow256(i) % 256
  {
    if i > 0 {
      LittleEndianAt(n / 256, width - 1, i - 1);
      DividedTwice(n, 256, Pow256(i - 1));
      assert LittleEndian(n, width)[i] == LittleEndian(n / 256, width - 1)[i - 1];
    }
  }

  lemma DividedTwice(n: nat, a: nat, b: nat)
    requires a > 0 && b > 0
    ensures a * b > 0 && n / a / b == n / (a * b)
  {
    var q, s := n / a / b, n / a % b;
    assert n == a * (b * q + s) + n % a && s + 1 <= b;
    Multiples(a, s, b);
    assert a * (b * q + s) == (a * b) * q + a * s;
    Quotient(n, a * b, q, a * s + n % a);
  }

  lemma Multiples(d: nat, x: nat, y: nat)
    ensures x < y ==> d * x + d <= d * y
  {
    if x < y { assert d * (x + 1) <= d * y; }
  }

  lemma Quotient(n: nat, d: nat, q: nat, r: nat)
    requires n == d * q + r && r < d
    ensures n / d == q
  {
    Multiples(d, q, n / d);
    Multiples(d, n / d, q);
  }

  /** Big-endian counterpart used by the TCP frame header (`to_be_bytes`). */
  function BigEndian(n: nat, width: nat): (b: seq<byte>)
    ensures |b| == width
  {
    if width == 0 then [] else BigEndian(n / 256, width - 1) + [n % 256]
  }

  function FromBigEndian(b: seq<byte>): (n: nat)
    ensures n < Pow256(|b|)
  {
    if b == [] then 0 else 256 * FromBigEndian(b[..|b| - 1]) + b[|b| - 1]
  }

  lemma {:induction false} BigEndianInverse(n: nat, b: seq<byte>)
    requires n < Pow256(|b|)
    ensures BigEndian(n, |b|) == b <==> FromBigEndian(b) == n
  {
    if b != [] {
      assert n / 256 < Pow256(|b| - 1);
      BigEndianInverse(n / 256, b[..|b| - 1]);
      assert b == b[..|b| - 1] + [b[|b| - 1]];
      var enc := BigEndian(n / 256, |b| - 1);
      assert (enc + [n % 256])[..|b| - 1] == enc;
      if FromBigEndian(b) == n {
        assert n % 256 == b[|b| - 1];
      }
    }
  }

  /** The same octets in the opposite order. */
  lemma {:induction false} BigEndianMirrors(n: nat, width: nat, i: nat)
    requires i < width
    ensures BigEndian(n, width)[i] == LittleEndian(n, width)[width - 1 - i]
  {
    if i < width - 1 { BigEndianMirrors(n / 256, width - 1, i); }
  }

  lemma Glue<T>(x: seq<T>, y: seq<T>, z: seq<T>)
    ensures (x + y) + z == x + (y + z)
  {}

  /** The last `n` elements of `s`, or all of it when it is shorter. */
  function LastN<T>(s: seq<T>, n: nat): seq<T> {
    if |s| <= n then s else s[|s| - n..]
  }

  ghost predicate Distinct<T>(s: seq<T>) {
    forall i, j :: 0 <= i < j < |s| ==> s[i] != s[j]
  }

  lemma SubsetCardinality<T>(a: set<T>, b: set<T>)
    requires a <= b
    ensures |a| <= |b| && (|a| == |b| ==> a == b)
  {
    assert b == a + (b - a);
    assert |b| == |a| + |b - a|;
  }

  /** Pigeonhole: a duplicate-free sequence drawn from `pool` is no longer than `pool`. */
  lemma {:induction false} DistinctFits<T>(s: seq<T>, pool: set<T>)
    requires Distinct(s)
    requires forall i :: 0 <= i < |s| ==> s[i] in pool
    ensures |s| <= |pool|
  {
    if s != [] {
      var last := s[|s| - 1];
      DistinctFits(s[..|s| - 1], pool - {last});
    }
  }
}
