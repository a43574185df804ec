/** Which octets are text: exactly the encodings of sequences of Unicode code points. */
module Utf8 {
  import opened Bytes
  import opened Wire

  /** The code points, surrogates left out. */
  predicate CodePoint(c: nat) {
    c < 0xD800 || 0xE000 <= c < 0x11_0000
  }

  /** One code point: its value in groups of six bits, the first octet telling how many follow. */
  function Octets(c: nat): seq<byte>
    requires CodePoint(c)
  {
    if c < 0x80 then [c]
    else if c < 0x800 then [0xC0 + c / 64, 0x80 + c % 64]
    else if c < 0x1_0000 then [0xE0 + c / 4096, 0x80 + c / 64 % 64, 0x80 + c % 64]
    else [0xF0 + c / 262_144, 0x80 + c / 4096 % 64, 0x80 + c / 64 % 64, 0x80 + c % 64]
  }

  predicate CodePoints(cs: seq<nat>) {
    forall i :: 0 <= i < |cs| ==> CodePoint(cs[i])
  }

  function EncodePoints(cs: seq<nat>): seq<byte>
    requires CodePoints(cs)
  {
    if cs == [] then [] else Octets(cs[0]) + EncodePoints(cs[1..])
  }

  lemma PointThenText(c: nat, rest: seq<byte>)
    requires CodePoint(c)
    ensures ValidUtf8(Octets(c) + rest) <==> ValidUtf8(rest)
  {
    var s := Octets(c) + rest;
    assert s[|Octets(c)|..] == rest;
  }

  lemma {:induction false} PointsAreText(cs: seq<nat>)
    requires CodePoints(cs)
    ensures ValidUtf8(EncodePoints(cs))
  {
    if cs != [] {
      PointsAreText(cs[1..]);
      PointThenText(cs[0], EncodePoints(cs[1..]));
    }
  }

  lemma Group(high: nat, low: nat)
    requires low < 64
    ensures (64 * high + low) / 64 == high && (64 * high + low) % 64 == low
  {}

  lemma TwoOctets(a: int, b: int)
    requires 0xC2 <= a <= 0xDF && 0x80 <= b <= 0xBF
    ensures var c := 64 * (a - 0xC0) + (b - 0x80); 0 <= c && CodePoint(c) && Octets(c) == [a, b]
  {
    Group(a - 0xC0, b - 0x80);
  }

  lemma ThreeOctets(a: int, b: int, d: int)
    requires 0xE0 <= a <= 0xEF && 0x80 <= b <= 0xBF && 0x80 <= d <= 0xBF
    requires (a == 0xE0 ==> b >= 0xA0) && (a == 0xED ==> b <= 0x9F)
    ensures var c := 64 * (64 * (a - 0xE0) + (b - 0x80)) + (d - 0x80); 0 <= c && CodePoint(c) && Octets(c) == [a, b, d]
  {
    var high := 64 * (a - 0xE0) + (b - 0x80);
    var c := 64 * high + (d - 0x80);
    Group(high, d - 0x80);
    Group(a - 0xE0, b - 0x80);
    assert 0x800 <= c < 0x1_0000 && CodePoint(c);
    assert c / 4096 == c / 64 / 64;
  }

  lemma FourOctets(a: int, b: int, d: int, e: int)
    requires 0xF0 <= a <= 0xF4 && 0x80 <= b <= 0xBF && 0x80 <= d <= 0xBF && 0x80 <= e <= 0xBF
    requires (a == 0xF0 ==> b >= 0x90) && (a == 0xF4 ==> b <= 0x8F)
    ensures var c := 64 * (64 * (64 * (a - 0xF0) + (b - 0x80)) + (d - 0x80)) + (e - 0x80);
            0 <= c && CodePoint(c) && Octets(c) == [a, b, d, e]
  {
    var top := 64 * (a - 0xF0) + (b - 0x80);
    var high := 64 * top + (d - 0x80);
    var c := 64 * high + (e - 0x80);
    Group(high, e - 0x80);
    Group(top, d - 0x80);
    Group(a - 0xF0, b - 0x80);
    assert 0x1_0000 <= c < 0x11_0000;
    assert c / 4096 == c / 64 / 64 && c / 262_144 == c / 64 / 64 / 64;
  }

  /** The first code point of a text. */
  lemma FirstPoint(s: seq<byte>) returns (c: nat, n: nat)
    requires ValidUtf8(s) && s != []
    ensures CodePoint(c) && 1 <= n <= |s| && Octets(c) == s[..n] && ValidUtf8(s[n..])
  {
    var a: int := s[0];
    if a <= 0x7F {
      c, n := a, 1;
    } else if a <= 0xDF {
      var b: int := s[1];
      TwoOctets(a, b);
      c, n := 64 * (a - 0xC0) + (b - 0x80), 2;
    } else if a <= 0xEF {
      var b: int, d: int := s[1], s[2];
      ThreeOctets(a, b, d);
      c, n := 64 * (64 * (a - 0xE0) + (b - 0x80)) + (d - 0x80), 3;
    } else {
      var b: int, d: int, e: int := s[1], s[2], s[3];
      FourOctets(a, b, d, e);
      c, n := 64 * (64 * (64 * (a - 0xF0) + (b - 0x80)) + (d - 0x80)) + (e - 0x80), 4;
    }
  }

  lemma {:induction false} TextIsPoints(s: seq<byte>) returns (cs: seq<nat>)
    requires ValidUtf8(s)
    ensures CodePoints(cs) && EncodePoints(cs) == s
    decreases |s|
  {
    if s == [] {
      cs := [];
    } else {
      var c, n := FirstPoint(s);
      var tail := TextIsPoints(s[n..]);
      cs := [c] + tail;
      assert s == s[..n] + s[n..] && cs[1..] == tail;
    }
  }

  /** The check accepts exactly the encodings of code points. */
  lemma TextExact(s: seq<byte>)
    ensures ValidUtf8(s) <==> exists cs :: CodePoints(cs) && EncodePoints(cs) == s
  {
    if ValidUtf8(s) { var cs := TextIsPoints(s); }
    if cs :| CodePoints(cs) && EncodePoints(cs) == s { PointsAreText(cs); }
  }

  lemma LeadTellsLength(c: nat, d: nat)
    requires CodePoint(c) && CodePoint(d) && Octets(c)[0] == Octets(d)[0]
    ensures |Octets(c)| == |Octets(d)|
  {}

  /** A number is put together from its groups again. */
  lemma Regrouped(c: nat)
    ensures c == 64 * (c / 64) + c % 64
    ensures c == 4096 * (c / 4096) + 64 * (c / 64 % 64) + c % 64
    ensures c == 262_144 * (c / 262_144) + 4096 * (c / 4096 % 64) + 64 * (c / 64 % 64) + c % 64
  {
    assert c / 4096 == c / 64 / 64 && c / 262_144 == c / 64 / 64 / 64;
  }

  lemma OctetsUnique(c: nat, d: nat)
    requires CodePoint(c) && CodePoint(d) && Octets(c) == Octets(d)
    ensures c == d
  {
    var x, y := Octets(c), Octets(d);
    Regrouped(c);
    Regrouped(d);
    assert x[0] == y[0];
    if |x| > 1 { assert x[1] == y[1]; }
    if |x| > 2 { assert x[2] == y[2]; }
    if |x| > 3 { assert x[3] == y[3]; }
  }

  lemma PointsPrefix(c: nat, d: nat, x: seq<byte>, y: seq<byte>)
    requires CodePoint(c) && CodePoint(d) && Octets(c) + x == Octets(d) + y
    ensures c == d && x == y
  {
    var s, n := Octets(c) + x, |Octets(c)|;
    assert Octets(c)[0] == s[0] && Octets(d)[0] == (Octets(d) + y)[0];
    LeadTellsLength(c, d);
    SplitAlike(Octets(c), x, Octets(d), y);
    OctetsUnique(c, d);
  }

  lemma SplitAlike(a: seq<byte>, x: seq<byte>, b: seq<byte>, y: seq<byte>)
    requires a + x == b + y && |a| == |b|
    ensures a == b && x == y
  {
    assert a == (a + x)[..|a|] && b == (b + y)[..|b|];
    assert x == (a + x)[|a|..] && y == (b + y)[|b|..];
  }

  /** And a text is the encoding of one sequence of code points only. */
  lemma {:induction false} PointsUnique(cs: seq<nat>, ds: seq<nat>)
    requires CodePoints(cs) && CodePoints(ds) && EncodePoints(cs) == EncodePoints(ds)
    ensures cs == ds
  {
    if cs != [] && ds != [] {
      PointsPrefix(cs[0], ds[0], EncodePoints(cs[1..]), EncodePoints(ds[1..]));
      PointsUnique(cs[1..], ds[1..]);
      assert cs == [cs[0]] + cs[1..] && ds == [ds[0]] + ds[1..];
    }
  }
}
