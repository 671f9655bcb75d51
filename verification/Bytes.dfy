/** Bytes, little-endian fields and the few sequence operations every component shares:
    writing over a stretch of bytes, slices of slices, and words read from and written to bytes. */
module Bytes {

  type u8 = x: int | 0 <= x < 0x100

  const U32_LIMIT: nat := 0x1_0000_0000
  const U64_LIMIT: nat := 0x1_0000_0000_0000_0000

  function Min(a: nat, b: nat): (r: nat)
    ensures r <= a && r <= b && (r == a || r == b)
  {
    if a < b then a else b
  }

  function Max(a: nat, b: nat): (r: nat)
    ensures a <= r && b <= r && (r == a || r == b)
  {
    if a < b then b else a
  }

  function Zeros(n: nat): (r: seq<u8>)
    ensures |r| == n
  {
    seq(n, i => 0)
  }

  /** The bytes `b` with `w` written over them from position `at`. */
  function Overlay(b: seq<u8>, at: nat, w: seq<u8>): (r: seq<u8>)
    requires at + |w| <= |b|
    ensures |r| == |b|
  {
    b[..at] + w + b[at + |w|..]
  }

  lemma {:induction false} SliceOfSlice(b: seq<u8>, lo: nat, hi: nat, at: nat, end: nat)
    requires lo <= hi <= |b| && at <= end <= hi - lo
    ensures b[lo..hi][at..end] == b[lo + at..lo + end]
  {
    forall i | 0 <= i < end - at
      ensures b[lo..hi][at..end][i] == b[lo + at..lo + end][i]
    {
    }
  }

  lemma {:induction false} OverlayElsewhere(b: seq<u8>, at: nat, w: seq<u8>, lo: nat, hi: nat)
    requires at + |w| <= |b| && lo <= hi <= |b|
    requires hi <= at || at + |w| <= lo
    ensures Overlay(b, at, w)[lo..hi] == b[lo..hi]
  {
  }

  /** A write commutes with appending bytes behind the written area. */
  lemma {:induction false} OverlayGrow(b: seq<u8>, at: nat, w: seq<u8>, tail: seq<u8>)
    requires at + |w| <= |b|
    ensures Overlay(b, at, w) + tail == Overlay(b + tail, at, w)
  {
  }

  /** Rewriting a window of `b` with part of it replaced replaces that part of `b`. */
  lemma {:induction false} OverlayWindow(b: seq<u8>, lo: nat, hi: nat, at: nat, w: seq<u8>)
    requires lo + at + |w| <= hi <= |b|
    ensures Overlay(b, lo, Overlay(b[lo..hi], at, w)) == Overlay(b, lo + at, w)
  {
  }

  // ---------------------------------------------------------------- little-endian fields

  /** The number whose little-endian bytes are `s`. */
  function FromLE(s: seq<u8>): nat {
    if s == [] then 0 else s[0] as int + 0x100 * FromLE(s[1..])
  }

  /** The low `n` bytes of `v`, least significant first. */
  function ToLE(v: nat, n: nat): (r: seq<u8>)
    ensures |r| == n
    decreases n
  {
    if n == 0 then [] else [v % 0x100] + ToLE(v / 0x100, n - 1)
  }

  function Pow256(n: nat): (r: nat)
    ensures 0 < r
  {
    if n == 0 then 1 else 0x100 * Pow256(n - 1)
  }

  lemma {:induction false} FromLEBound(s: seq<u8>)
    ensures FromLE(s) < Pow256(|s|)
  {
    if s != [] {
      FromLEBound(s[1..]);
    }
  }

  lemma {:induction false} FromLEOfToLE(v: nat, n: nat)
    requires v < Pow256(n)
    ensures FromLE(ToLE(v, n)) == v
    decreases n
  {
    if n > 0 {
      FromLEOfToLE(v / 0x100, n - 1);
      assert ToLE(v, n)[1..] == ToLE(v / 0x100, n - 1);
    }
  }

  /** The `n` bytes whose little-endian value is `v`: what a store leaves in memory. */
  ghost function Enc(v: nat, n: nat): (r: seq<u8>)
    requires v < Pow256(n)
    ensures |r| == n && FromLE(r) == v
  {
    FromLEOfToLE(v, n);
    var r :| |r| == n && FromLE(r) == v;
    r
  }

  lemma {:induction false} FromLEInjective(s: seq<u8>, t: seq<u8>)
    requires |s| == |t| && FromLE(s) == FromLE(t)
    ensures s == t
  {
    if s != [] {
      FromLEInjective(s[1..], t[1..]);
      assert s == [s[0]] + s[1..] && t == [t[0]] + t[1..];
    }
  }

  /** The stored bytes are the shifted ones the code computes. */
  lemma {:induction false} EncIsToLE(v: nat, n: nat)
    requires v < Pow256(n)
    ensures Enc(v, n) == ToLE(v, n)
  {
    FromLEOfToLE(v, n);
    FromLEInjective(Enc(v, n), ToLE(v, n));
  }

  ghost function Enc32(v: nat): (r: seq<u8>)
    requires v < U32_LIMIT
    ensures |r| == 4 && FromLE(r) == v
  {
    Enc(v, 4)
  }

  function Le16(s: seq<u8>, at: nat): nat
    requires at + 2 <= |s|
  {
    FromLE(s[at..at + 2])
  }

  function Le32(s: seq<u8>, at: nat): nat
    requires at + 4 <= |s|
  {
    FromLE(s[at..at + 4])
  }

  function Le64(s: seq<u8>, at: nat): nat
    requires at + 8 <= |s|
  {
    FromLE(s[at..at + 8])
  }

  lemma {:induction false} Le16IsSum(s: seq<u8>, at: nat)
    requires at + 2 <= |s|
    ensures Le16(s, at) == s[at] as int + 0x100 * s[at + 1] as int
  {
    var w := s[at..at + 2];
    assert w[1..][1..] == [];
    assert FromLE(w[1..]) == w[1] as int + 0x100 * FromLE(w[1..][1..]);
  }

  /** A 32-bit field is the sum of its shifted bytes, as the driver assembles it. */
  lemma {:induction false} Le32IsSum(s: seq<u8>, at: nat)
    requires at + 4 <= |s|
    ensures Le32(s, at) ==
            s[at] as int + 0x100 * s[at + 1] as int + 0x1_0000 * s[at + 2] as int + 0x100_0000 * s[at + 3] as int
    ensures Le32(s, at) < U32_LIMIT
  {
    var w := s[at..at + 4];
    assert w[1..][1..] == w[2..] && w[2..][1..] == w[3..] && w[3..][1..] == [];
    assert FromLE(w[3..]) == w[3] as int;
    assert FromLE(w[2..]) == w[2] as int + 0x100 * FromLE(w[3..]);
    assert FromLE(w[1..]) == w[1] as int + 0x100 * FromLE(w[2..]);
  }

  /** The value modulo 2^28: what masking with 0x0FFFFFFF leaves. */
  function Low28(v: nat): (r: nat)
    ensures r < 0x1000_0000
  {
    if v < 0x1000_0000 then v else Low28(v - 0x1000_0000)
  }

  lemma {:induction false} Low28IsMask(v: nat)
    ensures Low28(v) == v % 0x1000_0000
  {
    if v >= 0x1000_0000 {
      Low28IsMask(v - 0x1000_0000);
    }
  }
}
