/** Bytes and little-endian numbers, shared by every decoder. */
module Bytes {

  const TWO_TO_63 := 0x8000_0000_0000_0000

  type byte = bv8

  function Zeros(n: nat): seq<byte>
  {
    seq(n, _ => 0)
  }

  function Min(a: int, b: int): int
  {
    if a < b then a else b
  }

  function Val(b: byte): (n: nat)
    ensures n < 256
  {
    b as int
  }

  /** The byte of value n. */
  function ToByte(n: nat): (b: byte)
    requires n < 256
    ensures Val(b) == n
  {
    if n == 0 then 0 else ToByte(n - 1) + 1
  }

  lemma ValInjective(a: byte, b: byte)
    requires Val(a) == Val(b)
    ensures a == b
  {
  }

  /** dst with src copied over it from position at on, cut off at its end. */
  function Overlay(dst: seq<byte>, at: nat, src: seq<byte>): (r: seq<byte>)
    requires at <= |dst|
    ensures |r| == |dst|
  {
    var n := Min(|dst| - at, |src|);
    dst[..at] + src[..n] + dst[at + n..]
  }

  /** Copying the next piece of a result behind what is already there. */
  lemma OverlayNext(m: seq<byte>, src: seq<byte>, orig: seq<byte>)
    requires |m| + |src| <= |orig|
    ensures Overlay(m + orig[|m|..], |m|, src) == m + src + orig[|m| + |src|..]
  {
  }

  /** Copying a cut-off piece behind a cut-off result gives the cut-off whole. */
  lemma OverlayCapped(orig: seq<byte>, m: seq<byte>, piece: seq<byte>, whole: seq<byte>)
    requires |piece| <= |whole| && piece == whole[..|piece|]
    requires |piece| == |whole| || |piece| >= |orig| - |m|
    ensures Overlay(Overlay(orig, 0, m), Min(|m|, |orig|), piece) == Overlay(orig, 0, m + whole)
  {
    var c := Min(|m|, |orig|);
    forall k | 0 <= k < |orig|
      ensures Overlay(Overlay(orig, 0, m), c, piece)[k] == Overlay(orig, 0, m + whole)[k]
    {
    }
  }

  /** Go's copy(dst[at:], src). */
  method Copy(dst: array<byte>, at: nat, src: seq<byte>)
    requires at <= dst.Length
    modifies dst
    ensures dst[..] == Overlay(old(dst[..]), at, src)
  {
    var n := Min(dst.Length - at, |src|);
    forall k | 0 <= k < n {
      dst[at + k] := src[k];
    }
  }

  /** The unsigned little-endian value of a byte string. */
  function LE(b: seq<byte>): nat
  {
    if b == [] then 0 else Val(b[0]) + 256 * LE(b[1..])
  }

  /** The low n little-endian bytes of a number. */
  function LEBytes(v: nat, n: nat): (b: seq<byte>)
    ensures |b| == n
  {
    if n == 0 then [] else [ToByte(v % 256)] + LEBytes(v / 256, n - 1)
  }

  /** The first byte counts least. */
  lemma LeastFirst(a: byte, b: byte, c: byte)
    ensures LE([a, b, c]) == Val(a) + 256 * Val(b) + 65536 * Val(c)
  {
    hide Val;
    assert [a, b, c][1..] == [b, c] && [b, c][1..] == [c] && [c][1..] == [];
    assert LE([c]) == Val(c) + 256 * LE([]);
  }

  function Pow256(n: nat): nat
  {
    if n == 0 then 1 else 256 * Pow256(n - 1)
  }

  lemma {:induction false} LEBound(b: seq<byte>)
    ensures LE(b) < Pow256(|b|)
  {
    if b != [] {
      LEBound(b[1..]);
    }
  }

  /** A slice of a suffix is a slice of the whole. */
  lemma SliceOfDrop<T>(s: seq<T>, k: nat, lo: nat, hi: nat)
    requires k <= |s| && lo <= hi <= |s| - k
    ensures s[k..][lo..hi] == s[k + lo..k + hi]
  {
  }

  lemma SliceOfSlice<T>(s: seq<T>, lo: nat, hi: nat, a: nat, b: nat)
    requires lo <= hi <= |s| && a <= b <= hi - lo
    ensures s[lo..hi][a..b] == s[lo + a..lo + b]
  {
    forall i | 0 <= i < b - a
      ensures s[lo..hi][a..b][i] == s[lo + a..lo + b][i]
    {
    }
  }

  lemma SplitSlice<T>(s: seq<T>, lo: nat, mid: nat, hi: nat)
    requires lo <= mid <= hi <= |s|
    ensures s[lo..hi] == s[lo..mid] + s[mid..hi]
  {
    assert s[lo..hi] == s[lo..mid] + s[mid..hi];
  }

  lemma SplitEqual<T>(a: seq<T>, b: seq<T>, c: seq<T>, d: seq<T>)
    requires |a| == |c|
    ensures a + b == c + d <==> a == c && b == d
  {
    if a + b == c + d {
      assert a == (a + b)[..|a|] == c && b == (a + b)[|a|..] == d;
    }
  }

  /** Writing a number and reading it back keeps it, if it fits. */
  lemma {:induction false} LEOfBytes(v: nat, n: nat)
    requires v < Pow256(n)
    ensures LE(LEBytes(v, n)) == v
  {
    hide ToByte, Val;
    if n != 0 {
      LEOfBytes(v / 256, n - 1);
      var b := LEBytes(v, n);
      assert b[0] == ToByte(v % 256) && b[1..] == LEBytes(v / 256, n - 1);
    }
  }

  /** Reading bytes and writing the value back gives the same bytes. */
  lemma {:induction false} BytesOfLE(b: seq<byte>)
    ensures LEBytes(LE(b), |b|) == b
  {
    hide ToByte, Val;
    if b != [] {
      BytesOfLE(b[1..]);
      var v := LE(b);
      assert v == Val(b[0]) + 256 * LE(b[1..]);
      assert v % 256 == Val(b[0]) && v / 256 == LE(b[1..]);
      ValInjective(ToByte(Val(b[0])), b[0]);
      assert b == [b[0]] + b[1..];
    }
  }
}
