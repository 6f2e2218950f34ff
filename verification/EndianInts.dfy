/** Fixed-width little-endian integers as utils/utils.go reads them. */
module EndianInts {
  import opened Arithmetic
  import opened Bytes

  const TWO_TO_32 := 0x1_0000_0000
  const TWO_TO_64 := 0x1_0000_0000_0000_0000

  // ---------- Little-endian integers ----------

  lemma {:induction false} LEAppend(a: seq<byte>, b: seq<byte>)
    ensures LE(a + b) == LE(a) + Pow256(|a|) * LE(b)
  {
    hide Val;
    if a == [] {
      assert a + b == b;
    } else {
      LEAppend(a[1..], b);
      assert (a + b)[1..] == a[1..] + b;
      MulAssociates(256, Pow256(|a| - 1), LE(b));
    }
  }

  lemma LESnoc(b: seq<byte>, i: nat)
    requires i < |b|
    ensures LE(b[..i + 1]) == LE(b[..i]) + Val(b[i]) * Pow256(i)
  {
    hide Val;
    LEAppend(b[..i], [b[i]]);
    assert b[..i + 1] == b[..i] + [b[i]];
    assert LE([b[i]]) == Val(b[i]);
  }

  lemma SumModulo(a: nat, b: nat)
    ensures (a % TWO_TO_64 + b % TWO_TO_64) % TWO_TO_64 == (a + b) % TWO_TO_64
  {
  }

  /** Sums the bytes shifted into place, in 64-bit arithmetic. */
  method ReadEndianUInt(barray: seq<byte>) returns (sum: nat)
    ensures sum == LE(barray) % TWO_TO_64
  {
    hide Val;
    sum := 0;
    var index, weight := 0, 1;
    while index < |barray|
      invariant 0 <= index <= |barray|
      invariant weight == Pow256(index)
      invariant sum == LE(barray[..index]) % TWO_TO_64
    {
      LESnoc(barray, index);
      SumModulo(LE(barray[..index]), Val(barray[index]) * weight);
      sum := (sum + Val(barray[index]) * weight % TWO_TO_64) % TWO_TO_64;
      index, weight := index + 1, 256 * weight;
    }
    assert barray[..index] == barray;
  }

  /** The two's-complement little-endian value of a byte string of any width. */
  function SignedLE(b: seq<byte>): int
  {
    if b == [] then 0
    else if Val(b[|b| - 1]) >= 128 then LE(b) - Pow256(|b|)
    else LE(b)
  }

  predicate FitsInt32(v: int)
  {
    -(TWO_TO_32 / 2) <= v < TWO_TO_32 / 2
  }

  /** A 32-bit word as int32. */
  function AsInt32(w: nat): int
    requires w < TWO_TO_32
  {
    if w >= TWO_TO_32 / 2 then w - TWO_TO_32 else w
  }

  /** Four bytes of sign filler with the argument copied over them. */
  function SignExtended(b: seq<byte>): (r: seq<byte>)
    ensures |r| == 4
  {
    var filler: byte := if b != [] && b[|b| - 1] & 0x80 != 0 then 0xff else 0x00;
    Overlay([filler, filler, filler, filler], 0, b)
  }

  lemma WordBound(b: seq<byte>)
    requires |b| == 4
    ensures LE(b) < TWO_TO_32
  {
    LEBound(b);
    assert Pow256(2) == 0x1_0000;
  }

  method ReadEndianInt(barray: seq<byte>) returns (v: int)
    ensures LE(SignExtended(barray)) < TWO_TO_32
    ensures v == AsInt32(LE(SignExtended(barray)))
  {
    var fill: byte := 0x00;
    if |barray| > 0 && barray[|barray| - 1] & 0x80 != 0 {
      fill := 0xff;
    }
    var buf := new byte[4](_ => fill);
    assert buf[..] == [fill, fill, fill, fill];
    Copy(buf, 0, barray);
    WordBound(buf[..]);
    v := AsInt32(LE(buf[..]));
  }

  function DecodedInt(b: seq<byte>): int
  {
    WordBound(SignExtended(b));
    AsInt32(LE(SignExtended(b)))
  }

  lemma SignBit(x: byte)
    ensures x & 0x80 != 0 <==> Val(x) >= 128
  {
  }

  lemma {:induction false} Fillers(k: nat, filler: byte)
    requires filler == 0 || filler == 0xff
    ensures LE(seq(k, _ => filler)) == if filler == 0 then 0 else Pow256(k) - 1
  {
    if k > 0 {
      Fillers(k - 1, filler);
      assert seq(k, _ => filler)[1..] == seq(k - 1, _ => filler);
    }
  }

  lemma {:induction false} PowSum(i: nat, j: nat)
    ensures Pow256(i + j) == Pow256(i) * Pow256(j)
  {
    if i > 0 {
      PowSum(i - 1, j);
    }
  }

  lemma {:induction false} PowMonotone(i: nat, j: nat)
    requires i <= j
    ensures Pow256(i) <= Pow256(j)
  {
    if i < j {
      PowMonotone(i, j - 1);
    }
  }

  lemma TopByte(b: seq<byte>)
    requires b != []
    ensures LE(b) == LE(b[..|b| - 1]) + Val(b[|b| - 1]) * Pow256(|b| - 1)
    ensures Val(b[|b| - 1]) >= 128 ==> LE(b) >= 128 * Pow256(|b| - 1)
    ensures Val(b[|b| - 1]) < 128 ==> LE(b) < 128 * Pow256(|b| - 1)
  {
    hide Val;
    LESnoc(b, |b| - 1);
    assert b[..|b|] == b;
    LEBound(b[..|b| - 1]);
    var t, p := Val(b[|b| - 1]), Pow256(|b| - 1);
    if t >= 128 {
      MulMonotone(128, t, p);
    } else {
      MulMonotone(t, 127, p);
    }
  }

  lemma Powers()
    ensures Pow256(0) == 1 && Pow256(1) == 0x100 && Pow256(2) == 0x1_0000
    ensures Pow256(3) == 0x100_0000 && Pow256(4) == TWO_TO_32
  {
    assert Pow256(2) == 0x1_0000;
  }

  lemma ShortSignExtension(b: seq<byte>)
    requires 0 < |b| <= 4
    ensures DecodedInt(b) == SignedLE(b) && FitsInt32(SignedLE(b))
  {
    hide Val;
    var n := |b|;
    var filler: byte := if b[n - 1] & 0x80 != 0 then 0xff else 0x00;
    var tail := seq(4 - n, _ => filler);
    assert SignExtended(b) == b + tail;
    LEAppend(b, tail);
    assert Pow256(n) * LE(tail) == if filler == 0 then 0 else TWO_TO_32 - Pow256(n) by {
      Fillers(4 - n, filler);
      Powers();
      assert n == 1 || n == 2 || n == 3 || n == 4;
    }
    assert 128 * Pow256(n - 1) <= TWO_TO_32 / 2 && Pow256(n) == 256 * Pow256(n - 1) by {
      Powers();
      assert n == 1 || n == 2 || n == 3 || n == 4;
    }
    LEBound(b);
    SignBit(b[n - 1]);
    TopByte(b);
  }

  lemma ModTwoTo32(x: int, y: int, k: int)
    requires x - y == k * TWO_TO_32 && FitsInt32(x) && FitsInt32(y)
    ensures x == y
  {
  }

  lemma LongTruncation(b: seq<byte>)
    requires |b| > 4
    ensures FitsInt32(DecodedInt(b)) && exists k: int :: SignedLE(b) - DecodedInt(b) == k * TWO_TO_32
  {
    hide Val;
    WordBound(b[..4]);
    assert SignExtended(b) == b[..4];
    assert b == b[..4] + b[4..];
    LEAppend(b[..4], b[4..]);
    Powers();
    PowSum(4, |b| - 4);
    var low := LE(b[..4]);
    var q := if Val(b[|b| - 1]) >= 128 then LE(b[4..]) - Pow256(|b| - 4) else LE(b[4..]);
    assert SignedLE(b) == low + q * TWO_TO_32;
    var k := if low >= TWO_TO_32 / 2 then q + 1 else q;
    assert SignedLE(b) - DecodedInt(b) == k * TWO_TO_32;
  }

  /** ReadEndianInt returns the two's-complement value of its bytes exactly when that value fits 32 bits. */
  lemma DecodedIntExact(b: seq<byte>)
    ensures DecodedInt(b) == SignedLE(b) <==> FitsInt32(SignedLE(b))
    ensures |b| <= 4 ==> FitsInt32(SignedLE(b))
  {
    if |b| == 0 {
      assert SignExtended(b) == [0, 0, 0, 0];
      assert DecodedInt(b) == 0 by {
        Fillers(4, 0);
        assert seq(4, _ => 0 as byte) == [0, 0, 0, 0];
      }
    } else if |b| <= 4 {
      ShortSignExtension(b);
    } else {
      LongTruncation(b);
      if FitsInt32(SignedLE(b)) {
        var k: int :| SignedLE(b) - DecodedInt(b) == k * TWO_TO_32;
        ModTwoTo32(SignedLE(b), DecodedInt(b), k);
      }
    }
  }

  /** A five-byte offset of 2^32 decodes to zero, the mark of a sparse run. */
  lemma LongOffsetLost()
    ensures var b: seq<byte> := [0, 0, 0, 0, 1]; SignedLE(b) == TWO_TO_32 && DecodedInt(b) == 0
  {
    var b: seq<byte> := [0, 0, 0, 0, 1];
    var zeros: seq<byte> := seq(4, _ => 0);
    Fillers(4, 0);
    Powers();
    assert SignExtended(b) == zeros;
    assert b == zeros + [1];
    assert LE([1]) == Val(1) == 1;
    LEAppend(zeros, [1]);
  }
}
