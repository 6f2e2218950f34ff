/**
  AES-CCM as the BitLocker key unwrapping uses it (disk/Bitlocker/decryption/aes-ccm.go), against
  sections 2.2 to 2.4 of RFC 3610 with M = 16 and L = 3.
*/
module Ccm {
  import opened Bytes
  import opened BlockCipher
  import opened Cbc
  import opened Wrappers

  // ---------- Formatting into blocks ----------

  /** The low 24 bits of a number, most significant byte first. */
  function BE3(v: nat): (b: seq<byte>)
    ensures |b| == 3
  {
    [ToByte(v / 65536 % 256), ToByte(v / 256 % 256), ToByte(v % 256)]
  }

  function BE2(v: nat): (b: seq<byte>)
    ensures |b| == 2
  {
    [ToByte(v / 256 % 256), ToByte(v % 256)]
  }

  /** The flags of the first block: the tag and length widths, and whether there is associated data. */
  function Flags(hasAad: bool): byte
  {
    if hasAad then 0x7a else 0x3a
  }

  function FirstBlock(nonce: seq<byte>, hasAad: bool, length: nat): Block
    requires |nonce| == 12
  {
    [Flags(hasAad)] + nonce + BE3(length)
  }

  /** A byte string filled up with zeros to whole blocks. */
  function Pad(b: seq<byte>): (r: seq<byte>)
    ensures |r| % 16 == 0 && |b| <= |r| < |b| + 16 && r[..|b|] == b
  {
    b + Zeros((16 - |b| % 16) % 16)
  }

  function AadBlocks(aad: seq<byte>): (r: seq<byte>)
    ensures |r| % 16 == 0
  {
    if aad == [] then [] else Pad(BE2(|aad|) + aad)
  }

  /** Everything the MAC runs over, as bytes: a whole number of blocks. */
  function Format(nonce: seq<byte>, aad: seq<byte>, data: seq<byte>): seq<byte>
    requires |nonce| == 12
  {
    FirstBlock(nonce, aad != [], |data|) + AadBlocks(aad) + Pad(data)
  }

  lemma ThreeDigits(v: nat)
    requires v < 0x100_0000
    ensures v == 65536 * (v / 65536 % 256) + 256 * (v / 256 % 256) + v % 256
  {
    assert v / 65536 % 256 == v / 65536;
    assert v / 256 == 256 * (v / 256 / 256) + v / 256 % 256;
    assert v / 256 / 256 == v / 65536;
  }

  lemma BE3Value(v: nat)
    requires v < 0x100_0000
    ensures var b := BE3(v); 65536 * Val(b[0]) + 256 * Val(b[1]) + Val(b[2]) == v
  {
    hide ToByte, Val;
    ThreeDigits(v);
  }

  lemma BE2Value(v: nat)
    requires v < 0x1_0000
    ensures var b := BE2(v); 256 * Val(b[0]) + Val(b[1]) == v
  {
    hide ToByte, Val;
  }

  /** The first block as section 2.2 of RFC 3610 lays it out for a tag of 16 bytes and a length of 3: the flags are 64 if
      there is associated data, (16 - 2) / 2 times 8, and 3 - 1; then come the nonce and the length, its high byte first. */
  lemma FirstBlockLayout(nonce: seq<byte>, hasAad: bool, length: nat)
    requires |nonce| == 12 && length < 0x100_0000
    ensures var b := FirstBlock(nonce, hasAad, length);
            Val(b[0]) == (if hasAad then 64 else 0) + (16 - 2) / 2 * 8 + (3 - 1) && b[1..13] == nonce &&
            65536 * Val(b[13]) + 256 * Val(b[14]) + Val(b[15]) == length
  {
    hide BE3;
    BE3Value(length);
  }

  /** And the counter block as section 2.3 does: the flags are 3 - 1, then come the nonce and the counter. */
  lemma CounterLayout(nonce: seq<byte>, i: nat)
    requires |nonce| == 12 && i < 0x100_0000
    ensures var b := CounterBlock(nonce, i);
            Val(b[0]) == 3 - 1 && b[1..13] == nonce && 65536 * Val(b[13]) + 256 * Val(b[14]) + Val(b[15]) == i
  {
    hide BE3;
    BE3Value(i);
  }

  /** What follows the first block: the associated data behind their length in two bytes, then the message, each filled up
      with zeros to whole blocks, and nothing for no associated data. */
  lemma FormatLayout(nonce: seq<byte>, aad: seq<byte>, data: seq<byte>)
    requires |nonce| == 12 && |aad| < 0xff00
    ensures var f := Format(nonce, aad, data);
            var a := if aad == [] then 0 else (|aad| + 2 + 15) / 16 * 16;
            |f| == 16 + a + (|data| + 15) / 16 * 16 && f[..16] == FirstBlock(nonce, aad != [], |data|) &&
            f[16 + a..16 + a + |data|] == data && (forall k | 16 + a + |data| <= k < |f| :: f[k] == 0) &&
            (aad != [] ==>
               256 * Val(f[16]) + Val(f[17]) == |aad| && f[18..18 + |aad|] == aad &&
               forall k | 18 + |aad| <= k < 16 + a :: f[k] == 0)
  {
    hide FirstBlock, ToByte, Val, BE2, Pad, AadBlocks;
    var first: seq<byte>, p := FirstBlock(nonce, aad != [], |data|), AadBlocks(aad);
    PadLayout(data);
    AadLayout(aad);
    InThree(first, p, Pad(data), |data|, |aad|);
    assert Format(nonce, aad, data) == first + p + Pad(data);
  }

  lemma AadLayout(aad: seq<byte>)
    requires |aad| < 0xff00
    ensures var p := AadBlocks(aad);
            |p| == (if aad == [] then 0 else (|aad| + 2 + 15) / 16 * 16) &&
            (aad != [] ==>
               256 * Val(p[0]) + Val(p[1]) == |aad| && p[2..2 + |aad|] == aad && forall k | 2 + |aad| <= k < |p| :: p[k] == 0)
  {
    hide ToByte, Val, BE2, Pad;
    BE2Value(|aad|);
    var raw := BE2(|aad|) + aad;
    PadLayout(raw);
    if aad != [] {
      var p := Pad(raw);
      assert p[..2] == BE2(|aad|) && p[0] == raw[0] && p[1] == raw[1];
      assert p[2..2 + |aad|] == p[..|raw|][2..] == aad;
    }
  }

  /** The places in three strings that follow each other. */
  lemma InThree(a: seq<byte>, b: seq<byte>, c: seq<byte>, n: nat, m: nat)
    requires |a| == 16 && n <= |c| && (b != [] ==> m + 2 <= |b|)
    ensures var f := a + b + c;
            f[..16] == a && f[16 + |b|..16 + |b| + n] == c[..n] &&
            (forall k | 16 + |b| + n <= k < |f| :: f[k] == c[k - 16 - |b|]) &&
            (b != [] ==>
               f[16] == b[0] && f[17] == b[1] && f[18..18 + m] == b[2..2 + m] &&
               forall k | 18 + m <= k < 16 + |b| :: f[k] == b[k - 16])
  {
  }

  lemma PadLayout(b: seq<byte>)
    ensures |Pad(b)| == (|b| + 15) / 16 * 16 && Pad(b)[..|b|] == b && forall k | |b| <= k < |Pad(b)| :: Pad(b)[k] == 0
  {
  }

  lemma BE3Injective(v: nat, w: nat)
    requires v < 0x100_0000 && w < 0x100_0000 && BE3(v) == BE3(w)
    ensures v == w
  {
    hide ToByte, Val;
    ThreeDigits(v);
    ThreeDigits(w);
    assert BE3(v)[0] == BE3(w)[0] && BE3(v)[1] == BE3(w)[1] && BE3(v)[2] == BE3(w)[2];
  }

  lemma BE2Injective(v: nat, w: nat)
    requires v < 0x1_0000 && w < 0x1_0000 && BE2(v) == BE2(w)
    ensures v == w
  {
    hide ToByte, Val;
    assert BE2(v)[0] == BE2(w)[0] && BE2(v)[1] == BE2(w)[1];
  }

  lemma FirstBlockInjective(n1: seq<byte>, h1: bool, l1: nat, n2: seq<byte>, h2: bool, l2: nat)
    requires |n1| == 12 && |n2| == 12 && l1 < 0x100_0000 && l2 < 0x100_0000
    requires FirstBlock(n1, h1, l1) == FirstBlock(n2, h2, l2)
    ensures n1 == n2 && h1 == h2 && l1 == l2
  {
    hide ToByte, Val, BE3;
    var b1, b2 := FirstBlock(n1, h1, l1), FirstBlock(n2, h2, l2);
    assert b1[0] == Flags(h1) && b2[0] == Flags(h2);
    assert b1[1..13] == n1 && b2[1..13] == n2;
    assert b1[13..] == BE3(l1) && b2[13..] == BE3(l2);
    BE3Injective(l1, l2);
  }

  lemma AadPrefix(a1: seq<byte>, rest1: seq<byte>, a2: seq<byte>, rest2: seq<byte>)
    requires |a1| < 0xff00 && |a2| < 0xff00 && (a1 == [] <==> a2 == [])
    requires AadBlocks(a1) + rest1 <= AadBlocks(a2) + rest2
    ensures a1 == a2 && rest1 <= rest2
  {
    hide ToByte, Val, Zeros;
    if a1 != [] {
      var p1, p2 := BE2(|a1|) + a1, BE2(|a2|) + a2;
      var w1, w2 := Pad(p1) + rest1, Pad(p2) + rest2;
      assert forall k | 0 <= k < |p1| :: w1[k] == Pad(p1)[k] == p1[k];
      assert forall k | 0 <= k < |p2| :: w2[k] == Pad(p2)[k] == p2[k];
      assert BE2(|a1|)[0] == p1[0] == w1[0] && BE2(|a2|)[0] == p2[0] == w2[0];
      assert BE2(|a1|)[1] == p1[1] == w1[1] && BE2(|a2|)[1] == p2[1] == w2[1];
      assert BE2(|a1|) == BE2(|a2|);
      BE2Injective(|a1|, |a2|);
      assert a1 == a2 by {
        forall k | 0 <= k < |a1|
          ensures a1[k] == a2[k]
        {
          assert a1[k] == p1[k + 2] == w1[k + 2] && a2[k] == p2[k + 2] == w2[k + 2];
        }
      }
      assert w1[|Pad(p1)|..] == rest1 && w2[|Pad(p2)|..] == rest2;
    } else {
      assert AadBlocks(a1) + rest1 == rest1 && AadBlocks(a2) + rest2 == rest2;
    }
  }

  /** The formatting is injective and prefix-free: one formatted input starts another exactly if they
      are the same input. */
  lemma FormatPrefixFree(n1: seq<byte>, a1: seq<byte>, m1: seq<byte>, n2: seq<byte>, a2: seq<byte>, m2: seq<byte>)
    requires |n1| == 12 && |n2| == 12
    requires |a1| < 0xff00 && |a2| < 0xff00 && |m1| < 0x100_0000 && |m2| < 0x100_0000
    ensures Format(n1, a1, m1) <= Format(n2, a2, m2) <==> n1 == n2 && a1 == a2 && m1 == m2
  {
    hide Format;
    if Format(n1, a1, m1) <= Format(n2, a2, m2) {
      PrefixSame(n1, a1, m1, n2, a2, m2);
    }
  }

  lemma PrefixSame(n1: seq<byte>, a1: seq<byte>, m1: seq<byte>, n2: seq<byte>, a2: seq<byte>, m2: seq<byte>)
    requires |n1| == 12 && |n2| == 12
    requires |a1| < 0xff00 && |a2| < 0xff00 && |m1| < 0x100_0000 && |m2| < 0x100_0000
    requires Format(n1, a1, m1) <= Format(n2, a2, m2)
    ensures n1 == n2 && a1 == a2 && m1 == m2
  {
    hide FirstBlock, AadBlocks, Pad;
    var f1: seq<byte>, f2: seq<byte> := FirstBlock(n1, a1 != [], |m1|), FirstBlock(n2, a2 != [], |m2|);
    var r1, r2 := AadBlocks(a1) + Pad(m1), AadBlocks(a2) + Pad(m2);
    assert Format(n1, a1, m1) == f1 + r1 && Format(n2, a2, m2) == f2 + r2;
    assert f1 == (f1 + r1)[..16] == (f2 + r2)[..16] == f2;
    FirstBlockInjective(n1, a1 != [], |m1|, n2, a2 != [], |m2|);
    assert r1 == (f1 + r1)[16..] && r2 == (f2 + r2)[16..];
    AadPrefix(a1, Pad(m1), a2, Pad(m2));
    assert m1 == Pad(m1)[..|m1|] && m2 == Pad(m2)[..|m2|];
  }

  // ---------- The CBC-MAC ----------

  /** The chaining value after running the cipher over whole blocks. */
  function Chain(c: Cipher, x: Block, blocks: seq<byte>): Block
    decreases |blocks|
  {
    if |blocks| < 16 then x else Chain(c, c.enc(Xor(x, blocks[..16])), blocks[16..])
  }

  function ZeroBlock(): Block
  {
    Zeros(16)
  }

  /** The MAC value T of RFC 3610: the cipher folded over the formatted input. */
  function Mac(c: Cipher, nonce: seq<byte>, aad: seq<byte>, data: seq<byte>): Block
    requires |nonce| == 12
  {
    Chain(c, ZeroBlock(), Format(nonce, aad, data))
  }

  /** The chaining value is the last block that encryption in a chain gives. */
  lemma {:induction false} ChainIsLastBlock(c: Cipher, x: Block, blocks: seq<byte>)
    requires |blocks| % 16 == 0
    ensures Chain(c, x, blocks) == LastBlock(x, CbcEncrypted(c, x, blocks))
    decreases |blocks|
  {
    hide Xor;
    if blocks != [] {
      var p: Block := blocks[..16];
      var y := c.enc(Xor(x, p));
      XorSwaps(x, p);
      ChainIsLastBlock(c, y, blocks[16..]);
      var data, rest := CbcEncrypted(c, x, blocks), CbcEncrypted(c, y, blocks[16..]);
      assert data == y + rest;
      if rest != [] {
        assert data[|data| - 16..] == rest[|rest| - 16..];
      }
    }
  }

  /** So the MAC is the last block of the formatted input encrypted in a chain that starts with zeros. */
  lemma MacIsLastBlock(c: Cipher, nonce: seq<byte>, aad: seq<byte>, data: seq<byte>)
    requires |nonce| == 12
    ensures var blocks := CbcEncrypted(c, Zeros(16), Format(nonce, aad, data));
            |blocks| >= 16 && Mac(c, nonce, aad, data) == blocks[|blocks| - 16..]
  {
    hide CbcEncrypted, Chain, Format;
    FormatSize(nonce, aad, data);
    ChainIsLastBlock(c, Zeros(16), Format(nonce, aad, data));
  }

  lemma FormatSize(nonce: seq<byte>, aad: seq<byte>, data: seq<byte>)
    requires |nonce| == 12
    ensures |Format(nonce, aad, data)| >= 16 && |Format(nonce, aad, data)| % 16 == 0
  {
    hide Pad, AadBlocks, FirstBlock;
    var first: seq<byte>, a, b := FirstBlock(nonce, aad != [], |data|), AadBlocks(aad), Pad(data);
    assert |first| == 16 && |first + a + b| == 16 + |a| + |b|;
  }

  lemma {:induction false} ChainAppend(c: Cipher, x: Block, a: seq<byte>, b: seq<byte>)
    requires |a| % 16 == 0
    ensures Chain(c, x, a + b) == Chain(c, Chain(c, x, a), b)
    decreases |a|
  {
    hide Xor;
    if a == [] {
      assert a + b == b;
    } else {
      ChainAppend(c, c.enc(Xor(x, a[..16])), a[16..], b);
      assert (a + b)[..16] == a[..16] && (a + b)[16..] == a[16..] + b;
    }
  }

  lemma PaddedBlock(data: seq<byte>, step: nat)
    requires step < |data| && step % 16 == 0
    ensures step + 16 <= |Pad(data)|
    ensures var end := Min(step + 16, |data|);
            data[step..end] + Zeros(16 - (end - step)) == Pad(data)[step..][..16]
  {
    var p, end := Pad(data), Min(step + 16, |data|);
    var b := data[step..end] + Zeros(16 - (end - step));
    forall k | 0 <= k < 16
      ensures b[k] == p[step..][..16][k]
    {
      assert p[step..][..16][k] == p[step + k];
    }
  }

  /** Runs the cipher over data block by block, the last block filled up with zeros. */
  method ChainPadded(c: Cipher, x0: Block, data: seq<byte>) returns (x: Block)
    ensures x == Chain(c, x0, Pad(data))
  {
    hide Xor, Chain, Pad, Zeros;
    x := x0;
    ghost var padded := Pad(data);
    assert padded[0..] == padded;
    var step, k := 0, 0;
    while step < |data|
      invariant step == 16 * k && 0 <= k
      invariant step <= |padded| && Chain(c, x0, padded) == Chain(c, x, padded[step..])
    {
      var end := Min(step + 16, |data|);
      PaddedBlock(data, step);
      ChainStep(c, x, padded, step);
      var blockBuf: Block := data[step..end] + Zeros(16 - (end - step));
      x := c.enc(Xor(x, blockBuf));
      step, k := step + 16, k + 1;
    }
    PadEnds(data, k);
    ChainNothing(c, x);
    assert padded[step..] == [];
  }

  lemma ChainNothing(c: Cipher, x: Block)
    ensures Chain(c, x, []) == x
  {
  }

  lemma ChainStep(c: Cipher, x: Block, padded: seq<byte>, step: nat)
    requires step + 16 <= |padded| && (|padded| - step) % 16 == 0
    ensures Chain(c, x, padded[step..]) == Chain(c, c.enc(Xor(x, padded[step..][..16])), padded[step + 16..])
  {
    hide Xor;
    assert padded[step..][16..] == padded[step + 16..];
  }

  /** Whole blocks that cover the data cover the padding too. */
  lemma PadEnds(data: seq<byte>, k: nat)
    requires |data| <= 16 * k <= |Pad(data)|
    ensures |Pad(data)| == 16 * k
  {
  }

  /** Writes the low three bytes of a number to the end of a block, least significant byte last. */
  method PutLength(b: array<byte>, v: nat)
    requires b.Length == 16
    modifies b
    ensures b[..] == old(b[..13]) + BE3(v)
  {
    hide ToByte, Val;
    b[15] := ToByte(v % 256);
    b[14] := ToByte(v / 256 % 256);
    b[13] := ToByte(v / 65536 % 256);
  }

  method CbcMac(c: Cipher, nonce: seq<byte>, aad: seq<byte>, data: seq<byte>) returns (r: Result<Block>)
    ensures r.Success? <==> |nonce| == 12
    ensures r.Success? ==> r.value == Mac(c, nonce, aad, data)
  {
    hide Xor, Pad, BE3, Chain, Zeros, Format, FirstBlock, Flags;
    if |nonce| != 12 {
      return Failure;
    }
    var b0 := new byte[16](_ => 0);
    b0[0] := Flags(|aad| > 0);
    Copy(b0, 1, nonce);
    assert b0[..13] == [Flags(aad != [])] + nonce;
    PutLength(b0, |data|);
    var first: Block := b0[..];
    IsFirstBlock(nonce, aad != [], |data|, first);
    var x: Block := c.enc(Xor(ZeroBlock(), first));
    if |aad| > 0 {
      x := ChainPadded(c, x, BE2(|aad|) + aad);
    }
    MacInSteps(c, nonce, aad, data);
    x := ChainPadded(c, x, data);
    return Success(x);
  }

  lemma IsFirstBlock(nonce: seq<byte>, hasAad: bool, length: nat, b: Block)
    requires |nonce| == 12 && b == [Flags(hasAad)] + nonce + BE3(length)
    ensures b == FirstBlock(nonce, hasAad, length)
  {
  }

  /** The MAC computed part by part. */
  lemma MacInSteps(c: Cipher, nonce: seq<byte>, aad: seq<byte>, data: seq<byte>)
    requires |nonce| == 12
    ensures var x1 := c.enc(Xor(ZeroBlock(), FirstBlock(nonce, aad != [], |data|)));
            var x2 := if aad == [] then x1 else Chain(c, x1, Pad(BE2(|aad|) + aad));
            Mac(c, nonce, aad, data) == Chain(c, x2, Pad(data))
  {
    hide Xor, Pad, BE3, Chain, Zeros, FirstBlock, Flags;
    var first := FirstBlock(nonce, aad != [], |data|);
    var x1 := Chain(c, ZeroBlock(), first);
    ChainFirst(c, first);
    ChainNothing(c, x1);
    ChainAppend(c, ZeroBlock(), first, AadBlocks(aad) + Pad(data));
    ChainAppend(c, x1, AadBlocks(aad), Pad(data));
    var f: seq<byte> := first;
    assert f + AadBlocks(aad) + Pad(data) == f + (AadBlocks(aad) + Pad(data));
  }

  lemma ChainFirst(c: Cipher, first: Block)
    ensures Chain(c, ZeroBlock(), first) == c.enc(Xor(ZeroBlock(), first))
  {
    hide Xor;
    assert first[..16] == first && first[16..] == [];
  }

  // ---------- Counter mode ----------

  /** The next counter block: the whole block incremented as a big-endian number. */
  function Increment(b: seq<byte>): (r: seq<byte>)
    ensures |r| == |b|
  {
    if b == [] then []
    else
      var last := b[|b| - 1];
      if last == 0xff then Increment(b[..|b| - 1]) + [0] else b[..|b| - 1] + [last + 1]
  }

  /** The value of a byte string whose first byte counts most. */
  function BE(b: seq<byte>): nat
  {
    if b == [] then 0 else 256 * BE(b[..|b| - 1]) + Val(b[|b| - 1])
  }

  /** The increment carries through all bytes and wraps around. */
  lemma {:induction false} IncrementIsPlusOne(b: seq<byte>)
    ensures BE(b) < Pow256(|b|) && BE(Increment(b)) == (if BE(b) + 1 == Pow256(|b|) then 0 else BE(b) + 1)
  {
    hide Val;
    if b != [] {
      var init, last := b[..|b| - 1], b[|b| - 1];
      IncrementIsPlusOne(init);
      PlusOne(last);
      ZeroByte();
      var next := Increment(b);
      if last == 0xff {
        assert next == Increment(init) + [0] && next[..|b| - 1] == Increment(init);
        assert Val(0) == 0 by { ZeroValue(); }
      } else {
        assert next == init + [last + 1] && next[..|b| - 1] == init;
      }
    }
  }

  lemma ZeroValue()
    ensures Val(0) == 0
  {
  }

  function CounterAt(iv: Block, i: nat): Block
  {
    if i == 0 then iv else Increment(CounterAt(iv, i - 1))
  }

  /** A byte string XORed with the key stream of a counter-mode cipher. */
  function XorKeyStream(c: Cipher, iv: Block, data: seq<byte>): (r: seq<byte>)
    ensures |r| == |data|
  {
    seq(|data|, k requires 0 <= k < |data| => data[k] ^ c.enc(CounterAt(iv, k / 16))[k % 16])
  }

  /** The counter block A_i of RFC 3610: the width of the counter, the nonce, the counter. */
  function CounterBlock(nonce: seq<byte>, i: nat): Block
    requires |nonce| == 12
  {
    [2] + nonce + BE3(i)
  }

  lemma PlusOne(b: byte)
    ensures Val(b) == 255 <==> b == 0xff
    ensures b != 0xff ==> Val(b + 1) == Val(b) + 1
  {
  }

  lemma ByteIs(b: byte, n: nat)
    requires n < 256 && Val(b) == n
    ensures b == ToByte(n)
  {
    ValInjective(b, ToByte(n));
  }

  lemma IncrementSnoc(p: seq<byte>, n: nat)
    requires n < 256
    ensures Increment(p + [ToByte(n)]) == if n == 255 then Increment(p) + [0] else p + [ToByte(n + 1)]
  {
    hide ToByte, Val;
    var b := p + [ToByte(n)];
    assert b[..|b| - 1] == p && b[|b| - 1] == ToByte(n);
    PlusOne(ToByte(n));
    if n < 255 {
      ByteIs(ToByte(n) + 1, n + 1);
    }
  }

  lemma NextDigits(i: nat)
    requires i + 1 < 0x100_0000
    ensures var (h, m, l) := (i / 65536 % 256, i / 256 % 256, i % 256);
            var (h', m', l') := ((i + 1) / 65536 % 256, (i + 1) / 256 % 256, (i + 1) % 256);
            if l < 255 then h' == h && m' == m && l' == l + 1
            else if m < 255 then h' == h && m' == m + 1 && l' == 0
            else h < 255 && h' == h + 1 && m' == 0 && l' == 0
  {
    var (h, m, l) := (i / 65536 % 256, i / 256 % 256, i % 256);
    ThreeDigits(i);
    if l < 255 {
      DigitsOf(h, m, l + 1);
    } else if m < 255 {
      DigitsOf(h, m + 1, 0);
    } else {
      DigitsOf(h + 1, 0, 0);
    }
  }

  lemma DigitsOf(h: nat, m: nat, l: nat)
    requires h < 256 && m < 256 && l < 256
    ensures var v := 65536 * h + 256 * m + l; v / 65536 % 256 == h && v / 256 % 256 == m && v % 256 == l
  {
    var v := 65536 * h + 256 * m + l;
    assert v / 65536 == h;
    assert v / 256 == 256 * h + m;
  }

  lemma IncrementCounter(nonce: seq<byte>, i: nat)
    requires |nonce| == 12 && i + 1 < 0x100_0000
    ensures Increment(CounterBlock(nonce, i)) == CounterBlock(nonce, i + 1)
  {
    hide ToByte, Val, Increment;
    var h, m, l := i / 65536 % 256, i / 256 % 256, i % 256;
    var head: seq<byte> := [2] + nonce;
    assert CounterBlock(nonce, i) == head + [ToByte(h)] + [ToByte(m)] + [ToByte(l)];
    NextDigits(i);
    IncrementSnoc(head + [ToByte(h)] + [ToByte(m)], l);
    IncrementSnoc(head + [ToByte(h)], m);
    IncrementSnoc(head, h);
    ZeroByte();
  }

  lemma ZeroByte()
    ensures ToByte(0) == 0
  {
  }

  /** Stepping the counter of A_i runs through the counter blocks of the standard. */
  lemma {:induction false} CounterRuns(nonce: seq<byte>, i: nat)
    requires |nonce| == 12 && i < 0x100_0000
    ensures CounterAt(CounterBlock(nonce, 0), i) == CounterBlock(nonce, i)
  {
    hide CounterBlock, Increment;
    if i > 0 {
      CounterRuns(nonce, i - 1);
      IncrementCounter(nonce, i - 1);
    }
  }

  // ---------- Opening ----------

  method OpenCCM(aes: seq<byte> -> Cipher, key: seq<byte>, ciphertext: seq<byte>, nonce: seq<byte>)
    returns (r: Result<seq<byte>>)
    ensures r.Success? <==> |key| == 32 && |nonce| == 12
    ensures r.Success? ==> r.value == XorKeyStream(aes(key), CounterBlock(nonce, 0), ciphertext)
  {
    hide BE3, XorKeyStream, CounterBlock;
    if |key| != 32 {
      return Failure;
    }
    if |nonce| != 12 {
      return Failure;
    }
    var block := aes(key);
    var iv := NewCTR(nonce, 0);
    return Success(XorKeyStream(block, iv, ciphertext));
  }

  /** The initial counter block of a stream that starts at the given counter. */
  method NewCTR(nonce: seq<byte>, startCounter: nat) returns (iv: Block)
    requires |nonce| == 12
    ensures iv == CounterBlock(nonce, startCounter)
  {
    hide BE3;
    var b := new byte[16](_ => 0);
    b[0] := 2;
    Copy(b, 1, nonce);
    assert b[..13] == [2] + nonce;
    PutLength(b, startCounter);
    return b[..];
  }

  /** The key stream block S_i of RFC 3610. */
  function S(c: Cipher, nonce: seq<byte>, i: nat): Block
    requires |nonce| == 12
  {
    c.enc(CounterBlock(nonce, i))
  }

  /** The tag expected for a plaintext; the nonce is checked only where its length matters. */
  method GetExpectedTag(aes: seq<byte> -> Cipher, key: seq<byte>, nonce: seq<byte>, aad: seq<byte>,
                        plainText: seq<byte>, tag: seq<byte>) returns (r: Outcome<Block>)
    ensures |tag| != 16 || |key| !in {16, 24, 32} ==> r.Error?
    ensures |tag| == 16 && |key| in {16, 24, 32} ==>
              r == if |nonce| > 15 then Panic
                   else if |nonce| != 12 then Error
                   else Done(Xor(Mac(aes(key), nonce, aad, plainText), S(aes(key), nonce, 0)))
  {
    hide BE3, Mac, Xor, CounterBlock;
    if |tag| != 16 {
      return Error;
    }
    if |key| !in {16, 24, 32} {
      return Error;
    }
    var block := aes(key);
    if |nonce| > 15 {
      return Panic;
    }
    var x := CbcMac(block, nonce, aad, plainText);
    if x.Failure? {
      return Error;
    }
    var a0 := NewCTR(nonce, 0);
    var s0 := block.enc(a0);
    return Done(Xor(x.value, s0));
  }

  /** Compares two tags without an early exit. */
  method Equal16(a: seq<byte>, b: seq<byte>) returns (eq: bool)
    ensures eq <==> |a| == 16 && a == b
  {
    if |a| != 16 || |b| != 16 {
      return false;
    }
    var v: byte := 0;
    var i := 0;
    while i < 16
      invariant 0 <= i <= 16
      invariant v == 0 <==> a[..i] == b[..i]
    {
      OrXor(v, a[i], b[i]);
      assert a[..i + 1] == a[..i] + [a[i]] && b[..i + 1] == b[..i] + [b[i]];
      v := Gather(v, a[i], b[i]);
      i := i + 1;
    }
    assert a[..16] == a && b[..16] == b;
    return v == 0;
  }

  function Gather(v: byte, x: byte, y: byte): byte
  {
    v | (x ^ y)
  }

  lemma OrXor(v: byte, x: byte, y: byte)
    ensures Gather(v, x, y) == 0 <==> v == 0 && x == y
  {
  }

  // ---------- Sealing, as the standard defines it ----------

  /** A sealed message as it is stored: the encrypted tag U, then the message XORed with S_1, S_2, ... */
  function Seal(c: Cipher, nonce: seq<byte>, aad: seq<byte>, m: seq<byte>): seq<byte>
    requires |nonce| == 12
  {
    Xor(Mac(c, nonce, aad, m), S(c, nonce, 0)) + EncryptMessage(c, nonce, m)
  }

  function EncryptMessage(c: Cipher, nonce: seq<byte>, m: seq<byte>): (r: seq<byte>)
    requires |nonce| == 12
    ensures |r| == |m|
  {
    seq(|m|, k requires 0 <= k < |m| => m[k] ^ S(c, nonce, 1 + k / 16)[k % 16])
  }

  lemma XorTwice(a: byte, b: byte)
    ensures (a ^ b) ^ b == a
  {
  }

  /** Counter mode undoes itself: opening what was opened gives back the ciphertext. */
  lemma OpenTwice(c: Cipher, iv: Block, data: seq<byte>)
    ensures XorKeyStream(c, iv, XorKeyStream(c, iv, data)) == data
  {
    hide CounterAt;
    var once := XorKeyStream(c, iv, data);
    forall k | 0 <= k < |data|
      ensures XorKeyStream(c, iv, once)[k] == data[k]
    {
      XorTwice(data[k], c.enc(CounterAt(iv, k / 16))[k % 16]);
    }
  }

  /** Opening a sealed message gives its raw MAC followed by the message. */
  lemma OpenSealed(c: Cipher, nonce: seq<byte>, aad: seq<byte>, m: seq<byte>)
    requires |nonce| == 12 && |m| < 0x100_0000
    ensures XorKeyStream(c, CounterBlock(nonce, 0), Seal(c, nonce, aad, m)) == Mac(c, nonce, aad, m) + m
  {
    hide CounterAt, CounterBlock, Mac;
    var iv, stored := CounterBlock(nonce, 0), Seal(c, nonce, aad, m);
    var mac: seq<byte> := Mac(c, nonce, aad, m);
    var plain := XorKeyStream(c, iv, stored);
    forall k | 0 <= k < |stored|
      ensures plain[k] == (mac + m)[k]
    {
      CounterRuns(nonce, k / 16);
      if k < 16 {
        XorTwice(mac[k], S(c, nonce, 0)[k]);
      } else {
        assert (k - 16) / 16 == k / 16 - 1 && (k - 16) % 16 == k % 16;
        XorTwice(m[k - 16], S(c, nonce, k / 16)[k % 16]);
      }
    }
  }

  lemma XorInjective(a: Block, b: Block, s: Block)
    requires Xor(a, s) == Xor(b, s)
    ensures a == b
  {
    XorCancels(a, s);
    XorCancels(b, s);
  }

  /** The tag check accepts a plaintext exactly when its MAC is the sealed message's MAC; in particular it
      accepts the sealed message itself. */
  lemma TagAccepts(c: Cipher, nonce: seq<byte>, aad: seq<byte>, m: seq<byte>, candidate: seq<byte>)
    requires |nonce| == 12
    ensures var stored := Seal(c, nonce, aad, m)[..16];
            var expected: seq<byte> := Xor(Mac(c, nonce, aad, candidate), S(c, nonce, 0));
            stored == expected <==> Mac(c, nonce, aad, candidate) == Mac(c, nonce, aad, m)
  {
    hide Mac, Xor, S;
    var s := S(c, nonce, 0);
    assert Seal(c, nonce, aad, m)[..16] == Xor(Mac(c, nonce, aad, m), s);
    if Xor(Mac(c, nonce, aad, candidate), s) == Xor(Mac(c, nonce, aad, m), s) {
      XorInjective(Mac(c, nonce, aad, candidate), Mac(c, nonce, aad, m), s);
    }
  }
}

/** A stored AES-CCM key (disk/Bitlocker/datums/datums.go) put through the functions above. */
module SealedKeys {
  import opened Bytes
  import opened BlockCipher
  import opened Ccm
  import opened Datums
  import opened Wrappers

  /** The tag check of a stored key: its first 16 bytes against the expected tag. Data shorter than that are
      sliced on into what follows them in the metadata, and fault only at the end of that. */
  method VerifyTag(encryptedData: Slice, tag: seq<byte>) returns (r: Outcome<bool>)
    requires encryptedData.Valid()
    ensures |encryptedData.buf| < 16 ==> r.Panic?
    ensures |encryptedData.buf| >= 16 ==> r == Done(encryptedData.buf[..16] == tag)
  {
    if |encryptedData.buf| < 16 {
      return Panic;
    }
    var mac := encryptedData.Sub(0, 16).Bytes();
    assert mac == encryptedData.buf[..16];
    var eq := Equal16(mac, tag);
    return Done(eq);
  }

  /** Seal, then open as DecryptVMK does: the result is the raw MAC and the key, and the tag is accepted. */
  method OpenStoredKey(aes: seq<byte> -> Cipher, key: seq<byte>, nonce: seq<byte>, aad: seq<byte>, ghost m: seq<byte>,
                       stored: Slice) returns (plain: seq<byte>, accepted: bool)
    requires |key| == 32 && |nonce| == 12 && |m| < 0x100_0000
    requires stored.Valid() && stored.Bytes() == Seal(aes(key), nonce, aad, m)
    ensures plain == Mac(aes(key), nonce, aad, m) + m
    ensures accepted
  {
    hide Mac, Seal, XorKeyStream, CounterBlock, S, Xor;
    SealedSize(aes(key), nonce, aad, m);
    var bytes := stored.Bytes();
    var data := OpenCCM(aes, key, bytes, nonce);
    OpenSealed(aes(key), nonce, aad, m);
    plain := data.value;
    assert plain[16..] == m;
    var expected := GetExpectedTag(aes, key, nonce, aad, plain[16..], bytes[..16]);
    TagAccepts(aes(key), nonce, aad, m, m);
    assert stored.buf[..16] == bytes[..16];
    var verdict := VerifyTag(stored, expected.value);
    accepted := verdict.value;
  }

  lemma SealedSize(c: Cipher, nonce: seq<byte>, aad: seq<byte>, m: seq<byte>)
    requires |nonce| == 12
    ensures |Seal(c, nonce, aad, m)| == 16 + |m|
  {
  }
}
