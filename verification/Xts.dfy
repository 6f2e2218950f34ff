/**
  AES-XTS decryption of one data unit (disk/Bitlocker/decryption/aes-xts.go), with the
  standard's encryption (section 5.3 of IEEE Std 1619-2007) as its reference.
*/
module Xts {
  import opened Bytes
  import opened BlockCipher
  import opened Wrappers

  // ---------- Multiplication of a tweak by the primitive element ----------

  function CarryOut(b: byte): byte
  {
    b >> 7
  }

  /** A byte shifted up by one bit, with the carry of the byte below. */
  function ShiftIn(b: byte, carry: byte): byte
  {
    (b << 1) | carry
  }

  function Fold(b: byte, carry: byte): byte
  {
    if carry > 0 then b ^ 0x87 else b
  }

  /** One tweak doubling, byte by byte. */
  function MulX(t: Block): Block
  {
    seq(16, i requires 0 <= i < 16 =>
      if i > 0 then ShiftIn(t[i], CarryOut(t[i - 1])) else Fold(ShiftIn(t[0], 0), CarryOut(t[15])))
  }

  /** Doubles the tweak in place with a carry running from byte to byte. */
  method XtsMulByX(tweak: array<byte>)
    requires tweak.Length == 16
    modifies tweak
    ensures tweak[..] == MulX(old(tweak[..]))
  {
    hide ShiftIn, CarryOut;
    ghost var t := tweak[..];
    var carry: byte := 0;
    var i := 0;
    while i < 16
      invariant 0 <= i <= 16
      invariant carry == if i == 0 then 0 else CarryOut(t[i - 1])
      invariant forall k | 0 <= k < i :: tweak[k] == ShiftIn(t[k], if k == 0 then 0 else CarryOut(t[k - 1]))
      invariant forall k | i <= k < 16 :: tweak[k] == t[k]
    {
      var val := ShiftIn(tweak[i], carry);
      carry := CarryOut(tweak[i]);
      tweak[i] := val;
      i := i + 1;
    }
    if carry > 0 {
      tweak[0] := tweak[0] ^ 0x87;
    }
    assert tweak[..] == MulX(t);
  }

  /** A polynomial over GF(2), as the set of exponents with coefficient 1. */
  type Poly = set<nat>

  function BitOf(b: byte, j: nat): bool
    requires j < 8
  {
    (b >> j) & 1 == 1
  }

  function Coefficient(t: Block, k: nat): bool
    requires k < 128
  {
    BitOf(t[k / 8], k % 8)
  }

  function ToPoly(t: Block): Poly
  {
    set k: nat | k < 128 && Coefficient(t, k)
  }

  function AddPoly(a: Poly, b: Poly): Poly
  {
    (a - b) + (b - a)
  }

  /** The product with x. */
  function TimesX(a: Poly): Poly
  {
    set k: nat | k in a :: k + 1
  }

  /** The remainder modulo x^128 + x^7 + x^2 + x + 1 of a polynomial of degree at most 128. */
  function Reduce(a: Poly): Poly
  {
    if 128 in a then AddPoly(a, {128, 7, 2, 1, 0}) else a
  }

  lemma ShiftedBit(cur: byte, low: byte, j: nat)
    requires j < 8
    ensures BitOf(ShiftIn(cur, CarryOut(low)), j) <==> if j == 0 then BitOf(low, 7) else BitOf(cur, j - 1)
  {
  }

  lemma FirstByteBit(cur: byte, top: byte, j: nat)
    requires j < 8
    ensures BitOf(Fold(ShiftIn(cur, 0), CarryOut(top)), j) <==>
            ((j > 0 && BitOf(cur, j - 1)) != (BitOf(top, 7) && j in {0, 1, 2, 7}))
  {
  }

  /** Coefficient by coefficient, MulX shifts up and folds the overflow back in. */
  lemma MulXCoefficient(t: Block, k: nat)
    requires k < 128
    ensures Coefficient(MulX(t), k) <==>
            ((k > 0 && Coefficient(t, k - 1)) != (Coefficient(t, 127) && k in {0, 1, 2, 7}))
  {
    var i, j := k / 8, k % 8;
    if i > 0 {
      ShiftedBit(t[i], t[i - 1], j);
      if j == 0 {
        assert (k - 1) / 8 == i - 1 && (k - 1) % 8 == 7;
      } else {
        assert (k - 1) / 8 == i && (k - 1) % 8 == j - 1;
      }
    } else {
      FirstByteBit(t[0], t[15], j);
    }
  }

  /** MulX is multiplication by the primitive element x of GF(2^128). */
  lemma MulXIsFieldMultiplication(t: Block)
    ensures ToPoly(MulX(t)) == Reduce(TimesX(ToPoly(t)))
  {
    var p := TimesX(ToPoly(t));
    assert 128 in p <==> Coefficient(t, 127) by {
      assert Coefficient(t, 127) ==> 127 in ToPoly(t);
    }
    forall k: nat
      ensures k in ToPoly(MulX(t)) <==> k in Reduce(p)
    {
      assert k in p <==> k > 0 && (k - 1) in ToPoly(t);
      if k < 128 {
        MulXCoefficient(t, k);
      }
    }
  }

  lemma BitsDetermineByte(a: byte, b: byte)
    requires forall j: nat | j < 8 :: BitOf(a, j) == BitOf(b, j)
    ensures a == b
  {
    assert BitOf(a, 0) == BitOf(b, 0) && BitOf(a, 1) == BitOf(b, 1) && BitOf(a, 2) == BitOf(b, 2);
    assert BitOf(a, 3) == BitOf(b, 3) && BitOf(a, 4) == BitOf(b, 4) && BitOf(a, 5) == BitOf(b, 5);
    assert BitOf(a, 6) == BitOf(b, 6) && BitOf(a, 7) == BitOf(b, 7);
  }

  /** A block is determined by its polynomial, so ToPoly loses nothing. */
  lemma PolyDeterminesBlock(a: Block, b: Block)
    requires ToPoly(a) == ToPoly(b)
    ensures a == b
  {
    forall i | 0 <= i < 16
      ensures a[i] == b[i]
    {
      forall j: nat | j < 8
        ensures BitOf(a[i], j) == BitOf(b[i], j)
      {
        var k := 8 * i + j;
        assert k / 8 == i && k % 8 == j;
        assert k in ToPoly(a) <==> Coefficient(a, k);
        assert k in ToPoly(b) <==> Coefficient(b, k);
      }
      BitsDetermineByte(a[i], b[i]);
    }
  }

  /** Doubling is injective: distinct tweaks stay distinct. */
  lemma MulXInjective(a: Block, b: Block)
    requires MulX(a) == MulX(b)
    ensures a == b
  {
    forall k: nat | k < 128
      ensures Coefficient(a, k) <==> Coefficient(b, k)
    {
      MulXCoefficient(a, 0);
      MulXCoefficient(b, 0);
      if k < 127 {
        MulXCoefficient(a, k + 1);
        MulXCoefficient(b, k + 1);
      }
    }
    assert ToPoly(a) == ToPoly(b);
    PolyDeterminesBlock(a, b);
  }

  // ---------- The standard's encryption and the program's decryption ----------

  /** The tweak of block j of a data unit whose encrypted tweak is t: the j-fold product. */
  function TweakAt(t: Block, j: nat): Block
  {
    if j == 0 then t else MulX(TweakAt(t, j - 1))
  }

  lemma {:induction false} TweakAtShift(t: Block, j: nat)
    ensures TweakAt(MulX(t), j) == TweakAt(t, j + 1)
  {
    hide MulX;
    if j > 0 {
      TweakAtShift(t, j - 1);
    }
  }

  /** One block as the standard encrypts it. */
  function EncryptBlock(c: Cipher, t: Block, p: Block): Block
  {
    Xor(c.enc(Xor(p, t)), t)
  }

  function DecryptBlock(c: Cipher, t: Block, x: Block): Block
  {
    Xor(c.dec(Xor(x, t)), t)
  }

  lemma DecryptEncrypt(c: Cipher, t: Block, p: Block)
    ensures DecryptBlock(c, t, EncryptBlock(c, t, p)) == p
  {
    XorCancels(c.enc(Xor(p, t)), t);
    XorCancels(p, t);
  }

  function BlockOf(data: seq<byte>, j: nat): Block
    requires 16 * j + 16 <= |data|
  {
    data[16 * j..16 * j + 16]
  }

  /** data is plain encrypted block by block, block j under the j-fold tweak. */
  ghost predicate EncryptedUnder(c: Cipher, t: Block, plain: seq<byte>, data: seq<byte>)
  {
    |data| == |plain| && |data| % 16 == 0 &&
    forall j: nat | 16 * j + 16 <= |data| ::
      BlockOf(data, j) == EncryptBlock(c, TweakAt(t, j), BlockOf(plain, j))
  }

  /** The whole blocks of data decrypted in turn. */
  function DecryptBlocks(c: Cipher, t: Block, data: seq<byte>): (r: seq<byte>)
    ensures |r| == |data| / 16 * 16
    decreases |data|
  {
    if |data| < 16 then []
    else DecryptBlock(c, t, data[..16]) + DecryptBlocks(c, MulX(t), data[16..])
  }

  lemma {:induction false} DecryptBlocksSnoc(c: Cipher, t: Block, data: seq<byte>, n: nat)
    requires 16 * n + 16 <= |data|
    ensures DecryptBlocks(c, t, data[..16 * n + 16]) ==
            DecryptBlocks(c, t, data[..16 * n]) + DecryptBlock(c, TweakAt(t, n), BlockOf(data, n))
    decreases n
  {
    hide MulX, DecryptBlock;
    if n == 0 {
      assert data[..16][..16] == data[..16] == BlockOf(data, 0);
    } else {
      DecryptBlocksSnoc(c, MulX(t), data[16..], n - 1);
      TweakAtShift(t, n - 1);
      SliceOfDrop(data, 16, 16 * (n - 1), 16 * n);
      assert data[..16 * n + 16][16..] == data[16..][..16 * (n - 1) + 16];
      assert data[..16 * n][16..] == data[16..][..16 * (n - 1)];
      assert data[..16 * n + 16][..16] == data[..16] == data[..16 * n][..16];
    }
  }

  lemma EncryptedUnderTail(c: Cipher, t: Block, plain: seq<byte>, data: seq<byte>)
    requires EncryptedUnder(c, t, plain, data) && |data| >= 16
    ensures EncryptedUnder(c, MulX(t), plain[16..], data[16..])
  {
    hide MulX, EncryptBlock;
    forall j: nat | 16 * j + 16 <= |data| - 16
      ensures BlockOf(data[16..], j) == EncryptBlock(c, TweakAt(MulX(t), j), BlockOf(plain[16..], j))
    {
      TweakAtShift(t, j);
      SliceOfDrop(data, 16, 16 * j, 16 * j + 16);
      SliceOfDrop(plain, 16, 16 * j, 16 * j + 16);
      assert BlockOf(data, j + 1) == EncryptBlock(c, TweakAt(t, j + 1), BlockOf(plain, j + 1));
    }
  }

  lemma EncryptedUnderHead(c: Cipher, t: Block, plain: seq<byte>, data: seq<byte>)
    requires EncryptedUnder(c, t, plain, data) && |data| >= 16
    ensures DecryptBlock(c, t, data[..16]) == plain[..16]
  {
    hide MulX, EncryptBlock, DecryptBlock;
    assert BlockOf(data, 0) == EncryptBlock(c, TweakAt(t, 0), BlockOf(plain, 0));
    DecryptEncrypt(c, t, BlockOf(plain, 0));
  }

  /** Decryption inverts the standard's encryption of a data unit of whole blocks. */
  lemma {:induction false} DecryptInvertsEncrypt(c: Cipher, t: Block, plain: seq<byte>, data: seq<byte>)
    requires EncryptedUnder(c, t, plain, data)
    ensures DecryptBlocks(c, t, data) == plain
    decreases |data|
  {
    hide MulX, DecryptBlock;
    if |data| >= 16 {
      EncryptedUnderHead(c, t, plain, data);
      EncryptedUnderTail(c, t, plain, data);
      DecryptInvertsEncrypt(c, MulX(t), plain[16..], data[16..]);
      assert plain == plain[..16] + plain[16..];
    }
  }

  /** What OpenXTS returns on data of at least one block, tail of a partial block included. */
  function Opened(c: Cipher, t: Block, data: seq<byte>): (r: seq<byte>)
    requires |data| >= 16
    ensures |r| == |data|
  {
    var full, rem := |data| / 16, |data| % 16;
    if rem == 0 then DecryptBlocks(c, t, data)
    else
      var last := data[16 * full..] + data[16 * (full - 1) + rem..16 * full];
      DecryptBlocks(c, t, data[..16 * full]) + DecryptBlock(c, TweakAt(t, full), last)[..rem]
  }

  /** A partial block at the end: filled up with the bytes of the ciphertext that end 16 bytes behind the data's end, the
      data decrypts as whole blocks do, and as much of that as there was data is kept. */
  lemma OpenedPartial(c: Cipher, t: Block, data: seq<byte>)
    requires |data| > 16 && |data| % 16 != 0
    ensures var n := |data| - |data| % 16;
            var filled := data + data[|data| - 16..n];
            |filled| % 16 == 0 && Opened(c, t, data) == DecryptBlocks(c, t, filled)[..|data|]
  {
    hide DecryptBlock, DecryptBlocks, TweakAt;
    var full, rem := |data| / 16, |data| % 16;
    var n := |data| - rem;
    var filled := data + data[|data| - 16..n];
    var last := data[n..] + data[|data| - 16..n];
    assert filled[..n] == data[..n] && filled[n..] == last && filled[..n + 16] == filled;
    DecryptBlocksSnoc(c, t, filled, full);
    assert BlockOf(filled, full) == last;
    assert DecryptBlocks(c, t, filled) == DecryptBlocks(c, t, data[..n]) + DecryptBlock(c, TweakAt(t, full), last);
  }

  /** A key's two halves: the data cipher and the tweak cipher. */
  function DataCipher(aes: seq<byte> -> Cipher, key: seq<byte>): Cipher
  {
    aes(key[..|key| / 2])
  }

  function TweakCipher(aes: seq<byte> -> Cipher, key: seq<byte>): Cipher
  {
    aes(key[|key| / 2..])
  }

  /** The loop both branches of OpenXTS share: decrypts n blocks, doubling the tweak after each. */
  method DecryptFullBlocks(c: Cipher, t: array<byte>, ciphertext: seq<byte>, n: nat) returns (plaintext: seq<byte>)
    requires t.Length == 16 && 16 * n <= |ciphertext|
    modifies t
    ensures t[..] == TweakAt(old(t[..]), n)
    ensures plaintext == DecryptBlocks(c, old(t[..]), ciphertext[..16 * n])
  {
    hide MulX, DecryptBlock;
    ghost var t0 := t[..];
    plaintext := [];
    var i := 0;
    while i < n
      invariant 0 <= i <= n
      invariant t[..] == TweakAt(t0, i)
      invariant plaintext == DecryptBlocks(c, t0, ciphertext[..16 * i])
    {
      var cur: Block := t[..];
      var x: Block := ciphertext[16 * i..16 * i + 16];
      DecryptBlocksSnoc(c, t0, ciphertext, i);
      plaintext := plaintext + DecryptBlock(c, cur, x);
      XtsMulByX(t);
      i := i + 1;
    }
  }

  method OpenXTS(aes: seq<byte> -> Cipher, key: seq<byte>, tweak: seq<byte>, ciphertext: seq<byte>)
    returns (r: Result<seq<byte>>)
    ensures r.Success? <==> (|key| == 32 || |key| == 64) && |tweak| == 16 && |ciphertext| >= 16
    ensures r.Success? ==>
              r.value == Opened(DataCipher(aes, key), TweakCipher(aes, key).enc(tweak), ciphertext)
  {
    hide MulX, DecryptBlock;
    if |key| != 32 && |key| != 64 {
      return Failure;
    }
    if |tweak| != 16 {
      return Failure;
    }
    if |ciphertext| < 16 {
      return Failure;
    }
    var dataBlock := aes(key[..|key| / 2]);
    var tweakBlock := aes(key[|key| / 2..]);
    var start: Block := tweakBlock.enc(tweak);
    var t := new byte[16](i requires 0 <= i < 16 => start[i]);
    assert t[..] == start;

    var fullBlocks, remainder := |ciphertext| / 16, |ciphertext| % 16;
    var plaintext := DecryptFullBlocks(dataBlock, t, ciphertext, fullBlocks);
    if remainder == 0 {
      assert ciphertext[..16 * fullBlocks] == ciphertext;
      return Success(plaintext);
    }
    var preFinalBlock := ciphertext[16 * (fullBlocks - 1)..16 * fullBlocks];
    var stolenCipher := preFinalBlock[remainder..];
    var cLast := ciphertext[16 * fullBlocks..] + stolenCipher;
    assert stolenCipher == ciphertext[16 * (fullBlocks - 1) + remainder..16 * fullBlocks];
    var cur: Block := t[..];
    var lastPlain := DecryptBlock(dataBlock, cur, cLast);
    return Success(plaintext + lastPlain[..remainder]);
  }
}
