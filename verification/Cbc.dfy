/** Cipher block chaining, which the decrypting reader applies to a whole read (readers/reader_decrypting.go). */
module Cbc {
  import opened BlockCipher
  import opened Bytes

  /** The whole blocks of data decrypted, each with the ciphertext block before it added. */
  function CbcDecrypted(c: Cipher, before: Block, data: seq<byte>): (plain: seq<byte>)
    ensures |plain| == |data| / 16 * 16
    decreases |data|
  {
    if |data| < 16 then [] else Xor(c.dec(data[..16]), before) + CbcDecrypted(c, data[..16], data[16..])
  }

  function CbcEncrypted(c: Cipher, before: Block, plain: seq<byte>): (data: seq<byte>)
    ensures |data| == |plain| / 16 * 16
    decreases |plain|
  {
    if |plain| < 16 then []
    else
      var x := c.enc(Xor(plain[..16], before));
      x + CbcEncrypted(c, x, plain[16..])
  }

  /** Round trip: decryption inverts the encryption of whole blocks. */
  lemma {:induction false} CbcRoundTrip(c: Cipher, before: Block, plain: seq<byte>)
    requires |plain| % 16 == 0
    ensures CbcDecrypted(c, before, CbcEncrypted(c, before, plain)) == plain
    decreases |plain|
  {
    hide Xor;
    if plain != [] {
      var p: Block := plain[..16];
      var x := c.enc(Xor(p, before));
      var data := CbcEncrypted(c, before, plain);
      assert data[..16] == x && data[16..] == CbcEncrypted(c, x, plain[16..]);
      CbcRoundTrip(c, x, plain[16..]);
      XorCancels(p, before);
      assert plain == p + plain[16..];
    }
  }

  /** The block in front of what follows data. */
  function LastBlock(before: Block, data: seq<byte>): Block
    requires |data| % 16 == 0
  {
    if data == [] then before else data[|data| - 16..]
  }

  /** Data is decrypted part by part if the second part is chained to the end of the first. */
  lemma {:induction false} CbcSplit(c: Cipher, before: Block, a: seq<byte>, b: seq<byte>)
    requires |a| % 16 == 0
    ensures CbcDecrypted(c, before, a + b) == CbcDecrypted(c, before, a) + CbcDecrypted(c, LastBlock(before, a), b)
    decreases |a|
  {
    hide Xor;
    if a == [] {
      assert a + b == b;
      assert CbcDecrypted(c, before, a) == [];
    } else {
      var head: Block := a[..16];
      assert (a + b)[..16] == head && (a + b)[16..] == a[16..] + b;
      CbcSplit(c, head, a[16..], b);
      assert LastBlock(before, a) == LastBlock(head, a[16..]);
    }
  }

  /** The block in front decides how the first block is decrypted. */
  lemma CbcDependsOnBefore(c: Cipher, before: Block, other: Block, data: seq<byte>)
    requires |data| >= 16
    ensures CbcDecrypted(c, before, data) == CbcDecrypted(c, other, data) <==> before == other
  {
    hide Xor;
    var x: Block := c.dec(data[..16]);
    var rest := CbcDecrypted(c, data[..16], data[16..]);
    SplitEqual(Xor(x, before), rest, Xor(x, other), rest);
    if Xor(x, before) == Xor(x, other) {
      SameAdded(x, before, other);
    }
  }

  lemma SameAdded(x: Block, a: Block, b: Block)
    requires Xor(x, a) == Xor(x, b)
    ensures a == b
  {
    hide Xor;
    XorSwaps(x, a);
    XorSwaps(x, b);
    XorCancels(a, x);
    XorCancels(b, x);
  }

  lemma XorSwaps(a: Block, b: Block)
    ensures Xor(a, b) == Xor(b, a)
  {
    forall i | 0 <= i < 16
      ensures Xor(a, b)[i] == Xor(b, a)[i]
    {
    }
  }
}
