/** A block cipher of which only the inverse law is known. */
module BlockCipher {
  import opened Bytes

  type Block = b: seq<byte> | |b| == 16 witness seq(16, _ => 0)

  datatype RawCipher = RawCipher(enc: Block -> Block, dec: Block -> Block)

  ghost predicate Invertible(c: RawCipher)
  {
    forall x: Block :: c.dec(c.enc(x)) == x
  }

  type Cipher = c: RawCipher | Invertible(c) witness RawCipher((x: Block) => x, (x: Block) => x)

  function Xor(a: Block, b: Block): Block
  {
    seq(16, i requires 0 <= i < 16 => a[i] ^ b[i])
  }

  lemma XorCancels(a: Block, b: Block)
    ensures Xor(Xor(a, b), b) == a
  {
    assert forall i | 0 <= i < 16 :: Xor(Xor(a, b), b)[i] == (a[i] ^ b[i]) ^ b[i] == a[i];
  }
}
