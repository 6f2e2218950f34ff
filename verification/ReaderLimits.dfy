/** Reads that the decrypting reader does not turn into plaintext (readers/reader_decrypting.go). */
module ReaderLimits {
  import opened Arithmetic
  import opened BlockCipher
  import opened Bytes
  import opened DecryptingReaders
  import opened Readers
  import opened Wrappers
  import opened Xts

  /** The block of one byte sixteen times. */
  function Uniform(v: byte): Block
  {
    seq(16, _ => v)
  }

  lemma XorUniform(a: byte, b: byte)
    ensures Xor(Uniform(a), Uniform(b)) == Uniform(a ^ b)
  {
  }

  // ---------- Reads that begin before the partition ----------

  function Complement(x: Block): Block
  {
    seq(16, i requires 0 <= i < 16 => x[i] ^ 0xFF)
  }

  /** A cipher that turns every bit over. */
  function ComplementCipher(): Cipher
  {
    var c := RawCipher(Complement, Complement);
    assert Invertible(c) by {
      forall x: Block
        ensures c.dec(c.enc(x)) == x
      {
        ComplementTwice(x);
      }
    }
    c
  }

  lemma ComplementTwice(x: Block)
    ensures Complement(Complement(x)) == x
  {
    assert forall i | 0 <= i < 16 :: Complement(Complement(x))[i] == (x[i] ^ 0xFF) ^ 0xFF == x[i];
  }

  lemma ComplementEncrypts(t: Block)
    ensures EncryptBlock(ComplementCipher(), t, Uniform(0)) == Uniform(0xFF)
  {
    forall i | 0 <= i < 16
      ensures EncryptBlock(ComplementCipher(), t, Uniform(0))[i] == 0xFF
    {
      Turned(t[i]);
    }
  }

  lemma Turned(b: byte)
    ensures ((0 ^ b) ^ 0xFF) ^ b == 0xFF
  {
  }

  /** image is plain encrypted under a key: data under its first half, tweaks under its second. */
  ghost predicate VolumeUnder(aes: seq<byte> -> Cipher, key: seq<byte>, sectorSize: int, part: nat, plain: seq<byte>,
                              image: seq<byte>)
    requires sectorSize > 0
  {
    EncryptedVolume(aes(key[..|key| / 2]), aes(key[|key| / 2..]), sectorSize, part, plain, image)
  }

  /** The read gives the plaintext on every volume of a size, under every cipher. */
  ghost predicate AlwaysPlaintext(key: seq<byte>, sectorSize: int, part: nat, diskSize: nat, offset: int, size: int)
    requires sectorSize > 0
  {
    forall aes: seq<byte> -> Cipher, plain, image |
      VolumeUnder(aes, key, sectorSize, part, plain, image) && |image| == diskSize ::
      ReadResult(aes, key, sectorSize, part, Disk(image), offset, size) == Disk(plain).ReadFile(offset, size)
  }

  lemma VolumeSize(aes: seq<byte> -> Cipher, key: seq<byte>, sectorSize: int, part: nat, plain: seq<byte>,
                   image: seq<byte>)
    requires sectorSize > 0 && VolumeUnder(aes, key, sectorSize, part, plain, image)
    ensures |plain| == |image|
  {
  }

  /** A volume of zeros under that cipher. */
  lemma TurnedVolume(sectorSize: int, part: nat, diskSize: nat)
    requires sectorSize > 0 && part <= diskSize
    ensures EncryptedVolume(ComplementCipher(), ComplementCipher(), sectorSize, part, Zeros(diskSize),
                            Zeros(part) + seq(diskSize - part, _ => 0xFF))
  {
    hide ComplementCipher, EncryptBlock, TweakAt;
    var plain, image := Zeros(diskSize), Zeros(part) + seq(diskSize - part, _ => 0xFF);
    var c := ComplementCipher();
    assert image[..part] == plain[..part];
    forall b: nat | part + 16 * b + 16 <= |image|
      ensures PartitionBlock(image, part, b) == StandardBlock(c, c, sectorSize, b, PartitionBlock(plain, part, b))
    {
      assert PartitionBlock(plain, part, b) == Uniform(0) && PartitionBlock(image, part, b) == Uniform(0xFF);
      ComplementEncrypts(TweakAt(c.enc(LEBytes(16 * b / sectorSize, 16)), 16 * b % sectorSize / 16));
    }
  }

  /** A read that begins before the partition always gives the plaintext exactly if it ends before it, too, or leaves
      the disk: across the boundary it returns ciphertext. */
  lemma StraddlingReadExact(key: seq<byte>, sectorSize: int, part: nat, diskSize: nat, offset: int, size: int)
    requires sectorSize > 0 && part <= diskSize && offset < part
    ensures AlwaysPlaintext(key, sectorSize, part, diskSize, offset, size) <==>
            offset + size <= part || !Disk(Zeros(diskSize)).InRange(offset, size)
  {
    hide EncryptedVolume;
    if offset + size <= part || !Disk(Zeros(diskSize)).InRange(offset, size) {
      forall aes: seq<byte> -> Cipher, plain, image |
        VolumeUnder(aes, key, sectorSize, part, plain, image) && |image| == diskSize
        ensures ReadResult(aes, key, sectorSize, part, Disk(image), offset, size) == Disk(plain).ReadFile(offset, size)
      {
        VolumeSize(aes, key, sectorSize, part, plain, image);
        if offset + size <= part {
          ReadsBelowPartition(aes, key, sectorSize, aes(key[..|key| / 2]), aes(key[|key| / 2..]), part, plain, Disk(image),
                              offset, size);
        }
      }
    } else {
      TurnedVolume(sectorSize, part, diskSize);
      var plain, image := Zeros(diskSize), Zeros(part) + seq(diskSize - part, _ => 0xFF);
      var aes := (_: seq<byte>) => ComplementCipher();
      assert image[part] == 0xFF && plain[part] == 0;
      assert image[offset..offset + size][part - offset] == 0xFF && plain[offset..offset + size][part - offset] == 0;
      assert ReadResult(aes, key, sectorSize, part, Disk(image), offset, size) != Disk(plain).ReadFile(offset, size);
    }
  }

  /** Zeros of which the second half is in the partition, under that cipher: the second half comes back as it is stored. */
  lemma StraddlingRead(key: seq<byte>)
    ensures var aes := (_: seq<byte>) => ComplementCipher();
            var image := Zeros(16) + Uniform(0xFF);
            VolumeUnder(aes, key, 16, 16, Zeros(32), image) &&
            ReadResult(aes, key, 16, 16, Disk(image), 0, 32) == Success(image)
  {
    hide EncryptedVolume;
    TurnedVolume(16, 16, 32);
    var image := Zeros(16) + Uniform(0xFF);
    assert image == Zeros(16) + seq(16, _ => 0xFF);
    assert image[0..32] == image;
  }

  // ---------- A volume for any image ----------

  /** A cipher that is undone in both orders. */
  ghost predicate Bijective(c: Cipher)
  {
    forall x: Block :: c.enc(c.dec(x)) == x
  }

  /** The cipher of every key. */
  function Always(c: Cipher): seq<byte> -> Cipher
  {
    _ => c
  }

  /** The tweak of block b of the partition, as section 5.3 of IEEE Std 1619-2007 has it. */
  function StandardTweak(c: Cipher, sectorSize: int, b: nat): Block
    requires sectorSize > 0
  {
    TweakAt(c.enc(LEBytes(16 * b / sectorSize, 16)), 16 * b % sectorSize / 16)
  }

  /** The plaintext an image stands for. */
  function PlainOf(c: Cipher, sectorSize: int, part: nat, image: seq<byte>): (plain: seq<byte>)
    requires sectorSize > 0
    ensures |plain| == |image|
  {
    seq(|image|, i requires 0 <= i < |image| => PlainByte(c, sectorSize, part, image, i))
  }

  function PlainByte(c: Cipher, sectorSize: int, part: nat, image: seq<byte>, i: nat): byte
    requires sectorSize > 0 && i < |image|
  {
    if i < part || part + (i - part) / 16 * 16 + 16 > |image| then image[i]
    else
      var b := (i - part) / 16;
      DecryptBlock(c, StandardTweak(c, sectorSize, b), PartitionBlock(image, part, b))[(i - part) % 16]
  }

  lemma PlainBlock(c: Cipher, sectorSize: int, part: nat, image: seq<byte>, b: nat)
    requires sectorSize > 0 && part + 16 * b + 16 <= |image|
    ensures PartitionBlock(PlainOf(c, sectorSize, part, image), part, b) ==
            DecryptBlock(c, StandardTweak(c, sectorSize, b), PartitionBlock(image, part, b))
  {
    hide DecryptBlock, StandardTweak;
    var plain := PlainOf(c, sectorSize, part, image);
    forall k | 0 <= k < 16
      ensures PartitionBlock(plain, part, b)[k] ==
              DecryptBlock(c, StandardTweak(c, sectorSize, b), PartitionBlock(image, part, b))[k]
    {
      var i := part + 16 * b + k;
      assert (i - part) / 16 == b && (i - part) % 16 == k;
      assert PartitionBlock(plain, part, b)[k] == plain[i];
    }
  }

  lemma EncryptDecrypt(c: Cipher, t: Block, x: Block)
    requires Bijective(c)
    ensures EncryptBlock(c, t, DecryptBlock(c, t, x)) == x
  {
    XorCancels(c.dec(Xor(x, t)), t);
    XorCancels(x, t);
  }

  lemma ImageOfPlain(c: Cipher, key: seq<byte>, sectorSize: int, part: nat, image: seq<byte>)
    requires sectorSize > 0 && part <= |image| && Bijective(c)
    ensures EncryptedVolume(c, c, sectorSize, part, PlainOf(c, sectorSize, part, image), image)
  {
    hide DecryptBlock, EncryptBlock, TweakAt, Bijective, PlainOf;
    var plain := PlainOf(c, sectorSize, part, image);
    assert image[..part] == plain[..part] by {
      BelowPart(c, sectorSize, part, image);
    }
    forall b: nat | part + 16 * b + 16 <= |image|
      ensures PartitionBlock(image, part, b) ==
              StandardBlock(c, c, sectorSize, b, PartitionBlock(plain, part, b))
    {
      PlainBlock(c, sectorSize, part, image, b);
      EncryptDecrypt(c, StandardTweak(c, sectorSize, b), PartitionBlock(image, part, b));
    }
  }

  lemma BelowPart(c: Cipher, sectorSize: int, part: nat, image: seq<byte>)
    requires sectorSize > 0 && part <= |image|
    ensures image[..part] == PlainOf(c, sectorSize, part, image)[..part]
  {
    hide DecryptBlock, StandardTweak;
  }

  /** One image whose read is not its plaintext settles the matter. */
  lemma Refutes(c: Cipher, key: seq<byte>, sectorSize: int, part: nat, image: seq<byte>, offset: nat, size: nat)
    requires sectorSize > 0 && part <= |image| && Bijective(c) && offset + size <= |image|
    requires ReadResult(Always(c), key, sectorSize, part, Disk(image), offset, size) !=
             Success(PlainOf(c, sectorSize, part, image)[offset..offset + size])
    ensures !AlwaysPlaintext(key, sectorSize, part, |image|, offset, size)
  {
    hide EncryptedVolume, ReadResult, PlainOf, Bijective;
    ImageOfPlain(c, key, sectorSize, part, image);
    var plain := PlainOf(c, sectorSize, part, image);
    assert Disk(plain).ReadFile(offset, size) == Success(plain[offset..offset + size]);
  }

  // ---------- Single blocks of a read ----------

  lemma {:induction false} DecryptBlocksAt(c: Cipher, t: Block, data: seq<byte>, j: nat)
    requires 16 * j + 16 <= |data|
    ensures DecryptBlocks(c, t, data)[16 * j..16 * j + 16] == DecryptBlock(c, TweakAt(t, j), BlockOf(data, j))
    decreases j
  {
    hide MulX, DecryptBlock;
    var rest := DecryptBlocks(c, MulX(t), data[16..]);
    assert DecryptBlocks(c, t, data) == DecryptBlock(c, t, data[..16]) + rest;
    if j > 0 {
      DecryptBlocksAt(c, MulX(t), data[16..], j - 1);
      TweakAtShift(t, j - 1);
      SliceOfDrop(data, 16, 16 * (j - 1), 16 * (j - 1) + 16);
      assert DecryptBlocks(c, t, data)[16 * j..16 * j + 16] == rest[16 * (j - 1)..16 * (j - 1) + 16];
    }
  }

  lemma OpenedBlock(c: Cipher, t: Block, data: seq<byte>, j: nat)
    requires 16 * j + 16 <= |data|
    ensures Opened(c, t, data)[16 * j..16 * j + 16] == DecryptBlock(c, TweakAt(t, j), BlockOf(data, j))
  {
    hide DecryptBlock, DecryptBlocks, TweakAt;
    var full := |data| / 16;
    if |data| % 16 == 0 {
      DecryptBlocksAt(c, t, data, j);
    } else {
      DecryptBlocksAt(c, t, data[..16 * full], j);
      assert BlockOf(data[..16 * full], j) == BlockOf(data, j);
      var head := DecryptBlocks(c, t, data[..16 * full]);
      assert Opened(c, t, data)[16 * j..16 * j + 16] == head[16 * j..16 * j + 16];
    }
  }

  lemma {:induction false} DecryptedLength(aes: seq<byte> -> Cipher, key: seq<byte>, sectorSize: int, sector: nat,
                                           data: seq<byte>)
    requires sectorSize > 0
    ensures var r := DecryptedFrom(aes, key, sectorSize, sector, data); r.Success? ==> |r.value| == |data|
    decreases |data|
  {
    hide Opened, SectorTweak, DataCipher, TweakCipher;
    if data != [] {
      DecryptedLength(aes, key, sectorSize, sector + 1, data[Min(sectorSize, |data|)..]);
    }
  }

  lemma FirstChunkBlock(c: Cipher, key: seq<byte>, sectorSize: int, sector: nat, data: seq<byte>, j: nat)
    requires sectorSize > 0 && 16 * j + 16 <= Min(sectorSize, |data|)
    ensures var r := DecryptedFrom(Always(c), key, sectorSize, sector, data);
            r.Success? ==>
              |r.value| == |data| &&
              r.value[16 * j..16 * j + 16] ==
              DecryptBlock(c, TweakAt(c.enc(SectorTweak(sector)), j), data[16 * j..16 * j + 16])
  {
    hide DecryptBlock, Opened, SectorTweak, DecryptedFrom, TweakAt;
    var n, t := Min(sectorSize, |data|), c.enc(SectorTweak(sector));
    DecryptedLength(Always(c), key, sectorSize, sector, data);
    DecryptedUnfold(Always(c), key, sectorSize, sector, data);
    OpenedBlock(c, t, data[..n], j);
    assert BlockOf(data[..n], j) == data[16 * j..16 * j + 16];
    var r := DecryptedFrom(Always(c), key, sectorSize, sector, data);
    if r.Success? {
      var first := Opened(c, t, data[..n]);
      assert r.value[..n] == first;
      assert r.value[16 * j..16 * j + 16] == first[16 * j..16 * j + 16];
    }
  }

  /** Block j of the first chunk of a read: it is decrypted with the j-fold tweak of the sector the offset falls into. */
  lemma ReadBlock(c: Cipher, key: seq<byte>, sectorSize: int, part: nat, image: seq<byte>, offset: nat, size: nat, j: nat)
    requires sectorSize > 0 && part <= offset && offset + size <= |image| && 16 * j + 16 <= Min(sectorSize, size)
    ensures var r := ReadResult(Always(c), key, sectorSize, part, Disk(image), offset, size);
            var at := offset + 16 * j;
            r.Success? ==>
              |r.value| == size &&
              r.value[16 * j..16 * j + 16] ==
              DecryptBlock(c, TweakAt(c.enc(SectorTweak(SectorAt(sectorSize, part, offset))), j), image[at..at + 16])
  {
    hide DecryptBlock, SectorTweak, DecryptedFrom, TweakAt, Always;
    FirstChunkBlock(c, key, sectorSize, SectorAt(sectorSize, part, offset), image[offset..offset + size], j);
    SliceOfSlice(image, offset, offset + size, 16 * j, 16 * j + 16);
  }

  // ---------- Reads that do not begin or end between blocks ----------

  function Reversed(x: Block): Block
  {
    seq(16, i requires 0 <= i < 16 => x[15 - i])
  }

  /** A cipher that turns the order of the bytes round. */
  function ReverseCipher(): Cipher
  {
    var c := RawCipher(Reversed, Reversed);
    assert Invertible(c) by {
      forall x: Block
        ensures c.dec(c.enc(x)) == x
      {
        ReversedTwice(x);
      }
    }
    c
  }

  lemma ReversedTwice(x: Block)
    ensures Reversed(Reversed(x)) == x
  {
  }

  lemma ReverseCipherIs()
    ensures Bijective(ReverseCipher())
    ensures forall t: Block, x: Block, k | 0 <= k < 16 ::
              DecryptBlock(ReverseCipher(), t, x)[k] == (x[15 - k] ^ t[15 - k]) ^ t[k]
  {
    forall x: Block
      ensures Reversed(Reversed(x)) == x
    {
      ReversedTwice(x);
    }
  }

  lemma OtherByte(a: byte, s: byte, t: byte)
    requires a != 0
    ensures (a ^ s) ^ t != (0 ^ s) ^ t
  {
  }

  /** An image that is zero but for one byte. */
  function OneByte(size: nat, at: nat, v: byte): seq<byte>
  {
    seq(size, i => if i == at then v else 0)
  }

  /** Under that cipher byte i of the plaintext depends on one byte of the image, the one that mirrors it in its block. */
  lemma ReversePlainSame(sectorSize: int, part: nat, a: seq<byte>, b: seq<byte>, i: nat)
    requires sectorSize > 0 && part <= i < |a| == |b| && a[i] == b[i]
    requires var mirror := i - (i - part) % 16 * 2 + 15; mirror < |a| ==> a[mirror] == b[mirror]
    ensures PlainOf(ReverseCipher(), sectorSize, part, a)[i] == PlainOf(ReverseCipher(), sectorSize, part, b)[i]
  {
    hide DecryptBlock, StandardTweak, ReverseCipher;
    ReverseCipherIs();
  }

  /** On an image that is zero but for the byte v, byte i of the read is v, but for what the tweak adds. */
  ghost predicate ShowsByte(key: seq<byte>, sectorSize: int, part: nat, diskSize: nat, offset: nat, size: nat, at: nat,
                            i: nat, s: byte, t: byte, v: byte)
    requires sectorSize > 0 && i < size
  {
    var image := OneByte(diskSize, at, v);
    var r := ReadResult(Always(ReverseCipher()), key, sectorSize, part, Disk(image), offset, size);
    r.Success? ==> |r.value| == size && r.value[i] == (v ^ s) ^ t
  }

  /** A read of which byte i depends on a byte of the image on which the plaintext does not depend. */
  lemma DependsElsewhere(key: seq<byte>, sectorSize: int, part: nat, diskSize: nat, offset: nat, size: nat, at: nat,
                         i: nat, s: byte, t: byte)
    requires sectorSize > 0 && part <= offset && offset + size <= diskSize && i < size
    requires at != offset + i && at != offset + i - (offset + i - part) % 16 * 2 + 15
    requires forall v: byte :: ShowsByte(key, sectorSize, part, diskSize, offset, size, at, i, s, t, v)
    ensures !AlwaysPlaintext(key, sectorSize, part, diskSize, offset, size)
  {
    hide ReverseCipher, ReadResult, PlainOf, AlwaysPlaintext;
    var c := ReverseCipher();
    ReverseCipherIs();
    var zero, one := OneByte(diskSize, at, 0), OneByte(diskSize, at, 1);
    ReversePlainSame(sectorSize, part, zero, one, offset + i);
    OtherByte(1, s, t);
    assert ShowsByte(key, sectorSize, part, diskSize, offset, size, at, i, s, t, 0);
    assert ShowsByte(key, sectorSize, part, diskSize, offset, size, at, i, s, t, 1);
    var plain := PlainOf(c, sectorSize, part, zero)[offset..offset + size];
    if ReadResult(Always(c), key, sectorSize, part, Disk(zero), offset, size) == Success(plain) {
      assert plain[i] == (0 ^ s) ^ t;
      var plain' := PlainOf(c, sectorSize, part, one)[offset..offset + size];
      assert plain'[i] == plain[i];
      assert ReadResult(Always(c), key, sectorSize, part, Disk(one), offset, size) != Success(plain');
      Refutes(c, key, sectorSize, part, one, offset, size);
    } else {
      Refutes(c, key, sectorSize, part, zero, offset, size);
    }
  }

  /** A read with a chunk of less than a block fails. */
  lemma ShortChunk(key: seq<byte>, sectorSize: int, part: nat, diskSize: nat, offset: nat, size: nat)
    requires sectorSize > 0 && part <= offset && offset + size <= diskSize && 0 < size && Min(sectorSize, size) < 16
    ensures !AlwaysPlaintext(key, sectorSize, part, diskSize, offset, size)
  {
    hide PlainOf, DecryptedFrom, AlwaysPlaintext, ReverseCipher;
    var image := Zeros(diskSize);
    ReverseCipherIs();
    ReadFailsShort(ReverseCipher(), key, sectorSize, part, image, offset, size);
    Refutes(ReverseCipher(), key, sectorSize, part, image, offset, size);
  }

  lemma ReadFailsShort(c: Cipher, key: seq<byte>, sectorSize: int, part: nat, image: seq<byte>, offset: nat, size: nat)
    requires sectorSize > 0 && part <= offset && offset + size <= |image| && 0 < size && Min(sectorSize, size) < 16
    ensures ReadResult(Always(c), key, sectorSize, part, Disk(image), offset, size) == Failure
  {
    hide DecryptedFrom;
    DecryptedUnfold(Always(c), key, sectorSize, SectorAt(sectorSize, part, offset), image[offset..offset + size]);
  }

  lemma FirstByte(key: seq<byte>, sectorSize: int, part: nat, image: seq<byte>, offset: nat, size: nat, t: Block)
    requires sectorSize > 0 && part <= offset && offset + size <= |image| && Min(sectorSize, size) >= 16
    requires t == TweakAt(ReverseCipher().enc(SectorTweak(SectorAt(sectorSize, part, offset))), 0)
    ensures var r := ReadResult(Always(ReverseCipher()), key, sectorSize, part, Disk(image), offset, size);
            r.Success? ==> |r.value| == size && r.value[0] == (image[offset + 15] ^ t[15]) ^ t[0]
  {
    hide ReadResult, ReverseCipher, DecryptBlock, SectorTweak, SectorAt, TweakAt, Always;
    ReverseCipherIs();
    ReadBlock(ReverseCipher(), key, sectorSize, part, image, offset, size, 0);
    var r := ReadResult(Always(ReverseCipher()), key, sectorSize, part, Disk(image), offset, size);
    if r.Success? {
      assert r.value[0] == r.value[16 * 0..16 * 0 + 16][0];
    }
  }

  /** A read that does not start between two blocks. */
  lemma StartsInBlock(key: seq<byte>, sectorSize: int, part: nat, diskSize: nat, offset: nat, size: nat)
    requires sectorSize > 0 && part <= offset && offset + size <= diskSize && 0 < size && (offset - part) % 16 != 0
    ensures !AlwaysPlaintext(key, sectorSize, part, diskSize, offset, size)
  {
    hide ReadResult, AlwaysPlaintext, ReverseCipher, DecryptBlock, SectorTweak, SectorAt;
    if Min(sectorSize, size) < 16 {
      ShortChunk(key, sectorSize, part, diskSize, offset, size);
    } else {
      var c := ReverseCipher();
      ReverseCipherIs();
      var t := TweakAt(c.enc(SectorTweak(SectorAt(sectorSize, part, offset))), 0);
      var at := offset + 15;
      forall v: byte
        ensures ShowsByte(key, sectorSize, part, diskSize, offset, size, at, 0, t[15], t[0], v)
      {
        FirstByte(key, sectorSize, part, OneByte(diskSize, at, v), offset, size, t);
      }
      DependsElsewhere(key, sectorSize, part, diskSize, offset, size, at, 0, t[15], t[0]);
    }
  }

  /** The last step's block: the partial block, filled up with the end of the block before. */
  function StolenBlock(data: seq<byte>): (last: Block)
    requires |data| >= 16
    ensures |data| % 16 != 0 ==> last[15] == data[|data| - |data| % 16 - 1]
  {
    var full, rem := |data| / 16, |data| % 16;
    data[16 * full..] + data[16 * (full - 1) + rem..16 * full]
  }

  lemma OpenedTail(c: Cipher, t: Block, data: seq<byte>)
    requires |data| >= 16 && |data| % 16 != 0
    ensures Opened(c, t, data)[|data| - |data| % 16] == DecryptBlock(c, TweakAt(t, |data| / 16), StolenBlock(data))[0]
  {
    hide DecryptBlock, TweakAt, DecryptBlocks;
  }

  lemma DecryptedChunk(c: Cipher, key: seq<byte>, sectorSize: int, sector: nat, data: seq<byte>)
    requires 16 <= |data| < sectorSize
    ensures DecryptedFrom(Always(c), key, sectorSize, sector, data) == Success(Opened(c, c.enc(SectorTweak(sector)), data))
  {
    hide DecryptedFrom, Opened, SectorTweak, Prepend;
    DecryptedUnfold(Always(c), key, sectorSize, sector, data);
    assert data[..|data|] == data && data[|data|..] == [];
    DecryptedNothing(Always(c), key, sectorSize, sector + 1);
    PrependAll(Opened(c, c.enc(SectorTweak(sector)), data));
  }

  /** The first byte of the partial block that ends a read inside one sector. */
  lemma ReadTail(c: Cipher, key: seq<byte>, sectorSize: int, part: nat, image: seq<byte>, offset: nat, size: nat)
    returns (last: Block)
    requires sectorSize > 0 && part <= offset && offset + size <= |image| && 16 <= size < sectorSize && size % 16 != 0
    ensures last[15] == image[offset + size - size % 16 - 1]
    ensures var r := ReadResult(Always(c), key, sectorSize, part, Disk(image), offset, size);
            var t := TweakAt(c.enc(SectorTweak(SectorAt(sectorSize, part, offset))), size / 16);
            r.Success? ==> |r.value| == size && r.value[size - size % 16] == DecryptBlock(c, t, last)[0]
  {
    hide DecryptBlock, SectorTweak, DecryptedFrom, TweakAt, Opened, Always, StolenBlock;
    var data, sector := image[offset..offset + size], SectorAt(sectorSize, part, offset);
    DecryptedChunk(c, key, sectorSize, sector, data);
    OpenedTail(c, c.enc(SectorTweak(sector)), data);
    last := StolenBlock(data);
  }

  /** A read that starts between two blocks and does not end between two. */
  lemma EndsInBlock(key: seq<byte>, sectorSize: int, part: nat, diskSize: nat, offset: nat, size: nat)
    requires sectorSize > 0 && sectorSize % 16 == 0 && part <= offset && offset + size <= diskSize
    requires (offset - part) % 16 == 0 && size % 16 != 0
    ensures !AlwaysPlaintext(key, sectorSize, part, diskSize, offset, size)
  {
    if size < 16 {
      ShortChunk(key, sectorSize, part, diskSize, offset, size);
    } else {
      var m, tail := LastChunk(sectorSize, size);
      EndsInTail(key, sectorSize, part, diskSize, offset, m, tail);
    }
  }

  lemma EndsInTail(key: seq<byte>, sectorSize: int, part: nat, diskSize: nat, offset: nat, m: nat, tail: nat)
    requires sectorSize > 0 && part <= offset && offset + m + tail <= diskSize && m + tail >= 16
    requires m % sectorSize == 0 && m % 16 == 0 && tail < sectorSize && tail % 16 != 0 && (offset - part) % 16 == 0
    ensures !AlwaysPlaintext(key, sectorSize, part, diskSize, offset, m + tail)
  {
    hide ReadResult, AlwaysPlaintext, ReverseCipher, SectorTweak, SectorAt, TweakAt, ShowsByte;
    var t := TweakAt(ReverseCipher().enc(SectorTweak(SectorAt(sectorSize, part, offset + m))), tail / 16);
    var size := m + tail;
    var i := size - tail % 16;
    var at := offset + i - 1;
    forall v: byte
      ensures ShowsByte(key, sectorSize, part, diskSize, offset, size, at, i, t[15], t[0], v)
    {
      TailByte(key, sectorSize, part, diskSize, offset, m, tail, t, v);
    }
    DependsElsewhere(key, sectorSize, part, diskSize, offset, size, at, i, t[15], t[0]);
  }

  lemma BlocksInSectors(sectorSize: nat, k: nat)
    requires sectorSize % 16 == 0
    ensures sectorSize * k % 16 == 0
  {
    var units := sectorSize / 16;
    MulAssociates(16, units, k);
    DivModUnique(16, units * k, 0);
  }

  lemma LastChunk(sectorSize: nat, size: nat) returns (m: nat, tail: nat)
    requires sectorSize > 0 && sectorSize % 16 == 0
    ensures size == m + tail && m % sectorSize == 0 && m % 16 == 0 && tail < sectorSize
  {
    DivMod(size, sectorSize);
    m, tail := size - size % sectorSize, size % sectorSize;
    DivModUnique(sectorSize, size / sectorSize, 0);
    BlocksInSectors(sectorSize, size / sectorSize);
  }

  lemma TailByte(key: seq<byte>, sectorSize: int, part: nat, diskSize: nat, offset: nat, m: nat, tail: nat, t: Block,
                 v: byte)
    requires sectorSize > 0 && part <= offset && offset + m + tail <= diskSize && m + tail >= 16
    requires m % sectorSize == 0 && m % 16 == 0
    requires tail < sectorSize && tail % 16 != 0
    requires t == TweakAt(ReverseCipher().enc(SectorTweak(SectorAt(sectorSize, part, offset + m))), tail / 16)
    ensures var i := m + tail - tail % 16;
            ShowsByte(key, sectorSize, part, diskSize, offset, m + tail, offset + i - 1, i, t[15], t[0], v)
  {
    hide ReadResult, ReverseCipher, DecryptBlock, SectorTweak, SectorAt, TweakAt, Always;
    var i := m + tail - tail % 16;
    var image := OneByte(diskSize, offset + i - 1, v);
    var c, disk := ReverseCipher(), Disk(image);
    ReverseCipherIs();
    SplitRead(Always(c), key, sectorSize, part, disk, offset, m, tail);
    ReadLength(Always(c), key, sectorSize, part, disk, offset, m);
    if tail < 16 {
      ReadFailsShort(c, key, sectorSize, part, image, offset + m, tail);
    } else {
      var last := ReadTail(c, key, sectorSize, part, image, offset + m, tail);
    }
  }

  lemma ReadLength(aes: seq<byte> -> Cipher, key: seq<byte>, sectorSize: int, part: int, disk: Disk, offset: int, size: int)
    requires sectorSize > 0
    ensures var r := ReadResult(aes, key, sectorSize, part, disk, offset, size); r.Success? ==> |r.value| == size
  {
    hide DecryptedFrom;
    if disk.InRange(offset, size) && offset >= part {
      DecryptedLength(aes, key, sectorSize, (offset - part) / sectorSize, disk.bytes[offset..offset + size]);
    }
  }

  // ---------- Reads under the wrong tweak ----------

  /** Two blocks change places. */
  function Swapped(b: Block, x: Block): Block
  {
    if x == Uniform(1) then b else if x == b then Uniform(1) else x
  }

  lemma SwappedTwice(b: Block, x: Block)
    ensures Swapped(b, Swapped(b, x)) == x
  {
  }

  function SwapEncrypt(b: Block, g: Block, x: Block): Block
  {
    Xor(Swapped(b, x), g)
  }

  function SwapDecrypt(b: Block, g: Block, y: Block): Block
  {
    Swapped(b, Xor(y, g))
  }

  lemma SwapUndone(b: Block, g: Block, x: Block)
    ensures SwapDecrypt(b, g, SwapEncrypt(b, g, x)) == x && SwapEncrypt(b, g, SwapDecrypt(b, g, x)) == x
  {
    hide Xor, Swapped;
    XorCancels(Swapped(b, x), g);
    XorCancels(x, g);
    SwappedTwice(b, x);
    SwappedTwice(b, Xor(x, g));
  }

  /** A cipher that swaps two blocks and adds a constant. */
  function SwapCipher(b: Block, g: Block): Cipher
  {
    var c := RawCipher((x: Block) => SwapEncrypt(b, g, x), (y: Block) => SwapDecrypt(b, g, y));
    assert Invertible(c) by {
      hide SwapEncrypt, SwapDecrypt;
      forall x: Block
        ensures c.dec(c.enc(x)) == x
      {
        SwapUndone(b, g, x);
      }
    }
    c
  }

  lemma SwapCipherIs(b: Block, g: Block)
    ensures Bijective(SwapCipher(b, g))
    ensures forall x: Block :: SwapCipher(b, g).enc(x) == SwapEncrypt(b, g, x)
    ensures forall y: Block :: SwapCipher(b, g).dec(y) == SwapDecrypt(b, g, y)
  {
    hide SwapEncrypt, SwapDecrypt;
    forall y: Block
      ensures SwapCipher(b, g).enc(SwapCipher(b, g).dec(y)) == y
    {
      SwapUndone(b, g, y);
    }
  }

  /** The block that the cipher swaps if it is decrypted under tweak t. */
  function Trap(g: Block, t: Block): Block
  {
    Xor(Xor(Uniform(1), t), g)
  }

  lemma TrapBytes(g: Block, s: Block, t: Block)
    ensures Xor(Xor(Trap(g, s), t), g) == Xor(Uniform(1), Xor(s, t))
    ensures s == t ==> Xor(Uniform(1), Xor(s, t)) == Uniform(1)
    ensures Xor(Uniform(1), Xor(s, t)) == Uniform(1) ==> s == t
    ensures Xor(Xor(Uniform(1), Xor(s, t)), t) == Xor(Uniform(1), s)
  {
    forall i | 0 <= i < 16
      ensures Xor(Xor(Trap(g, s), t), g)[i] == Xor(Uniform(1), Xor(s, t))[i]
    {
      FourBytes(s[i], g[i], t[i]);
    }
    forall i | 0 <= i < 16
      ensures Xor(Uniform(1), Xor(s, t))[i] == 1 ==> s[i] == t[i]
      ensures s == t ==> Xor(Uniform(1), Xor(s, t))[i] == 1
      ensures Xor(Xor(Uniform(1), Xor(s, t)), t)[i] == Xor(Uniform(1), s)[i]
    {
      ThreeBytes(s[i], t[i]);
    }
  }

  lemma FourBytes(s: byte, g: byte, t: byte)
    ensures ((((1 ^ s) ^ g) ^ t) ^ g) == 1 ^ (s ^ t)
  {
  }

  lemma ThreeBytes(s: byte, t: byte)
    ensures 1 ^ (s ^ t) == 1 <==> s == t
    ensures (1 ^ (s ^ t)) ^ t == 1 ^ s
  {
  }

  lemma XorInjective(a: Block, b: Block, t: Block)
    requires Xor(a, t) == Xor(b, t)
    ensures a == b
  {
    XorCancels(a, t);
    XorCancels(b, t);
  }

  /** Under another tweak that block is decrypted to something else. */
  lemma TrapDiffers(b: Block, g: Block, s: Block, t: Block)
    requires s != t && b != Uniform(1) && b != Xor(Uniform(1), Xor(s, t))
    ensures DecryptBlock(SwapCipher(b, g), s, Trap(g, s)) != DecryptBlock(SwapCipher(b, g), t, Trap(g, s))
  {
    hide SwapCipher, Xor, Trap, Uniform, Bijective;
    SwapCipherIs(b, g);
    TrapBytes(g, s, s);
    TrapBytes(g, s, t);
    var one, other := Uniform(1), Xor(Uniform(1), Xor(s, t));
    assert Swapped(b, one) == b && Swapped(b, other) == other;
    assert DecryptBlock(SwapCipher(b, g), s, Trap(g, s)) == Xor(b, s);
    assert DecryptBlock(SwapCipher(b, g), t, Trap(g, s)) == Xor(one, s);
    if Xor(b, s) == Xor(one, s) {
      XorInjective(b, one, s);
    }
  }

  /** A block of the first chunk that is decrypted with another tweak than it was encrypted with. */
  lemma WrongTweak(b: Block, g: Block, key: seq<byte>, sectorSize: int, part: nat, diskSize: nat, offset: nat, size: nat,
                   j: nat, s: Block, t: Block)
    requires sectorSize > 0 && part <= offset && offset + size <= diskSize && (offset - part) % 16 == 0
    requires 16 * j + 16 <= Min(sectorSize, size)
    requires s == TweakAt(SwapCipher(b, g).enc(SectorTweak(SectorAt(sectorSize, part, offset))), j)
    requires t == StandardTweak(SwapCipher(b, g), sectorSize, (offset - part) / 16 + j)
    requires s != t && b != Uniform(1) && b != Xor(Uniform(1), Xor(s, t))
    ensures !AlwaysPlaintext(key, sectorSize, part, diskSize, offset, size)
  {
    hide SwapCipher, Xor, Trap, SectorTweak, SectorAt, TweakAt, StandardTweak, DecryptBlock, ReadResult, PlainOf,
         AlwaysPlaintext, Always, Bijective, Uniform;
    var c, at := SwapCipher(b, g), offset + 16 * j;
    SwapCipherIs(b, g);
    var image := Zeros(at) + Trap(g, s) + Zeros(diskSize - at - 16);
    assert image[at..at + 16] == Trap(g, s);
    ReadBlock(c, key, sectorSize, part, image, offset, size, j);
    var n := (offset - part) / 16 + j;
    assert part + 16 * n == at;
    PlainBlock(c, sectorSize, part, image, n);
    TrapDiffers(b, g, s, t);
    var plain := PlainOf(c, sectorSize, part, image);
    SliceOfSlice(plain, offset, offset + size, 16 * j, 16 * j + 16);
    assert plain[offset..offset + size][16 * j..16 * j + 16] == DecryptBlock(c, t, Trap(g, s));
    Refutes(c, key, sectorSize, part, image, offset, size);
  }

  lemma XorZero(x: Block)
    ensures Xor(x, x) == Uniform(0) && Xor(x, Uniform(0)) == x && Xor(Uniform(0), x) == x
  {
  }

  lemma XorSame(a: Block, b: Block)
    ensures Xor(a, Xor(a, b)) == b
    ensures Xor(a, b) == Uniform(0) ==> a == b
  {
    forall i | 0 <= i < 16
      ensures Xor(a, Xor(a, b))[i] == b[i]
      ensures Xor(a, b)[i] == 0 ==> a[i] == b[i]
    {
      TwoBytes(a[i], b[i]);
    }
    if Xor(a, b) == Uniform(0) {
      assert forall i | 0 <= i < 16 :: Xor(a, b)[i] == 0;
    }
  }

  lemma TwoBytes(a: byte, b: byte)
    ensures a ^ (a ^ b) == b
    ensures a ^ b == 0 ==> a == b
  {
  }

  lemma {:induction false} ZeroTweak(j: nat)
    ensures TweakAt(Uniform(0), j) == Uniform(0)
  {
    hide MulX;
    if j > 0 {
      ZeroTweak(j - 1);
      assert MulX(Uniform(0)) == Uniform(0) by {
        ZeroDoubled();
      }
    }
  }

  lemma ZeroDoubled()
    ensures MulX(Uniform(0)) == Uniform(0)
  {
  }

  lemma SectorTweaksDiffer(sector: nat)
    requires sector + 1 < 2 * TWO_TO_63
    ensures SectorTweak(sector) != SectorTweak(sector + 1)
    ensures forall v: byte | v != 0 :: SectorTweak(sector) != Uniform(v) && SectorTweak(sector + 1) != Uniform(v)
    ensures Xor(SectorTweak(sector + 1), SectorTweak(sector))[8] == 0
  {
    hide LEBytes, LE;
    var a, b := LEBytes(sector, 8), LEBytes(sector + 1, 8);
    assert Pow256(8) == 2 * TWO_TO_63 by {
      assert Pow256(2) == 0x1_0000 && Pow256(4) == 0x1_0000_0000 && Pow256(6) == 0x1_0000_0000_0000;
    }
    LEOfBytes(sector, 8);
    LEOfBytes(sector + 1, 8);
    assert SectorTweak(sector)[..8] == a && SectorTweak(sector + 1)[..8] == b;
    assert SectorTweak(sector)[8] == 0 && SectorTweak(sector + 1)[8] == 0;
  }

  /** Where a block of the partition lies: its sector, and its place in the sector. */
  lemma BlockPlace(sectorSize: nat, from: nat)
    requires sectorSize > 0 && sectorSize % 16 == 0 && from % 16 == 0
    ensures 16 * (from / 16) == from && from % sectorSize % 16 == 0
    ensures var j := (sectorSize - from % sectorSize) / 16;
            16 * j == sectorSize - from % sectorSize &&
            16 * (from / 16 + j) / sectorSize == from / sectorSize + 1 && 16 * (from / 16 + j) % sectorSize == 0
  {
    DivMod(from, sectorSize);
    BlockPlaceIn(sectorSize, from / sectorSize, from % sectorSize);
  }

  lemma BlockPlaceIn(sectorSize: nat, q: nat, r: nat)
    requires sectorSize % 16 == 0 && r < sectorSize && (sectorSize * q + r) % 16 == 0
    ensures r % 16 == 0
    ensures var next := 16 * ((sectorSize * q + r) / 16 + (sectorSize - r) / 16);
            next / sectorSize == q + 1 && next % sectorSize == 0
  {
    BlocksInSectors(sectorSize, q);
    WholeBlocks(sectorSize * q, sectorSize, r);
    NextSectorStart(0, sectorSize, q);
    DivModUnique(sectorSize, q + 1, 0);
  }

  lemma WholeBlocks(start: nat, sectorSize: nat, r: nat)
    requires start % 16 == 0 && sectorSize % 16 == 0 && r < sectorSize && (start + r) % 16 == 0
    ensures r % 16 == 0 && 16 * ((start + r) / 16 + (sectorSize - r) / 16) == start + sectorSize
  {
  }

  /** A read from the middle of a sector, if doubling as often as there are blocks before it moves some tweak. */
  lemma StartsInSector(key: seq<byte>, sectorSize: int, part: nat, diskSize: nat, offset: nat, size: nat, u: Block)
    requires sectorSize > 0 && sectorSize % 16 == 0 && part <= offset && offset + size <= diskSize < TWO_TO_63
    requires (offset - part) % 16 == 0 && size >= 16
    requires TweakAt(u, (offset - part) % sectorSize / 16) != u
    ensures !AlwaysPlaintext(key, sectorSize, part, diskSize, offset, size)
  {
    hide SwapCipher, Xor, SectorTweak, TweakAt, AlwaysPlaintext, Uniform, LEBytes, Bijective;
    var from := offset - part;
    var sector, k := SectorAt(sectorSize, part, offset), from % sectorSize / 16;
    var w, t := SectorTweak(sector), TweakAt(u, k);
    var b := if Xor(Uniform(1), Xor(u, t)) == Uniform(2) then Uniform(3) else Uniform(2);
    var g := Xor(w, u);
    BlockPlace(sectorSize, from);
    SectorBound(sectorSize, from);
    SectorTweaksDiffer(sector);
    SectorTweakIsStandard(sector);
    Uniforms();
    SwapCipherIs(b, g);
    XorSame(w, u);
    assert SwapCipher(b, g).enc(w) == u;
    TweakAtNone(u);
    WrongTweak(b, g, key, sectorSize, part, diskSize, offset, size, 0, u, t);
  }

  lemma SectorBound(sectorSize: nat, from: nat)
    requires sectorSize > 0 && from < TWO_TO_63
    ensures 0 <= from / sectorSize < TWO_TO_63
  {
    DivMod(from, sectorSize);
    MulAtLeast(from / sectorSize, sectorSize);
  }

  lemma Uniforms()
    ensures Uniform(1) != Uniform(2) && Uniform(2) != Uniform(3) && Uniform(1) != Uniform(3)
  {
    assert Uniform(1)[0] == 1 && Uniform(2)[0] == 2 && Uniform(3)[0] == 3;
  }

  lemma TweakAtNone(t: Block)
    ensures TweakAt(t, 0) == t
  {
  }

  /** A read from the middle of a sector on into the next. */
  lemma CrossesSectors(key: seq<byte>, sectorSize: int, part: nat, diskSize: nat, offset: nat, size: nat)
    requires sectorSize > 0 && sectorSize % 16 == 0 && part <= offset && offset + size <= diskSize < TWO_TO_63
    requires (offset - part) % 16 == 0 && size % 16 == 0
    requires 0 < (offset - part) % sectorSize && (offset - part) % sectorSize + size > sectorSize
    ensures !AlwaysPlaintext(key, sectorSize, part, diskSize, offset, size)
  {
    hide SwapCipher, Xor, SectorTweak, TweakAt, AlwaysPlaintext, Uniform, LEBytes, Bijective;
    var from := offset - part;
    var sector, j := SectorAt(sectorSize, part, offset), (sectorSize - from % sectorSize) / 16;
    var w, w' := SectorTweak(sector), SectorTweak(sector + 1);
    BlockPlace(sectorSize, from);
    SectorBound(sectorSize, from);
    SectorTweaksDiffer(sector);
    SectorTweakIsStandard(sector + 1);
    Uniforms();
    SwapCipherIs(Uniform(2), w);
    XorZero(w);
    XorZero(Xor(w', w));
    ZeroTweak(j);
    TweakAtNone(Xor(w', w));
    if Xor(w', w) == Uniform(0) {
      XorSame(w', w);
    }
    TwoIsNotOne(Xor(w', w));
    WrongTweak(Uniform(2), w, key, sectorSize, part, diskSize, offset, size, j, Uniform(0), Xor(w', w));
  }

  lemma TwoIsNotOne(x: Block)
    requires x[8] == 0
    ensures Uniform(2) != Xor(Uniform(1), x)
  {
    assert Xor(Uniform(1), x)[8] == 1;
  }

  // ---------- Exactly the reads that give the plaintext ----------

  /** Doubling k times leaves every tweak as it is. */
  ghost predicate Neutral(k: nat)
  {
    forall t: Block :: TweakAt(t, k) == t
  }

  lemma {:induction false} TweakAtSum(t: Block, j: nat, k: nat)
    ensures TweakAt(t, j + k) == TweakAt(TweakAt(t, j), k)
  {
    hide MulX;
    if k > 0 {
      TweakAtSum(t, j, k - 1);
    }
  }

  /** A read inside one sector, in front of which a neutral number of blocks lies in the sector. */
  lemma InsideSector(aes: seq<byte> -> Cipher, key: seq<byte>, sectorSize: int, part: nat, plain: seq<byte>,
                     image: seq<byte>, sector: nat, k: nat, size: nat)
    requires sectorSize > 0 && sectorSize % 16 == 0 && size % 16 == 0 && size > 0 && 16 * k + size <= sectorSize
    requires VolumeUnder(aes, key, sectorSize, part, plain, image) && |plain| == |image| < TWO_TO_63 && Neutral(k)
    requires SectorStart(part, sectorSize, sector) + 16 * k + size <= |image|
    ensures var at := SectorStart(part, sectorSize, sector) + 16 * k;
            DecryptedFrom(aes, key, sectorSize, sector, image[at..at + size]) == Success(plain[at..at + size])
  {
    hide EncryptBlock, DecryptBlocks, SectorTweak, EncryptedVolume, SectorStart, TweakAt, DecryptedFrom, Opened, Prepend;
    var at := SectorStart(part, sectorSize, sector) + 16 * k;
    var c, w := aes(key[..|key| / 2]), aes(key[|key| / 2..]);
    var t := w.enc(SectorTweak(sector));
    var data, wanted := image[at..at + size], plain[at..at + size];
    forall j: nat | 16 * j + 16 <= size
      ensures BlockOf(data, j) == EncryptBlock(c, TweakAt(t, j), BlockOf(wanted, j))
    {
      ChunkBlock(c, w, sectorSize, part, plain, image, sector, k + j);
      TweakAtSum(t, j, k);
      SliceOfSlice(image, at, at + size, 16 * j, 16 * j + 16);
      SliceOfSlice(plain, at, at + size, 16 * j, 16 * j + 16);
    }
    DecryptInvertsEncrypt(c, t, wanted, data);
    OpenedWhole(c, t, data);
    DecryptedUnfold(aes, key, sectorSize, sector, data);
    assert data[..size] == data && data[size..] == [];
    DecryptedNothing(aes, key, sectorSize, sector + 1);
    PrependAll(wanted);
  }

  lemma OpenedWhole(c: Cipher, t: Block, data: seq<byte>)
    requires |data| >= 16 && |data| % 16 == 0
    ensures Opened(c, t, data) == DecryptBlocks(c, t, data)
  {
  }

  /** A read in the encrypted partition that gives the plaintext: of whole blocks from the start of a sector on, or
      inside one sector behind a neutral number of blocks. */
  ghost predicate ReadsRight(sectorSize: int, from: nat, size: nat)
    requires sectorSize > 0
  {
    size == 0 ||
    (size % 16 == 0 &&
     (from % sectorSize == 0 ||
      (from % 16 == 0 && from % sectorSize + size <= sectorSize && Neutral(from % sectorSize / 16))))
  }

  lemma RightIsPlaintext(key: seq<byte>, sectorSize: int, part: nat, diskSize: nat, offset: nat, size: nat)
    requires sectorSize > 0 && sectorSize % 16 == 0 && part <= offset && offset + size <= diskSize < TWO_TO_63
    requires ReadsRight(sectorSize, offset - part, size)
    ensures AlwaysPlaintext(key, sectorSize, part, diskSize, offset, size)
  {
    hide EncryptedVolume, ReadResult, Neutral;
    forall aes: seq<byte> -> Cipher, plain, image |
      VolumeUnder(aes, key, sectorSize, part, plain, image) && |image| == diskSize
      ensures ReadResult(aes, key, sectorSize, part, Disk(image), offset, size) == Disk(plain).ReadFile(offset, size)
    {
      VolumeSize(aes, key, sectorSize, part, plain, image);
      if size == 0 {
        ReadsNothing(aes, key, sectorSize, part, plain, image, offset);
      } else if (offset - part) % sectorSize == 0 {
        AlignedRead(aes, key, sectorSize, aes(key[..|key| / 2]), aes(key[|key| / 2..]), part, plain, Disk(image), offset,
                    size);
      } else {
        ReadsInside(aes, key, sectorSize, part, plain, image, offset, size);
      }
    }
  }

  lemma ReadsNothing(aes: seq<byte> -> Cipher, key: seq<byte>, sectorSize: int, part: nat, plain: seq<byte>,
                     image: seq<byte>, offset: nat)
    requires sectorSize > 0 && part <= offset <= |image| == |plain|
    ensures ReadResult(aes, key, sectorSize, part, Disk(image), offset, 0) == Disk(plain).ReadFile(offset, 0)
  {
    hide DecryptedFrom;
    DecryptedNothing(aes, key, sectorSize, SectorAt(sectorSize, part, offset));
    assert image[offset..offset] == [] == plain[offset..offset];
  }

  lemma ReadsInside(aes: seq<byte> -> Cipher, key: seq<byte>, sectorSize: int, part: nat, plain: seq<byte>,
                    image: seq<byte>, offset: nat, size: nat)
    requires sectorSize > 0 && sectorSize % 16 == 0 && part <= offset && offset + size <= |image| < TWO_TO_63
    requires VolumeUnder(aes, key, sectorSize, part, plain, image) && |plain| == |image|
    requires size % 16 == 0 && size > 0 && (offset - part) % 16 == 0 && (offset - part) % sectorSize + size <= sectorSize
    requires Neutral((offset - part) % sectorSize / 16)
    ensures ReadResult(aes, key, sectorSize, part, Disk(image), offset, size) == Disk(plain).ReadFile(offset, size)
  {
    hide EncryptedVolume, DecryptedFrom, Neutral;
    var from, sector := offset - part, SectorAt(sectorSize, part, offset);
    BlockPlace(sectorSize, from);
    DivMod(from, sectorSize);
    InsideSector(aes, key, sectorSize, part, plain, image, sector, from % sectorSize / 16, size);
  }

  /** All reads: from in front of the partition on those that end in front of it, too, from the partition on the right
      ones, and those that leave the disk. */
  lemma ReadExact(key: seq<byte>, sectorSize: int, part: nat, diskSize: nat, offset: int, size: int)
    requires sectorSize > 0 && sectorSize % 16 == 0 && part <= diskSize < TWO_TO_63
    ensures AlwaysPlaintext(key, sectorSize, part, diskSize, offset, size) <==>
            !Disk(Zeros(diskSize)).InRange(offset, size) ||
            (if offset < part then offset + size <= part else ReadsRight(sectorSize, offset - part, size))
  {
    hide AlwaysPlaintext, Neutral;
    if !Disk(Zeros(diskSize)).InRange(offset, size) {
      OffDisk(key, sectorSize, part, diskSize, offset, size);
    } else if offset < part {
      StraddlingReadExact(key, sectorSize, part, diskSize, offset, size);
    } else if ReadsRight(sectorSize, offset - part, size) {
      RightIsPlaintext(key, sectorSize, part, diskSize, offset, size);
    } else {
      OtherwiseWrong(key, sectorSize, part, diskSize, offset, size);
    }
  }

  lemma OffDisk(key: seq<byte>, sectorSize: int, part: nat, diskSize: nat, offset: int, size: int)
    requires sectorSize > 0 && !Disk(Zeros(diskSize)).InRange(offset, size)
    ensures AlwaysPlaintext(key, sectorSize, part, diskSize, offset, size)
  {
    hide DecryptedFrom;
    forall aes: seq<byte> -> Cipher, plain, image |
      VolumeUnder(aes, key, sectorSize, part, plain, image) && |image| == diskSize
      ensures ReadResult(aes, key, sectorSize, part, Disk(image), offset, size) == Disk(plain).ReadFile(offset, size)
    {
      hide EncryptedVolume;
      VolumeSize(aes, key, sectorSize, part, plain, image);
    }
  }

  lemma OtherwiseWrong(key: seq<byte>, sectorSize: int, part: nat, diskSize: nat, offset: nat, size: nat)
    requires sectorSize > 0 && sectorSize % 16 == 0 && part <= offset && offset + size <= diskSize < TWO_TO_63
    requires !ReadsRight(sectorSize, offset - part, size)
    ensures !AlwaysPlaintext(key, sectorSize, part, diskSize, offset, size)
  {
    hide AlwaysPlaintext, TweakAt;
    var from := offset - part;
    if from % 16 != 0 {
      StartsInBlock(key, sectorSize, part, diskSize, offset, size);
    } else if size % 16 != 0 {
      EndsInBlock(key, sectorSize, part, diskSize, offset, size);
    } else if from % sectorSize + size > sectorSize {
      DivMod(from, sectorSize);
      CrossesSectors(key, sectorSize, part, diskSize, offset, size);
    } else {
      DivMod(from, sectorSize);
      var u: Block :| TweakAt(u, from % sectorSize / 16) != u;
      StartsInSector(key, sectorSize, part, diskSize, offset, size, u);
    }
  }

  // ---------- Sectors of up to 4096 bytes ----------

  /** The polynomial 1. */
  function One(): Block
  {
    [1] + Zeros(15)
  }

  lemma OneIsOne(j: nat)
    requires j < 128
    ensures Coefficient(One(), j) <==> j == 0
  {
    if j < 8 {
      OneBit(j);
    } else {
      assert One()[j / 8] == 0;
      NoBit(j % 8);
    }
  }

  lemma OneBit(j: nat)
    requires j < 8
    ensures BitOf(1, j) <==> j == 0
  {
  }

  lemma NoBit(j: nat)
    requires j < 8
    ensures !BitOf(0, j)
  {
  }

  /** Up to 127 doublings of 1 give a single power of x. */
  lemma {:induction false} LowPower(k: nat, j: nat)
    requires k < 128 && j < 128
    ensures Coefficient(TweakAt(One(), k), j) <==> j == k
    decreases k
  {
    hide MulX, Coefficient, One;
    if k == 0 {
      OneIsOne(j);
    } else {
      var t := TweakAt(One(), k - 1);
      MulXCoefficient(t, j);
      LowPower(k - 1, 127);
      if j > 0 {
        LowPower(k - 1, j - 1);
      }
    }
  }

  /** High coefficients are only moved up. */
  lemma {:induction false} HighCoefficient(t: Block, k: nat, j: nat)
    requires k + 7 <= j < 128
    ensures Coefficient(TweakAt(t, k), j) <==> Coefficient(t, j - k)
    decreases k
  {
    hide MulX, Coefficient;
    if k > 0 {
      MulXCoefficient(TweakAt(t, k - 1), j);
      HighCoefficient(t, k - 1, j - 1);
    }
  }

  /** The power 128 is x^7 + x^2 + x + 1; up to 120 doublings more only move that up. */
  lemma {:induction false} MiddlePower(k: nat, j: nat)
    requires k <= 120 && j < 128
    ensures Coefficient(TweakAt(One(), 128 + k), j) <==> j in {k, k + 1, k + 2, k + 7}
    decreases k
  {
    hide MulX, Coefficient, One;
    MulXCoefficient(TweakAt(One(), 127 + k), j);
    if k == 0 {
      LowPower(127, 127);
      if j > 0 {
        LowPower(127, j - 1);
      }
    } else {
      MiddlePower(k - 1, 127);
      if j > 0 {
        MiddlePower(k - 1, j - 1);
      }
    }
  }

  /** No number of blocks below 256, as many as a sector of 4096 bytes has, is neutral. */
  lemma NotNeutral(k: nat)
    requires 0 < k < 256
    ensures !Neutral(k)
  {
    hide TweakAt, Coefficient, One;
    var j := if k < 128 then k else if k <= 248 then k - 128 + 7 else k - 128;
    assert Coefficient(TweakAt(One(), k), j) by {
      if k < 128 {
        LowPower(k, k);
      } else if k <= 248 {
        MiddlePower(k - 128, j);
      } else {
        TweakAtSum(One(), 248, k - 248);
        HighCoefficient(TweakAt(One(), 248), k - 248, j);
        MiddlePower(120, 120);
      }
    }
    OneIsOne(j);
    assert TweakAt(One(), k) != One();
  }

  /** For sectors of up to 4096 bytes a read in the partition always gives the plaintext exactly if it is empty, or of
      whole blocks from the start of a sector on, or leaves the disk. */
  lemma MisalignedReadExact(key: seq<byte>, sectorSize: int, part: nat, diskSize: nat, offset: nat, size: nat)
    requires 0 < sectorSize <= 4096 && sectorSize % 16 == 0 && part <= offset && part <= diskSize < TWO_TO_63
    ensures AlwaysPlaintext(key, sectorSize, part, diskSize, offset, size) <==>
            offset + size > diskSize || size == 0 || (size % 16 == 0 && (offset - part) % sectorSize == 0)
  {
    hide AlwaysPlaintext, Neutral;
    var from := offset - part;
    ReadExact(key, sectorSize, part, diskSize, offset, size);
    if from % 16 == 0 && from % sectorSize != 0 {
      BlockPlace(sectorSize, from);
      NotNeutral(from % sectorSize / 16);
    }
  }

  // ---------- A read off a sector boundary ----------

  function Increment(x: Block): Block
  {
    seq(16, i requires 0 <= i < 16 => x[i] + 1)
  }

  function Decrement(x: Block): Block
  {
    seq(16, i requires 0 <= i < 16 => x[i] - 1)
  }

  /** A cipher that adds one to every byte. */
  function IncrementCipher(): Cipher
  {
    var c := RawCipher(Increment, Decrement);
    assert Invertible(c) by {
      forall x: Block
        ensures c.dec(c.enc(x)) == x
      {
        assert forall i | 0 <= i < 16 :: Decrement(Increment(x))[i] == x[i];
      }
    }
    c
  }

  lemma IncrementUniform(v: byte)
    ensures Increment(Uniform(v)) == Uniform(v + 1) && Decrement(Uniform(v)) == Uniform(v - 1)
  {
  }

  lemma IncrementCipherIs()
    ensures IncrementCipher().enc == Increment && IncrementCipher().dec == Decrement
  {
  }

  lemma UniformBlock(t: byte, p: byte)
    ensures EncryptBlock(IncrementCipher(), Uniform(t), Uniform(p)) == Uniform(((p ^ t) + 1) ^ t)
    ensures DecryptBlock(IncrementCipher(), Uniform(t), Uniform(p)) == Uniform(((p ^ t) - 1) ^ t)
  {
    hide IncrementCipher, Uniform, Xor, Increment, Decrement;
    IncrementCipherIs();
    var x := p ^ t;
    XorUniform(p, t);
    IncrementUniform(x);
    XorUniform(x + 1, t);
    XorUniform(x - 1, t);
  }

  lemma SecondTweak()
    ensures MulX(Uniform(1)) == Uniform(2)
  {
  }

  lemma FirstTweak()
    ensures LEBytes(0, 16) == Uniform(0)
    ensures SectorTweak(0) == Uniform(0)
  {
    ZeroHighBytes(0, 0, 16);
    assert LEBytes(0, 0) == [] && LEBytes(0, 16) == [] + Zeros(16);
    ZeroHighBytes(0, 0, 8);
    assert LEBytes(0, 8) == [] + Zeros(8);
  }

  /** A sector of two blocks of zeros under that cipher: a read of the second block alone is decrypted with the tweak of
      the first. */
  lemma MisalignedRead(key: seq<byte>)
    ensures var aes := (_: seq<byte>) => IncrementCipher();
            var image := Uniform(3) + Uniform(1);
            VolumeUnder(aes, key, 32, 0, Zeros(32), image) &&
            ReadResult(aes, key, 32, 0, Disk(image), 16, 16) == Success(Uniform(254))
  {
    hide IncrementCipher, EncryptBlock, DecryptBlock, MulX, SectorTweak, LEBytes;
    var aes := (_: seq<byte>) => IncrementCipher();
    var plain, image := Zeros(32), Uniform(3) + Uniform(1);
    FirstTweak();
    SecondTweak();
    var t := EncryptedTweak();
    UniformBlock(1, 0);
    UniformBlock(2, 0);
    UniformBlock(1, 1);
    assert TweakAt(t, 0) == Uniform(1) && TweakAt(t, 1) == Uniform(2);
    assert image[0..16] == Uniform(3) && image[16..32] == Uniform(1);
    assert plain[0..16] == Uniform(0) && plain[16..32] == Uniform(0);
    forall b: nat | 16 * b + 16 <= 32
      ensures PartitionBlock(image, 0, b) == StandardBlock(IncrementCipher(), IncrementCipher(), 32, b, PartitionBlock(plain, 0, b))
    {
      assert b == 0 || b == 1;
    }
    DecryptedUnfold(aes, key, 32, 0, Uniform(1));
    DecryptedNothing(aes, key, 32, 1);
    assert Uniform(1)[..16] == Uniform(1) && Uniform(1)[16..] == [];
    OneBlock(t);
  }

  lemma EncryptedTweak() returns (t: Block)
    ensures t == Uniform(1) && IncrementCipher().enc(Uniform(0)) == t
  {
    IncrementUniform(0);
    t := Uniform(1);
  }

  lemma OneBlock(t: Block)
    requires DecryptBlock(IncrementCipher(), t, Uniform(1)) == Uniform(254)
    ensures Opened(IncrementCipher(), t, Uniform(1)) == Uniform(254)
  {
    hide DecryptBlock, IncrementCipher;
    assert Uniform(1)[..16] == Uniform(1) && Uniform(1)[16..] == [];
  }

  // ---------- A chained read ----------

  /** A partition of two sectors of zeros, read by AES-CBC under that cipher: in parts it gives something else. */
  lemma ChainedParts(key: seq<byte>)
    ensures var aes := (_: seq<byte>) => IncrementCipher();
            var disk := Disk(Zeros(32));
            CbcReadResult(aes, key, 16, 0, disk, 0, 16 + 16) !=
            Joined(CbcReadResult(aes, key, 16, 0, disk, 0, 16), CbcReadResult(aes, key, 16, 0, disk, 0 + 16, 16))
  {
    hide IncrementCipher, CbcReadResult, Joined, SectorTweak;
    var aes := (_: seq<byte>) => IncrementCipher();
    CbcSplitReadExact(aes, key, 16, 0, Disk(Zeros(32)), 0, 16, 16);
    IncrementCipherIs();
    SectorTweakIsLow(1);
    assert Zeros(32)[0..16][8] == 0;
    assert aes(key).enc(SectorTweak(1))[8] == 1;
  }

  lemma SectorTweakIsLow(sector: nat)
    ensures SectorTweak(sector)[8] == 0
  {
    hide LEBytes;
  }
}
