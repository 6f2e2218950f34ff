/** Disk readers: the image underneath, and the reader that decrypts what it reads (readers/). */
module Readers {
  import opened Bytes
  import opened Wrappers

  /** A buffer, and how the call that filled it ended. */
  datatype Filled<+T> = Filled(outcome: Outcome<T>, buf: seq<byte>)

  /** A disk image; a read that leaves it fails. */
  datatype Disk = Disk(bytes: seq<byte>) {

    function Size(): nat
    {
      |bytes|
    }

    predicate InRange(offset: int, size: int)
    {
      0 <= offset && 0 <= size && offset + size <= |bytes|
    }

    function ReadFile(offset: int, size: int): Result<seq<byte>>
    {
      if InRange(offset, size) then Success(bytes[offset..offset + size]) else Failure
    }

    /** What a read returns when its error is ignored. */
    function ReadData(offset: int, size: int): seq<byte>
    {
      if InRange(offset, size) then bytes[offset..offset + size] else []
    }
  }
}

module DecryptingReaders {
  import opened Arithmetic
  import opened Bytes
  import opened BlockCipher
  import opened Cbc
  import opened Readers
  import opened Xts
  import opened Wrappers

  /** The 16-byte tweak the reader builds: a 64-bit sector number, then zeros. */
  function SectorTweak(sector: nat): Block
  {
    LEBytes(sector % (2 * TWO_TO_63), 8) + Zeros(8)
  }

  function Prepend(p: seq<byte>, r: Result<seq<byte>>): Result<seq<byte>>
  {
    if r.Success? then Success(p + r.value) else Failure
  }

  lemma PrependNothing(r: Result<seq<byte>>)
    ensures Prepend([], r) == r
  {
    if r.Success? {
      assert [] + r.value == r.value;
    }
  }

  lemma PrependFailure(p: seq<byte>)
    ensures Prepend(p, Failure) == Failure
  {
  }

  lemma PrependAll(p: seq<byte>)
    ensures Prepend(p, Success([])) == Success(p)
  {
    assert p + [] == p;
  }

  lemma PrependTwice(p: seq<byte>, q: seq<byte>, r: Result<seq<byte>>)
    ensures Prepend(p, Prepend(q, r)) == Prepend(p + q, r)
  {
    if r.Success? {
      assert p + (q + r.value) == (p + q) + r.value;
    }
  }

  predicate StandsAt(s: string, part: string, i: nat)
  {
    i + |part| <= |s| && s[i..i + |part|] == part
  }

  predicate Contains(s: string, part: string)
  {
    exists i | 0 <= i <= |s| :: StandsAt(s, part, i)
  }

  /** The keys a reader can be opened with: those of AES-XTS if the method names it, else those of AES-CBC. */
  predicate KeyFits(cleanMethod: string, fvek: seq<byte>)
  {
    if Contains(cleanMethod, "XTS") then |fvek| == 32 || |fvek| == 64
    else Contains(cleanMethod, "CBC") && (|fvek| == 16 || |fvek| == 32)
  }

  /** A part stands in a string exactly if it can be cut out of it. */
  lemma ContainsExact(s: string, part: string)
    ensures Contains(s, part) <==> exists a, b :: s == a + part + b
  {
    if Contains(s, part) {
      var i :| 0 <= i <= |s| && StandsAt(s, part, i);
      assert s == s[..i] + part + s[i + |part|..];
    }
    if a, b :| s == a + part + b {
      assert s[|a|..|a| + |part|] == part;
      assert StandsAt(s, part, |a|);
    }
  }

  /** Which keys fit which method. */
  lemma MethodsAndKeys(a: string, b: string, method': string, fvek: seq<byte>)
    ensures KeyFits(a + "XTS" + b, fvek) <==> |fvek| in {32, 64}
    ensures !Contains(a + "CBC" + b, "XTS") ==> (KeyFits(a + "CBC" + b, fvek) <==> |fvek| in {16, 32})
    ensures !Contains(method', "XTS") && !Contains(method', "CBC") ==> !KeyFits(method', fvek)
  {
    hide Contains;
    ContainsExact(a + "XTS" + b, "XTS");
    ContainsExact(a + "CBC" + b, "CBC");
  }

  class DecryptingReader {
    const aes: seq<byte> -> Cipher
    const underlying: Disk
    const fvek: seq<byte>
    const sectorSize: int
    const partitionOffsetB: int
    const cleanMethod: string

    ghost predicate Valid()
    {
      KeyFits(cleanMethod, fvek) && sectorSize > 0
    }

    constructor (aes: seq<byte> -> Cipher, underlying: Disk, fvek: seq<byte>, sectorSize: int, partitionOffsetB: int,
                 cleanMethod: string)
      requires KeyFits(cleanMethod, fvek) && sectorSize > 0
      ensures Valid()
      ensures this.aes == aes && this.underlying == underlying && this.fvek == fvek
      ensures this.sectorSize == sectorSize && this.partitionOffsetB == partitionOffsetB
      ensures this.cleanMethod == cleanMethod
    {
      this.aes, this.underlying, this.fvek := aes, underlying, fvek;
      this.sectorSize, this.partitionOffsetB, this.cleanMethod := sectorSize, partitionOffsetB, cleanMethod;
    }

    /** The checks made before a reader exists; the method's name is trimmed and in upper case. */
    static method NewDecryptingReader(aes: seq<byte> -> Cipher, underlying: Disk, fvek: seq<byte>, sectorSize: int,
                                      partitionOffsetB: int, cleanMethod: string) returns (r: Result<DecryptingReader>)
      ensures r.Success? <==> KeyFits(cleanMethod, fvek) && sectorSize > 0
      ensures r.Success? ==> fresh(r.value) && r.value.Valid() && r.value.underlying == underlying
      ensures r.Success? ==> r.value.fvek == fvek && r.value.sectorSize == sectorSize
      ensures r.Success? ==> r.value.partitionOffsetB == partitionOffsetB && r.value.aes == aes
      ensures r.Success? ==> r.value.cleanMethod == cleanMethod
    {
      if cleanMethod == "" {
        return Failure;
      }
      if Contains(cleanMethod, "XTS") {
        if |fvek| != 32 && |fvek| != 64 {
          return Failure;
        }
      } else if Contains(cleanMethod, "CBC") {
        if |fvek| != 16 && |fvek| != 32 {
          return Failure;
        }
      } else {
        return Failure;
      }
      if sectorSize <= 0 {
        return Failure;
      }
      var dr := new DecryptingReader(aes, underlying, fvek, sectorSize, partitionOffsetB, cleanMethod);
      return Success(dr);
    }

    /** Reads through an AES-XTS or an AES-CBC reader. */
    method ReadFile(offset: int, size: int) returns (r: Result<seq<byte>>)
      requires Valid()
      ensures r == if Contains(cleanMethod, "XTS")
                   then ReadResult(aes, fvek, sectorSize, partitionOffsetB, underlying, offset, size)
                   else CbcReadResult(aes, fvek, sectorSize, partitionOffsetB, underlying, offset, size)
    {
      var data := underlying.ReadFile(offset, size);
      if data.Failure? {
        return Failure;
      }
      if offset < partitionOffsetB {
        return data;
      }
      if Contains(cleanMethod, "XTS") {
        r := DecryptXTS(offset, data.value);
      } else if Contains(cleanMethod, "CBC") {
        r := DecryptCBC(offset, data.value);
      } else {
        return Failure;
      }
    }

    /** Decrypts data as one chain that starts with the encrypted number of its first sector. */
    method DecryptCBC(offset: int, data: seq<byte>) returns (r: Result<seq<byte>>)
      requires Valid() && offset >= partitionOffsetB
      ensures r == CbcDecryptedFrom(aes, fvek, SectorAt(sectorSize, partitionOffsetB, offset), data)
    {
      if data == [] {
        return Success([]);
      }
      if |data| % 16 != 0 {
        return Failure;
      }
      var sectorNum := (offset - partitionOffsetB) / sectorSize;
      var block := aes(fvek);
      var iv := block.enc(SectorTweak(sectorNum));
      return Success(CbcDecrypted(block, iv, data));
    }

    /** Decrypts a copy of the data sector by sector, each chunk copied back over its ciphertext. */
    method DecryptXTS(offset: int, data: seq<byte>) returns (r: Result<seq<byte>>)
      requires Valid() && Contains(cleanMethod, "XTS") && offset >= partitionOffsetB
      ensures r == DecryptedFrom(aes, fvek, sectorSize, (offset - partitionOffsetB) / sectorSize, data)
    {
      hide Opened, SectorTweak, DataCipher, TweakCipher, DecryptedFrom, Prepend, Decrypting;
      var plaintext := new byte[|data|](i requires 0 <= i < |data| => data[i]);
      assert plaintext[..] == data;
      DecryptedNothing(aes, fvek, sectorSize, (offset - partitionOffsetB) / sectorSize);
      if plaintext.Length == 0 {
        return Success([]);
      }
      var firstSector := (offset - partitionOffsetB) / sectorSize;
      var start, i := 0, 0;
      ghost var goal := DecryptedFrom(aes, fvek, sectorSize, firstSector, data);
      DecryptingStarts(aes, fvek, sectorSize, firstSector, data);
      while start < plaintext.Length
        invariant 0 <= start <= plaintext.Length
        invariant Decrypting(aes, fvek, sectorSize, goal, firstSector + i, plaintext[..], data, start)
      {
        var end := Min(start + sectorSize, plaintext.Length);
        ghost var before := plaintext[..];
        var ok := DecryptSector(plaintext, start, end, firstSector + i);
        if !ok {
          DecryptingFails(aes, fvek, sectorSize, goal, firstSector + i, before, data, start, end);
          return Failure;
        }
        DecryptingStep(aes, fvek, sectorSize, goal, firstSector + i, before, plaintext[..], data, start, end);
        start, i := end, i + 1;
      }
      DecryptingEnds(aes, fvek, sectorSize, goal, firstSector + i, plaintext[..], data);
      return Success(plaintext[..]);
    }

    /** Decrypts one chunk and copies the result back over it. */
    method DecryptSector(plaintext: array<byte>, start: nat, end: nat, sector: nat) returns (ok: bool)
      requires Valid() && Contains(cleanMethod, "XTS") && start < end <= plaintext.Length
      modifies plaintext
      ensures ok <==> end - start >= 16
      ensures ok ==> plaintext[..][start..end] ==
                     Opened(DataCipher(aes, fvek), TweakCipher(aes, fvek).enc(SectorTweak(sector)),
                            old(plaintext[..])[start..end])
      ensures plaintext[..][..start] == old(plaintext[..])[..start] && plaintext[..][end..] == old(plaintext[..])[end..]
    {
      hide Opened, SectorTweak, DataCipher, TweakCipher;
      assert plaintext[..][start..end] == plaintext[start..end];
      var decrypted := OpenXTS(aes, fvek, SectorTweak(sector), plaintext[start..end]);
      ok := decrypted.Success?;
      if ok {
        Copy(plaintext, start, decrypted.value);
      }
    }
  }

  /** What decrypting data, the first byte of which starts the given sector, returns. */
  function DecryptedFrom(aes: seq<byte> -> Cipher, key: seq<byte>, sectorSize: int, sector: nat, data: seq<byte>)
    : Result<seq<byte>>
    requires sectorSize > 0
    decreases |data|
  {
    if data == [] then Success([])
    else
      var n := Min(sectorSize, |data|);
      if n < 16 then Failure
      else
        var t := TweakCipher(aes, key).enc(SectorTweak(sector));
        Prepend(Opened(DataCipher(aes, key), t, data[..n]), DecryptedFrom(aes, key, sectorSize, sector + 1, data[n..]))
  }

  lemma DecryptedNothing(aes: seq<byte> -> Cipher, key: seq<byte>, sectorSize: int, sector: nat)
    requires sectorSize > 0
    ensures DecryptedFrom(aes, key, sectorSize, sector, []) == Success([])
  {
  }

  lemma DecryptedUnfold(aes: seq<byte> -> Cipher, key: seq<byte>, sectorSize: int, sector: nat, data: seq<byte>)
    requires sectorSize > 0 && data != []
    ensures var n := Min(sectorSize, |data|);
            DecryptedFrom(aes, key, sectorSize, sector, data) ==
            if n < 16 then Failure
            else Prepend(Opened(DataCipher(aes, key), TweakCipher(aes, key).enc(SectorTweak(sector)), data[..n]),
                         DecryptedFrom(aes, key, sectorSize, sector + 1, data[n..]))
  {
  }

  /** One sector's worth of progress in terms of what has been decrypted so far. */
  lemma DecryptedAdvance(aes: seq<byte> -> Cipher, key: seq<byte>, sectorSize: int, sector: nat, done: seq<byte>,
                         data: seq<byte>)
    requires sectorSize > 0 && data != []
    ensures var n := Min(sectorSize, |data|);
            Prepend(done, DecryptedFrom(aes, key, sectorSize, sector, data)) ==
            if n < 16 then Failure
            else Prepend(done + Opened(DataCipher(aes, key), TweakCipher(aes, key).enc(SectorTweak(sector)), data[..n]),
                         DecryptedFrom(aes, key, sectorSize, sector + 1, data[n..]))
  {
    hide Opened, SectorTweak, DataCipher, TweakCipher, DecryptedFrom, Prepend;
    var n := Min(sectorSize, |data|);
    DecryptedUnfold(aes, key, sectorSize, sector, data);
    if n >= 16 {
      PrependTwice(done, Opened(DataCipher(aes, key), TweakCipher(aes, key).enc(SectorTweak(sector)), data[..n]),
                   DecryptedFrom(aes, key, sectorSize, sector + 1, data[n..]));
    } else {
      PrependFailure(done);
    }
  }

  /** The bytes before start are decrypted, the others are not: together they still stand for the whole result. */
  ghost predicate Decrypting(aes: seq<byte> -> Cipher, key: seq<byte>, sectorSize: int, goal: Result<seq<byte>>, sector: nat,
                             buf: seq<byte>, data: seq<byte>, start: nat)
    requires sectorSize > 0
  {
    start <= |buf| == |data| && buf[start..] == data[start..] &&
    goal == Prepend(buf[..start], DecryptedFrom(aes, key, sectorSize, sector, data[start..]))
  }

  lemma DecryptingStarts(aes: seq<byte> -> Cipher, key: seq<byte>, sectorSize: int, sector: nat, data: seq<byte>)
    requires sectorSize > 0
    ensures Decrypting(aes, key, sectorSize, DecryptedFrom(aes, key, sectorSize, sector, data), sector, data, data, 0)
  {
    assert data[0..] == data && data[..0] == [];
    PrependNothing(DecryptedFrom(aes, key, sectorSize, sector, data));
  }

  lemma DecryptingEnds(aes: seq<byte> -> Cipher, key: seq<byte>, sectorSize: int, goal: Result<seq<byte>>, sector: nat,
                       buf: seq<byte>, data: seq<byte>)
    requires sectorSize > 0 && Decrypting(aes, key, sectorSize, goal, sector, buf, data, |buf|)
    ensures goal == Success(buf)
  {
    hide DecryptedFrom, Prepend;
    assert data[|buf|..] == [] && buf[..|buf|] == buf;
    DecryptedNothing(aes, key, sectorSize, sector);
    PrependAll(buf);
  }

  lemma DecryptingFails(aes: seq<byte> -> Cipher, key: seq<byte>, sectorSize: int, goal: Result<seq<byte>>, sector: nat,
                        buf: seq<byte>, data: seq<byte>, start: nat, end: nat)
    requires sectorSize > 0 && Decrypting(aes, key, sectorSize, goal, sector, buf, data, start)
    requires start < |buf| && end == Min(start + sectorSize, |buf|) && end - start < 16
    ensures goal == Failure
  {
    hide Opened, SectorTweak, DataCipher, TweakCipher, DecryptedFrom, Prepend;
    DecryptedAdvance(aes, key, sectorSize, sector, buf[..start], data[start..]);
  }

  lemma DecryptingStep(aes: seq<byte> -> Cipher, key: seq<byte>, sectorSize: int, goal: Result<seq<byte>>, sector: nat,
                       buf: seq<byte>, buf': seq<byte>, data: seq<byte>, start: nat, end: nat)
    requires sectorSize > 0 && Decrypting(aes, key, sectorSize, goal, sector, buf, data, start)
    requires start < |buf| == |buf'| && end == Min(start + sectorSize, |buf|) && end - start >= 16
    requires buf'[start..end] == Opened(DataCipher(aes, key), TweakCipher(aes, key).enc(SectorTweak(sector)), buf[start..end])
    requires buf'[..start] == buf[..start] && buf'[end..] == buf[end..]
    ensures Decrypting(aes, key, sectorSize, goal, sector + 1, buf', data, end)
  {
    hide Opened, SectorTweak, DataCipher, TweakCipher, DecryptedFrom, Prepend;
    var n := end - start;
    DecryptedAdvance(aes, key, sectorSize, sector, buf[..start], data[start..]);
    SliceOfDrop(data, start, 0, n);
    SliceOfDrop(data, start, n, |data| - start);
    SliceOfDrop(buf, start, 0, n);
    SliceOfDrop(buf, start, n, |data| - start);
    assert data[start..][..n] == buf[start..end] && data[start..][n..] == data[end..] && buf[start..][n..] == buf[end..];
    assert buf'[..end] == buf[..start] + buf'[start..end];
  }

  function ReadResult(aes: seq<byte> -> Cipher, key: seq<byte>, sectorSize: int, partitionOffsetB: int, disk: Disk,
                      offset: int, size: int): Result<seq<byte>>
    requires sectorSize > 0
  {
    var data := disk.ReadFile(offset, size);
    if data.Failure? || offset < partitionOffsetB then data
    else DecryptedFrom(aes, key, sectorSize, (offset - partitionOffsetB) / sectorSize, data.value)
  }

  /** The sector of the partition an offset falls into. */
  function SectorAt(sectorSize: int, part: int, offset: int): nat
    requires sectorSize > 0 && part <= offset
  {
    (offset - part) / sectorSize
  }

  // ---------- Chained reads ----------

  function CbcDecryptedFrom(aes: seq<byte> -> Cipher, key: seq<byte>, sector: nat, data: seq<byte>): Result<seq<byte>>
  {
    if |data| % 16 != 0 then Failure else Success(CbcDecrypted(aes(key), aes(key).enc(SectorTweak(sector)), data))
  }

  function CbcReadResult(aes: seq<byte> -> Cipher, key: seq<byte>, sectorSize: int, partitionOffsetB: int, disk: Disk,
                         offset: int, size: int): Result<seq<byte>>
    requires sectorSize > 0
  {
    var data := disk.ReadFile(offset, size);
    if data.Failure? || offset < partitionOffsetB then data
    else CbcDecryptedFrom(aes, key, SectorAt(sectorSize, partitionOffsetB, offset), data.value)
  }

  /** A chained read gives the plaintext if what it reads was encrypted as one chain that starts with the encrypted number
      of the sector its offset falls into. */
  lemma ChainedReadsPlaintext(aes: seq<byte> -> Cipher, key: seq<byte>, sectorSize: int, part: nat, disk: Disk, offset: nat,
                              plain: seq<byte>)
    requires sectorSize > 0 && part <= offset < TWO_TO_63 && |plain| % 16 == 0 && offset + |plain| <= disk.Size()
    requires var sector := (offset - part) / sectorSize;
             0 <= sector < TWO_TO_63 &&
             disk.bytes[offset..offset + |plain|] == CbcEncrypted(aes(key), aes(key).enc(LEBytes(sector, 16)), plain)
    ensures CbcReadResult(aes, key, sectorSize, part, disk, offset, |plain|) == Success(plain)
  {
    hide SectorTweak, CbcDecrypted, CbcEncrypted, LEBytes;
    var sector := SectorAt(sectorSize, part, offset);
    SectorTweakIsStandard(sector);
    CbcRoundTrip(aes(key), aes(key).enc(LEBytes(sector, 16)), plain);
  }

  /** A chained read split at a sector boundary concatenates to the whole read exactly if the ciphertext block in front
      of the cut happens to be the encrypted number of the sector behind it. */
  lemma CbcSplitReadExact(aes: seq<byte> -> Cipher, key: seq<byte>, sectorSize: int, part: int, disk: Disk, offset: int,
                          n: nat, size: nat)
    requires sectorSize > 0 && offset >= part && n > 0 && size > 0 && n % sectorSize == 0
    requires n % 16 == 0 && size % 16 == 0 && disk.InRange(offset, n + size)
    ensures CbcReadResult(aes, key, sectorSize, part, disk, offset, n + size) ==
            Joined(CbcReadResult(aes, key, sectorSize, part, disk, offset, n),
                   CbcReadResult(aes, key, sectorSize, part, disk, offset + n, size)) <==>
            disk.bytes[offset + n - 16..offset + n] == aes(key).enc(SectorTweak(SectorAt(sectorSize, part, offset + n)))
  {
    hide SectorTweak, CbcDecrypted, Joined, SectorAt;
    var a, b := disk.bytes[offset..offset + n], disk.bytes[offset + n..offset + n + size];
    SplitSlice(disk.bytes, offset, offset + n, offset + n + size);
    CbcSplitExact(aes, key, SectorAt(sectorSize, part, offset), SectorAt(sectorSize, part, offset + n), a, b);
    assert a[n - 16..] == disk.bytes[offset + n - 16..offset + n];
  }

  lemma CbcSplitExact(aes: seq<byte> -> Cipher, key: seq<byte>, first: nat, second: nat, a: seq<byte>, b: seq<byte>)
    requires |a| % 16 == 0 && |b| % 16 == 0 && a != [] && b != []
    ensures CbcDecryptedFrom(aes, key, first, a + b) ==
            Joined(CbcDecryptedFrom(aes, key, first, a), CbcDecryptedFrom(aes, key, second, b)) <==>
            a[|a| - 16..] == aes(key).enc(SectorTweak(second))
  {
    hide SectorTweak, CbcDecrypted;
    var c := aes(key);
    var iv, last, iv' := c.enc(SectorTweak(first)), LastBlock(c.enc(SectorTweak(first)), a), c.enc(SectorTweak(second));
    CbcSplit(c, iv, a, b);
    CbcDependsOnBefore(c, last, iv', b);
    var plain := CbcDecrypted(c, iv, a);
    SplitEqual(plain, CbcDecrypted(c, last, b), plain, CbcDecrypted(c, iv', b));
  }

  // ---------- The reference: a plaintext disk encrypted sector by sector ----------

  /** Where the image keeps 16-byte block b of the partition. */
  function PartitionBlock(image: seq<byte>, part: nat, b: nat): Block
    requires part + 16 * b + 16 <= |image|
  {
    image[part + 16 * b..part + 16 * b + 16]
  }

  /** Block b of the partition as section 5.3 of IEEE Std 1619-2007 encrypts it: the data unit is the
      sector, its 128-bit little-endian number is the tweak; c encrypts the data, w the tweaks. */
  function StandardBlock(c: Cipher, w: Cipher, sectorSize: int, b: nat, p: Block): Block
    requires sectorSize > 0
  {
    EncryptBlock(c, TweakAt(w.enc(LEBytes(16 * b / sectorSize, 16)), 16 * b % sectorSize / 16), p)
  }

  /** image is plain with everything from part on encrypted. */
  ghost predicate EncryptedVolume(c: Cipher, w: Cipher, sectorSize: int, part: nat, plain: seq<byte>, image: seq<byte>)
    requires sectorSize > 0
  {
    |plain| == |image| && part <= |image| && image[..part] == plain[..part] &&
    forall b: nat | part + 16 * b + 16 <= |image| ::
      PartitionBlock(image, part, b) == StandardBlock(c, w, sectorSize, b, PartitionBlock(plain, part, b))
  }

  lemma {:induction false} ZeroHighBytes(v: nat, n: nat, k: nat)
    requires v < Pow256(n)
    ensures LEBytes(v, n + k) == LEBytes(v, n) + Zeros(k)
  {
    if n > 0 {
      ZeroHighBytes(v / 256, n - 1, k);
    } else if k > 0 {
      ZeroHighBytes(0, 0, k - 1);
    }
  }

  /** For 64-bit sector numbers the reader's tweak is the standard's. */
  lemma SectorTweakIsStandard(sector: nat)
    requires sector < 2 * TWO_TO_63
    ensures SectorTweak(sector) == LEBytes(sector, 16)
  {
    hide LEBytes;
    assert Pow256(8) == 2 * TWO_TO_63 by {
      assert Pow256(2) == 0x1_0000 && Pow256(4) == 0x1_0000_0000 && Pow256(6) == 0x1_0000_0000_0000;
    }
    ZeroHighBytes(sector, 8, 8);
  }

  /** Where a sector of the partition starts on the disk. */
  function SectorStart(part: nat, sectorSize: nat, sector: nat): nat
  {
    part + sectorSize * sector
  }

  lemma NextSectorStart(part: nat, sectorSize: nat, sector: nat)
    ensures SectorStart(part, sectorSize, sector + 1) == SectorStart(part, sectorSize, sector) + sectorSize
  {
    assert sectorSize * (sector + 1) == sectorSize * sector + sectorSize;
  }

  /** Block j of the chunk that starts a sector is block j of the standard's data unit. */
  lemma ChunkBlock(c: Cipher, w: Cipher, sectorSize: int, part: nat,
                   plain: seq<byte>, image: seq<byte>, sector: nat, j: nat)
    requires sectorSize > 0 && sectorSize % 16 == 0 && 16 * j + 16 <= sectorSize
    requires EncryptedVolume(c, w, sectorSize, part, plain, image)
    requires SectorStart(part, sectorSize, sector) + 16 * j + 16 <= |image| < TWO_TO_63
    ensures var at := SectorStart(part, sectorSize, sector) + 16 * j;
            var t := w.enc(SectorTweak(sector));
            image[at..at + 16] == EncryptBlock(c, TweakAt(t, j), plain[at..at + 16])
  {
    hide MulX, EncryptBlock, SectorTweak, LEBytes;
    var b := sectorSize / 16 * sector + j;
    assert 16 * b == sectorSize * sector + 16 * j by {
      assert sectorSize == 16 * (sectorSize / 16);
    }
    DivModUnique(sectorSize, sector, 16 * j);
    assert sectorSize * sector >= sector by {
      MulAtLeast(sector, sectorSize);
    }
    SectorTweakIsStandard(sector);
    assert PartitionBlock(image, part, b) == StandardBlock(c, w, sectorSize, b, PartitionBlock(plain, part, b));
  }

  /** The first chunk of an aligned read is one data unit of the standard. */
  lemma ChunkIsDataUnit(c: Cipher, w: Cipher, sectorSize: int, part: nat,
                        plain: seq<byte>, image: seq<byte>, sector: nat, n: nat)
    requires sectorSize > 0 && sectorSize % 16 == 0 && n % 16 == 0 && n <= sectorSize
    requires EncryptedVolume(c, w, sectorSize, part, plain, image)
    requires SectorStart(part, sectorSize, sector) + n <= |image| == |plain| && |image| < TWO_TO_63
    ensures var at := SectorStart(part, sectorSize, sector);
            EncryptedUnder(c, w.enc(SectorTweak(sector)),
                           plain[at..at + n], image[at..at + n])
  {
    hide MulX, EncryptBlock, SectorTweak, EncryptedVolume, SectorStart;
    var at := SectorStart(part, sectorSize, sector);
    var t := w.enc(SectorTweak(sector));
    forall j: nat | 16 * j + 16 <= n
      ensures BlockOf(image[at..at + n], j) == EncryptBlock(c, TweakAt(t, j), BlockOf(plain[at..at + n], j))
    {
      ChunkBlock(c, w, sectorSize, part, plain, image, sector, j);
      SliceOfSlice(image, at, at + n, 16 * j, 16 * j + 16);
      SliceOfSlice(plain, at, at + n, 16 * j, 16 * j + 16);
    }
  }

  lemma EncryptedVolumeSize(c: Cipher, w: Cipher, sectorSize: int, part: nat,
                            plain: seq<byte>, image: seq<byte>)
    requires sectorSize > 0 && EncryptedVolume(c, w, sectorSize, part, plain, image)
    ensures |plain| == |image|
  {
  }

  lemma ChunkDecrypts(c: Cipher, w: Cipher, sectorSize: int, part: nat,
                      plain: seq<byte>, image: seq<byte>, sector: nat, n: nat)
    requires sectorSize > 0 && sectorSize % 16 == 0 && n % 16 == 0 && 16 <= n <= sectorSize
    requires EncryptedVolume(c, w, sectorSize, part, plain, image)
    requires SectorStart(part, sectorSize, sector) + n <= |image| == |plain| && |image| < TWO_TO_63
    ensures var at := SectorStart(part, sectorSize, sector);
            Opened(c, w.enc(SectorTweak(sector)), image[at..at + n])
            == plain[at..at + n]
  {
    hide MulX, EncryptBlock, SectorTweak, EncryptedVolume, DecryptBlocks, EncryptedUnder;
    hide SectorStart;
    var at := SectorStart(part, sectorSize, sector);
    var t := w.enc(SectorTweak(sector));
    ChunkIsDataUnit(c, w, sectorSize, part, plain, image, sector, n);
    DecryptInvertsEncrypt(c, t, plain[at..at + n], image[at..at + n]);
  }

  lemma {:induction false} DecryptedIsPlain(aes: seq<byte> -> Cipher, key: seq<byte>, sectorSize: int, c: Cipher, w: Cipher,
                                            part: nat, plain: seq<byte>, image: seq<byte>, sector: nat, at: nat, size: nat)
    requires c == aes(key[..|key| / 2]) && w == aes(key[|key| / 2..])
    requires sectorSize > 0 && sectorSize % 16 == 0 && size % 16 == 0
    requires EncryptedVolume(c, w, sectorSize, part, plain, image)
    requires at == SectorStart(part, sectorSize, sector)
    requires at + size <= |image| == |plain| && |image| < TWO_TO_63
    ensures DecryptedFrom(aes, key, sectorSize, sector, image[at..at + size]) == Success(plain[at..at + size])
    decreases size
  {
    hide Opened, SectorTweak, EncryptedVolume, DecryptedFrom, SectorStart;
    var n := Min(sectorSize, size);
    var mid, end := at + n, at + size;
    if size == 0 {
      DecryptedNothing(aes, key, sectorSize, sector);
      assert image[at..end] == [] == plain[at..end];
    } else {
      ChunkDecrypts(c, w, sectorSize, part, plain, image, sector, n);
      DecryptedUnfold(aes, key, sectorSize, sector, image[at..end]);
      SliceOfSlice(image, at, end, 0, n);
      SliceOfSlice(image, at, end, n, size);
      SplitSlice(plain, at, mid, end);
      if n == sectorSize {
        NextSectorStart(part, sectorSize, sector);
        DecryptedIsPlain(aes, key, sectorSize, c, w, part, plain, image, sector + 1, mid, size - n);
      } else {
        DecryptedNothing(aes, key, sectorSize, sector + 1);
        assert image[mid..end] == [] == plain[mid..end];
      }
    }
  }

  /** A read that starts on a sector boundary, under a key whose halves give the two ciphers. */
  lemma AlignedRead(aes: seq<byte> -> Cipher, key: seq<byte>, sectorSize: int, c: Cipher, w: Cipher, part: nat,
                    plain: seq<byte>, disk: Disk, offset: nat, size: nat)
    requires c == aes(key[..|key| / 2]) && w == aes(key[|key| / 2..])
    requires sectorSize > 0 && sectorSize % 16 == 0 && size % 16 == 0
    requires EncryptedVolume(c, w, sectorSize, part, plain, disk.bytes) && disk.Size() < TWO_TO_63
    requires offset >= part && (offset - part) % sectorSize == 0 && offset + size <= disk.Size()
    ensures ReadResult(aes, key, sectorSize, part, disk, offset, size) == Disk(plain).ReadFile(offset, size)
  {
    hide EncryptedVolume, DecryptedFrom;
    EncryptedVolumeSize(c, w, sectorSize, part, plain, disk.bytes);
    var sector := (offset - part) / sectorSize;
    assert offset == part + sectorSize * sector;
    DecryptedIsPlain(aes, key, sectorSize, c, w, part, plain, disk.bytes, sector, offset, size);
  }

  /** The refinement: on a volume whose data is encrypted under the first half of the key and whose tweaks are under the
      second, a read that starts on a sector boundary of the partition, of any whole number of cipher blocks, returns the
      plaintext disk's own bytes. */
  lemma ReadsPlaintext(aes: seq<byte> -> Cipher, k1: seq<byte>, k2: seq<byte>, sectorSize: int, part: nat,
                       plain: seq<byte>, disk: Disk, offset: nat, size: nat)
    requires |k1| == |k2| && sectorSize > 0 && sectorSize % 16 == 0 && size % 16 == 0
    requires EncryptedVolume(aes(k1), aes(k2), sectorSize, part, plain, disk.bytes) && disk.Size() < TWO_TO_63
    requires offset >= part && (offset - part) % sectorSize == 0 && offset + size <= disk.Size()
    ensures ReadResult(aes, k1 + k2, sectorSize, part, disk, offset, size) == Disk(plain).ReadFile(offset, size)
  {
    hide EncryptedVolume, ReadResult;
    var key := k1 + k2;
    assert key[..|key| / 2] == k1 && key[|key| / 2..] == k2;
    AlignedRead(aes, key, sectorSize, aes(k1), aes(k2), part, plain, disk, offset, size);
  }

  /** Below the partition the image is not encrypted and is returned as it is. */
  lemma ReadsBelowPartition(aes: seq<byte> -> Cipher, key: seq<byte>, sectorSize: int, c: Cipher, w: Cipher, part: nat,
                            plain: seq<byte>, disk: Disk, offset: int, size: int)
    requires sectorSize > 0
    requires EncryptedVolume(c, w, sectorSize, part, plain, disk.bytes)
    requires offset < part && offset + size <= part
    ensures ReadResult(aes, key, sectorSize, part, disk, offset, size) == Disk(plain).ReadFile(offset, size)
  {
    if disk.InRange(offset, size) {
      assert disk.bytes[offset..offset + size] == disk.bytes[..part][offset..offset + size];
      assert plain[offset..offset + size] == plain[..part][offset..offset + size];
    }
  }

  // ---------- Reads in parts ----------

  /** One result and another behind it; it fails if either does. */
  function Joined(a: Result<seq<byte>>, b: Result<seq<byte>>): Result<seq<byte>>
  {
    if a.Success? then Prepend(a.value, b) else Failure
  }

  lemma JoinedLater(p: seq<byte>, a: Result<seq<byte>>, b: Result<seq<byte>>)
    ensures Joined(Prepend(p, a), b) == Prepend(p, Joined(a, b))
  {
    if a.Success? {
      PrependTwice(p, a.value, b);
    }
  }

  /** Data cut behind any number of whole sectors is decrypted part by part. */
  lemma {:induction false} DecryptedSplit(aes: seq<byte> -> Cipher, key: seq<byte>, sectorSize: int, sector: nat,
                                          a: seq<byte>, b: seq<byte>, k: nat)
    requires sectorSize > 0 && |a| == sectorSize * k
    ensures DecryptedFrom(aes, key, sectorSize, sector, a + b) ==
            Joined(DecryptedFrom(aes, key, sectorSize, sector, a), DecryptedFrom(aes, key, sectorSize, sector + k, b))
    decreases k
  {
    hide Opened, SectorTweak, DataCipher, TweakCipher, DecryptedFrom, Prepend;
    var later := DecryptedFrom(aes, key, sectorSize, sector + k, b);
    if k == 0 {
      assert a == [] && a + b == b;
      DecryptedNothing(aes, key, sectorSize, sector);
      PrependNothing(later);
    } else {
      assert |a| == sectorSize + sectorSize * (k - 1) >= sectorSize by {
        NextSectorStart(0, sectorSize, k - 1);
        MulAtLeast(sectorSize, k);
      }
      var rest := a[sectorSize..];
      DecryptedUnfold(aes, key, sectorSize, sector, a);
      DecryptedUnfold(aes, key, sectorSize, sector, a + b);
      assert (a + b)[..sectorSize] == a[..sectorSize] && (a + b)[sectorSize..] == rest + b;
      if sectorSize >= 16 {
        DecryptedSplit(aes, key, sectorSize, sector + 1, rest, b, k - 1);
        var t := TweakCipher(aes, key).enc(SectorTweak(sector));
        JoinedLater(Opened(DataCipher(aes, key), t, a[..sectorSize]),
                    DecryptedFrom(aes, key, sectorSize, sector + 1, rest), later);
      }
    }
  }

  lemma SectorsLater(sectorSize: int, from: nat, n: nat)
    requires sectorSize > 0 && n % sectorSize == 0
    ensures n == sectorSize * (n / sectorSize)
    ensures (from + n) / sectorSize == from / sectorSize + n / sectorSize
  {
    var q, k := from / sectorSize, n / sectorSize;
    assert from + n == sectorSize * (q + k) + from % sectorSize;
    DivModUnique(sectorSize, q + k, from % sectorSize);
  }

  /** A read split behind any number of whole sectors concatenates to the whole read, on every image; the whole fails
      exactly if one of the parts does. */
  lemma SplitRead(aes: seq<byte> -> Cipher, key: seq<byte>, sectorSize: int, part: int, disk: Disk, offset: int, n: nat,
                  size: nat)
    requires sectorSize > 0 && offset >= part && n % sectorSize == 0
    ensures ReadResult(aes, key, sectorSize, part, disk, offset, n + size) ==
            Joined(ReadResult(aes, key, sectorSize, part, disk, offset, n),
                   ReadResult(aes, key, sectorSize, part, disk, offset + n, size))
  {
    hide DecryptedFrom;
    if disk.InRange(offset, n + size) {
      SplitSlice(disk.bytes, offset, offset + n, offset + n + size);
      SectorsLater(sectorSize, offset - part, n);
      assert offset + n - part == offset - part + n;
      DecryptedSplit(aes, key, sectorSize, (offset - part) / sectorSize, disk.bytes[offset..offset + n],
                     disk.bytes[offset + n..offset + n + size], n / sectorSize);
    }
  }
}
