/**
  The export of a volume's unallocated space from its bitmap file on (disk/disk.go, FS/NTFS/MFT/MFT.go). The
  export asks for the bitmap with the sector size where the cluster size belongs.
*/
module BitmapExports {
  import opened Arithmetic
  import opened Bytes
  import opened FreeClusters
  import opened Readers
  import opened RunContents
  import opened RunLists
  import opened RunReaders
  import opened Wrappers

  // ---------- The bitmap that is read ----------

  /** The bitmap file as it is read with a volume's cluster size: whatever GetContent leaves in a zeroed buffer, its
      errors ignored. */
  function BitmapOf(vol: Volume, runs: seq<Run>): (bitmap: seq<byte>)
    requires vol.clusterSizeB > 0
  {
    Content(vol, Zeros(vol.BytesIn(TotalLength(runs))), runs).buf
  }

  /** The statuses of the clusters of a bitmap. */
  function StatusOf(bitmap: seq<byte>): (status: map<nat, bool>)
    ensures StatusUpTo(bitmap, status, 8 * |bitmap|)
  {
    map c: nat | c < 8 * |bitmap| :: BitSet(bitmap[c / 8], c % 8)
  }

  /** The statuses of a non-resident bitmap file. */
  method ReadStatus(vol: Volume, totalLenCl: nat, head: RunList?, ghost nodes: seq<RunList>, ghost runs: seq<Run>)
    returns (r: Outcome<map<nat, bool>>)
    requires vol.clusterSizeB > 0 && totalLenCl == TotalLength(runs)
    requires if head == null then runs == [] else IsList(nodes) && nodes[0] == head && Holds(nodes, runs)
    ensures r == Done(StatusOf(BitmapOf(vol, runs)))
  {
    hide ContentIn, IsList, Holds, BitSet;
    var length := vol.BytesIn(totalLenCl);
    ContentSize(vol, Zeros(length), runs);
    vol.WholeClusters(totalLenCl);
    if length == 0 {
      assert StatusOf([]) == map[];
      return Done(map[]);
    }
    var bitmap := new byte[length](_ => 0);
    assert bitmap[..] == Zeros(length);
    if runs != [] {
      ContentMeaning(vol, runs, bitmap[..]);
    }
    var content := GetContent(vol, head, bitmap, length, nodes, runs);
    if content.Panic? {
      return Panic;
    }
    var status := GetClustersStatus(bitmap[..]);
    assert status == StatusOf(bitmap[..]);
    return Done(status);
  }

  /** Exports a partition: the bitmap is read with the sector size as cluster size, the free clusters are sent with
      the cluster size. */
  method ExportPartition(disk: Disk, part: int, bytesPerSector: nat, sectorsPerCluster: nat, totalLenCl: nat,
                         head: RunList?, ghost nodes: seq<RunList>, ghost runs: seq<Run>) returns (sent: seq<seq<byte>>)
    requires bytesPerSector > 0 && totalLenCl == TotalLength(runs)
    requires if head == null then runs == [] else IsList(nodes) && nodes[0] == head && Holds(nodes, runs)
    ensures var free := FreeSet(StatusOf(BitmapOf(Volume(disk, part, bytesPerSector), runs)));
            exists blocks | MaximalRuns(blocks, free) ::
              SentFor(Volume(disk, part, bytesPerSector * sectorsPerCluster), blocks, sent)
  {
    hide IsList, Holds, BitmapOf, StatusOf, FreeSet;
    var status := ReadStatus(Volume(disk, part, bytesPerSector), totalLenCl, head, nodes, runs);
    sent := CollectUnallocated(Volume(disk, part, bytesPerSector * sectorsPerCluster), status.value);
  }

  // ---------- Sizes and zeros ----------

  lemma ContentSize(vol: Volume, buf: seq<byte>, runs: seq<Run>)
    requires vol.clusterSizeB > 0
    ensures |Content(vol, buf, runs).buf| == |buf|
    ensures buf == [] ==> Content(vol, buf, runs).buf == []
  {
  }

  predicate AllZero(b: seq<byte>)
  {
    forall k | 0 <= k < |b| :: b[k] == 0
  }

  lemma ZerosOver(buf: seq<byte>, at: nat, src: seq<byte>)
    requires at <= |buf| && AllZero(buf) && AllZero(src)
    ensures AllZero(Overlay(buf, at, src))
  {
  }

  lemma ZeroFlush(vol: Volume, buf: seq<byte>, dataRead: nat, pendingOffset: int, pendingSize: nat)
    requires AllZero(vol.disk.bytes) && AllZero(buf)
    ensures AllZero(Flushed(vol, buf, dataRead, pendingOffset, pendingSize).buf)
  {
    hide Overlay, vol.ByteOf;
    var at := vol.ByteOf(pendingOffset);
    if vol.disk.InRange(at, pendingSize) && dataRead + pendingSize <= |buf| {
      ZerosOver(buf, dataRead, vol.disk.bytes[at..at + pendingSize]);
    }
  }

  lemma ZeroTurn(vol: Volume, buf: seq<byte>, len: nat, run: Run, currentOffset: int, dataRead: nat, pendingOffset: int,
                 pendingSize: nat)
    requires vol.clusterSizeB > 0 && AllZero(vol.disk.bytes) && AllZero(buf) && len <= |buf|
    ensures AllZero(Taken(vol, buf, len, run, currentOffset, dataRead, pendingOffset, pendingSize).buf)
  {
    hide vol.BytesIn, Flushed, AllZero, Zeroed;
    ZeroFlush(vol, buf, dataRead, pendingOffset, pendingSize);
    var f := Flushed(vol, buf, dataRead, pendingOffset, pendingSize);
    if f.outcome.Done? {
      ZeroZeroed(f.buf, len, f.outcome.value, vol.BytesIn(run.length));
    }
  }

  lemma ZeroZeroed(buf: seq<byte>, len: nat, at: nat, n: nat)
    requires AllZero(buf) && len <= |buf|
    ensures AllZero(Zeroed(buf, len, at, n))
  {
  }

  /** A zeroed disk leaves a zeroed buffer, whatever is read of it. */
  lemma {:induction false} ZeroContentFrom(vol: Volume, buf: seq<byte>, len: nat, runs: seq<Run>, currentOffset: int,
                                           dataRead: nat, pendingOffset: int, pendingSize: nat)
    requires vol.clusterSizeB > 0 && runs != [] && AllZero(vol.disk.bytes) && AllZero(buf) && len <= |buf|
    ensures AllZero(ContentFrom(vol, buf, len, runs, currentOffset, dataRead, pendingOffset, pendingSize).buf)
    decreases |runs|
  {
    hide Taken, Flushed, AllZero;
    ZeroTurn(vol, buf, len, runs[0], currentOffset, dataRead, pendingOffset, pendingSize);
    var t := Taken(vol, buf, len, runs[0], currentOffset, dataRead, pendingOffset, pendingSize);
    if t.outcome.Done? {
      var (read, off, size) := t.outcome.value;
      if |runs| == 1 {
        ZeroFlush(vol, t.buf, read, off, size);
      } else if currentOffset + runs[1].offset >= 0 {
        ZeroContentFrom(vol, t.buf, len, runs[1..], currentOffset + runs[1].offset, read, off, size);
      }
    }
  }

  lemma ZeroBitmap(vol: Volume, runs: seq<Run>)
    requires vol.clusterSizeB > 0 && AllZero(vol.disk.bytes)
    ensures BitmapOf(vol, runs) == Zeros(vol.BytesIn(TotalLength(runs)))
  {
    hide ContentFrom, TotalLength, vol.BytesIn;
    var zeros := Zeros(vol.BytesIn(TotalLength(runs)));
    ContentSize(vol, zeros, runs);
    if runs != [] {
      ZeroContentFrom(vol, zeros, |zeros|, runs, runs[0].offset, 0, 0, 0);
    }
  }

  lemma {:induction false} ZeroMeaning(vol: Volume, base: int, runs: seq<Run>)
    requires vol.Readable(base, runs) && AllZero(vol.disk.bytes)
    ensures AllZero(vol.Meaning(base, runs))
    decreases |runs|
  {
    if runs != [] {
      ZeroMeaning(vol, base + runs[0].offset, runs[1..]);
      assert AllZero(vol.RunBytes(base + runs[0].offset, runs[0]));
    }
  }

  // ---------- The unit that is passed ----------

  /** Sizes in sectors and in clusters are the same exactly if a cluster is one sector or there are none. */
  lemma UnitSizes(n: nat, bytesPerSector: nat, sectorsPerCluster: nat)
    requires bytesPerSector > 0
    ensures n * bytesPerSector == n * (bytesPerSector * sectorsPerCluster) <==> sectorsPerCluster == 1 || n == 0
  {
    var b, s := bytesPerSector, sectorsPerCluster;
    MulAssociates(n, b, s);
    if n > 0 && s > 1 {
      MulMonotone(2, s, n * b);
    }
  }

  lemma StatusSizes(a: seq<byte>, b: seq<byte>)
    requires StatusOf(a) == StatusOf(b)
    ensures |a| == |b|
  {
    hide BitSet;
    var s, t := StatusOf(a), StatusOf(b);
    assert forall c: nat :: c in s <==> c < 8 * |a|;
    assert forall c: nat :: c in t <==> c < 8 * |b|;
    assert 8 * |a| !in s && 8 * |b| !in t;
  }

  lemma ZerosAreFree(n: nat)
    ensures forall c: nat :: c in FreeSet(StatusOf(Zeros(n))) <==> c < 8 * n
  {
    hide BitSet;
    forall c: nat | c < 8 * n
      ensures !BitSet(Zeros(n)[c / 8], c % 8)
    {
      NoBits(c % 8);
    }
  }

  lemma NoBits(j: nat)
    requires j < 8
    ensures !BitSet(0, j)
  {
  }

  /** The volume as the export describes it to the reader of the bitmap, and as it is. */
  function AsPassed(disk: Disk, part: int, bytesPerSector: nat): Volume
  {
    Volume(disk, part, bytesPerSector)
  }

  function AsItIs(disk: Disk, part: int, bytesPerSector: nat, sectorsPerCluster: nat): Volume
  {
    Volume(disk, part, bytesPerSector * sectorsPerCluster)
  }

  /** A bitmap file that can be read. */
  ghost predicate SoundBitmap(vol: Volume, runs: seq<Run>)
  {
    vol.Readable(0, runs) && NonNegative(runs, |runs|)
  }

  lemma RightUnit(disk: Disk, part: int, bytesPerSector: nat, sectorsPerCluster: nat, runs: seq<Run>)
    requires bytesPerSector > 0 && SoundBitmap(AsItIs(disk, part, bytesPerSector, sectorsPerCluster), runs)
    requires sectorsPerCluster == 1 || TotalLength(runs) == 0
    ensures BitmapOf(AsPassed(disk, part, bytesPerSector), runs) ==
            AsItIs(disk, part, bytesPerSector, sectorsPerCluster).Meaning(0, runs)
  {
    hide Content, TotalLength, NonNegative, Overlay;
    var passed, actual := AsPassed(disk, part, bytesPerSector), AsItIs(disk, part, bytesPerSector, sectorsPerCluster);
    var zeros := Zeros(passed.BytesIn(TotalLength(runs)));
    ContentSize(passed, zeros, runs);
    if TotalLength(runs) == 0 {
      actual.NoClusters(0, runs);
      NothingPending(passed);
      assert zeros == [];
    } else {
      HasRuns(runs);
      assert passed == actual;
      actual.MeaningLength(0, runs);
      ContentMeaning(passed, runs, zeros);
      OverlayAtStart(actual.Meaning(0, runs), zeros);
    }
  }

  lemma HasRuns(runs: seq<Run>)
    requires TotalLength(runs) > 0
    ensures runs != []
  {
  }

  /** On every disk the statuses that are read are those of the bitmap file exactly if a cluster is one sector or the
      file is empty. */
  lemma ExportStatusExact(disk: Disk, part: int, bytesPerSector: nat, sectorsPerCluster: nat, runs: seq<Run>)
    requires bytesPerSector > 0 && SoundBitmap(AsItIs(disk, part, bytesPerSector, sectorsPerCluster), runs)
    ensures StatusOf(BitmapOf(AsPassed(disk, part, bytesPerSector), runs)) ==
            StatusOf(AsItIs(disk, part, bytesPerSector, sectorsPerCluster).Meaning(0, runs)) <==>
            sectorsPerCluster == 1 || TotalLength(runs) == 0
  {
    hide Content, TotalLength, StatusOf, NonNegative;
    var passed, actual := AsPassed(disk, part, bytesPerSector), AsItIs(disk, part, bytesPerSector, sectorsPerCluster);
    var wrong, right := BitmapOf(passed, runs), actual.Meaning(0, runs);
    UnitSizes(TotalLength(runs), bytesPerSector, sectorsPerCluster);
    if sectorsPerCluster == 1 || TotalLength(runs) == 0 {
      RightUnit(disk, part, bytesPerSector, sectorsPerCluster, runs);
    } else {
      ContentSize(passed, Zeros(passed.BytesIn(TotalLength(runs))), runs);
      actual.MeaningLength(0, runs);
      if StatusOf(wrong) == StatusOf(right) {
        StatusSizes(wrong, right);
      }
    }
  }

  /** The free clusters found are those of the bitmap file, whatever the disk holds. */
  ghost predicate AlwaysFindsFree(disk: Disk, part: int, bytesPerSector: nat, sectorsPerCluster: nat, runs: seq<Run>)
    requires bytesPerSector > 0
  {
    forall bytes | |bytes| == disk.Size() ::
      var actual := AsItIs(Disk(bytes), part, bytesPerSector, sectorsPerCluster);
      SoundBitmap(actual, runs) &&
      FreeSet(StatusOf(BitmapOf(AsPassed(Disk(bytes), part, bytesPerSector), runs))) ==
      FreeSet(StatusOf(actual.Meaning(0, runs)))
  }

  /** So the export finds the free clusters on every disk exactly if a cluster is one sector or the file is empty. */
  lemma ExportFreeExact(disk: Disk, part: int, bytesPerSector: nat, sectorsPerCluster: nat, runs: seq<Run>)
    requires bytesPerSector > 0 && SoundBitmap(AsItIs(disk, part, bytesPerSector, sectorsPerCluster), runs)
    ensures AlwaysFindsFree(disk, part, bytesPerSector, sectorsPerCluster, runs) <==>
            sectorsPerCluster == 1 || TotalLength(runs) == 0
  {
    hide BitmapOf, TotalLength, StatusOf, FreeSet, NonNegative;
    var actual := AsItIs(disk, part, bytesPerSector, sectorsPerCluster);
    if sectorsPerCluster == 1 || TotalLength(runs) == 0 {
      forall bytes | |bytes| == disk.Size()
        ensures var actual' := AsItIs(Disk(bytes), part, bytesPerSector, sectorsPerCluster);
                SoundBitmap(actual', runs) &&
                BitmapOf(AsPassed(Disk(bytes), part, bytesPerSector), runs) == actual'.Meaning(0, runs)
      {
        SameRuns(actual, AsItIs(Disk(bytes), part, bytesPerSector, sectorsPerCluster), 0, runs);
        RightUnit(Disk(bytes), part, bytesPerSector, sectorsPerCluster, runs);
      }
    } else {
      ZeroDiskDiffers(disk, part, bytesPerSector, sectorsPerCluster, runs);
    }
  }

  lemma ZeroDiskDiffers(disk: Disk, part: int, bytesPerSector: nat, sectorsPerCluster: nat, runs: seq<Run>)
    requires bytesPerSector > 0 && SoundBitmap(AsItIs(disk, part, bytesPerSector, sectorsPerCluster), runs)
    requires sectorsPerCluster != 1 && TotalLength(runs) != 0
    ensures !AlwaysFindsFree(disk, part, bytesPerSector, sectorsPerCluster, runs)
  {
    hide BitmapOf, TotalLength, StatusOf, FreeSet, NonNegative;
    var zeros := Disk(Zeros(disk.Size()));
    var passed, actual := AsPassed(zeros, part, bytesPerSector), AsItIs(zeros, part, bytesPerSector, sectorsPerCluster);
    var n := TotalLength(runs);
    SameRuns(AsItIs(disk, part, bytesPerSector, sectorsPerCluster), actual, 0, runs);
    ZeroBitmap(passed, runs);
    ZeroMeaning(actual, 0, runs);
    actual.MeaningLength(0, runs);
    assert actual.Meaning(0, runs) == Zeros(actual.BytesIn(n));
    ZerosAreFree(passed.BytesIn(n));
    ZerosAreFree(actual.BytesIn(n));
    UnitSizes(n, bytesPerSector, sectorsPerCluster);
    var c := 8 * Min(passed.BytesIn(n), actual.BytesIn(n));
    assert c in FreeSet(StatusOf(BitmapOf(passed, runs))) <==> c !in FreeSet(StatusOf(actual.Meaning(0, runs)));
    assert |zeros.bytes| == disk.Size();
  }

  /** One bitmap cluster of two one-byte sectors, all free, behind a sector of ones: the export finds nothing. */
  lemma NothingFound()
    ensures var disk := Disk([0, 0xFF, 0, 0]);
            var runs := [Run(1, 1)];
            SoundBitmap(AsItIs(disk, 0, 1, 2), runs) &&
            FreeSet(StatusOf(BitmapOf(AsPassed(disk, 0, 1), runs))) == {} &&
            forall c: nat :: c in FreeSet(StatusOf(AsItIs(disk, 0, 1, 2).Meaning(0, runs))) <==> c < 16
  {
    var disk := Disk([0, 0xFF, 0, 0]);
    var run := Run(1, 1);
    var runs := [run];
    var passed, actual := AsPassed(disk, 0, 1), AsItIs(disk, 0, 1, 2);
    passed.OneRun(0, run);
    actual.OneRun(0, run);
    OneRunLength(run);
    assert Shift(runs[..1]) == 1 by {
      assert runs[..1] == runs && runs[1..] == [];
    }
    assert disk.bytes[2..4] == Zeros(2) && disk.bytes[1..2] == [0xFF];
    assert actual.Meaning(0, runs) == Zeros(2);
    ZerosAreFree(2);
    var zero := Zeros(passed.BytesIn(TotalLength(runs)));
    assert |zero| == 1 && passed.Meaning(0, runs) == [0xFF];
    ContentMeaning(passed, runs, zero);
    assert BitmapOf(passed, runs) == [0xFF];
    forall c: nat | c < 8
      ensures BitSet(0xFF, c)
    {
      AllBits(c);
    }
    assert forall c: nat | c < 8 :: c / 8 == 0 && c % 8 == c;
  }

  lemma AllBits(j: nat)
    requires j < 8
    ensures BitSet(0xFF, j)
  {
    assert Mask(j) != 0;
    assert 0xFF & Mask(j) == Mask(j);
  }
}
