/** The grouped reader of BTRFS file data and the original extent-by-extent reader (FS/adapter.go). */
module BtrfsReaders {
  import opened Bytes
  import opened Readers
  import opened BtrfsNodes
  import opened BtrfsInodes
  import opened BtrfsExtents
  import opened MapOrder
  import opened Sorting
  import opened Wrappers

  /** The disk, the partition and the chunk map a file is read with. */
  datatype Storage = Storage(chunks: ChunkMap, disk: Disk, partitionOffsetB: int)

  /** The volume offset after looking an address up: an unmapped address leaves the previous one. */
  ghost function Resolve(chunks: ChunkMap, address: nat, volumeOffset: nat): nat
  {
    if Mapped(chunks, address) then PlaceIn(chunks, KeyOf(chunks, address), address).offset else volumeOffset
  }

  method LocateChunk(chunks: ChunkMap, address: nat, volumeOffset: nat) returns (r: nat)
    ensures !Mapped(chunks, address) ==> r == volumeOffset
    ensures Mapped(chunks, address) ==>
              exists key | Covers(chunks, key, address) :: r == PlaceIn(chunks, key, address).offset
    ensures Disjoint(chunks) ==> r == Resolve(chunks, address, volumeOffset)
  {
    var rest := chunks.Keys;
    while rest != {}
      invariant rest <= chunks.Keys
      invariant forall key | key in chunks && key !in rest :: !Covers(chunks, key, address)
      decreases |rest|
    {
      var keyOffset := Pick(rest);
      if Covers(chunks, keyOffset, address) {
        return chunks[keyOffset].stripeOffset + (address - keyOffset);
      }
      rest := rest - {keyOffset};
    }
    return volumeOffset;
  }

  /** The data of an extent at a disk offset: none, what the disk gives, or zeros for a hole. */
  function Piece(disk: Disk, e: Extent, offset: int): seq<byte>
  {
    if e.lSize == 0 then [] else if e.logicalAddress != 0 then disk.ReadData(offset, e.lSize) else Zeros(e.lSize)
  }

  ghost function OffsetOf(st: Storage, volumeOffset: nat, e: Extent): int
  {
    st.partitionOffsetB + Resolve(st.chunks, e.logicalAddress, volumeOffset) + e.offset
  }

  // ---------- Extent by extent ----------

  /** The bytes of extents read one by one, as far as their offsets stay on the disk. */
  ghost function OneByOne(st: Storage, volumeOffset: nat, extents: seq<Extent>): seq<byte>
    decreases |extents|
  {
    if extents == [] then []
    else
      var e := extents[0];
      var offset := OffsetOf(st, volumeOffset, e);
      if offset > st.disk.Size() then []
      else Piece(st.disk, e, offset) + OneByOne(st, Resolve(st.chunks, e.logicalAddress, volumeOffset), extents[1..])
  }

  /** After k extents: what has been read, followed by what the others give, is the whole. */
  ghost predicate Reading(st: Storage, extents: seq<Extent>, k: nat, volumeOffset: nat, buf: seq<byte>)
    requires k <= |extents|
  {
    OneByOne(st, 0, extents) == buf + OneByOne(st, volumeOffset, extents[k..])
  }

  lemma ReadingStarts(st: Storage, extents: seq<Extent>)
    ensures Reading(st, extents, 0, 0, [])
  {
    assert extents[0..] == extents;
    assert [] + OneByOne(st, 0, extents) == OneByOne(st, 0, extents);
  }

  lemma ReadingOn(st: Storage, extents: seq<Extent>, k: nat, volumeOffset: nat, buf: seq<byte>)
    requires k < |extents| && Reading(st, extents, k, volumeOffset, buf)
    ensures var e := extents[k];
            var offset := OffsetOf(st, volumeOffset, e);
            if offset > st.disk.Size() then OneByOne(st, 0, extents) == buf
            else Reading(st, extents, k + 1, Resolve(st.chunks, e.logicalAddress, volumeOffset), buf + Piece(st.disk, e, offset))
  {
    hide OneByOne, Resolve, Piece, OffsetOf;
    var e := extents[k];
    OneMore(st, volumeOffset, extents, k);
    var piece := Piece(st.disk, e, OffsetOf(st, volumeOffset, e));
    var later := OneByOne(st, Resolve(st.chunks, e.logicalAddress, volumeOffset), extents[k + 1..]);
    assert (buf + piece) + later == buf + (piece + later);
    assert buf + [] == buf;
  }

  lemma ReadingEnds(st: Storage, extents: seq<Extent>, volumeOffset: nat, buf: seq<byte>)
    requires Reading(st, extents, |extents|, volumeOffset, buf)
    ensures OneByOne(st, 0, extents) == buf
  {
    assert extents[|extents|..] == [];
    NothingLeft(st, volumeOffset);
    assert buf + [] == buf;
  }

  method LocateDataORG(st: Storage, entry: FileDirEntry) returns (buf: seq<byte>)
    requires Disjoint(st.chunks) && |entry.items| == |entry.dataItems|
    ensures buf == OneByOne(st, 0, Extents(FileExtents(entry.items, entry.dataItems)))
  {
    hide FileExtents, OneByOne, Resolve, Covers, Mapped, PlaceIn, Disjoint, Reading;
    buf := [];
    var volumeOffset: nat := 0;
    var extents := GetExtents(entry);
    ReadingStarts(st, extents);
    for k := 0 to |extents|
      invariant Reading(st, extents, k, volumeOffset, buf)
    {
      var extent := extents[k];
      ReadingOn(st, extents, k, volumeOffset, buf);
      volumeOffset := LocateChunk(st.chunks, extent.logicalAddress, volumeOffset);
      var offset := st.partitionOffsetB + volumeOffset + extent.offset;
      if offset > st.disk.Size() {
        return;
      }
      if extent.logicalAddress != 0 && extent.lSize > 0 {
        buf := buf + st.disk.ReadData(offset, extent.lSize);
      } else if extent.logicalAddress == 0 && extent.lSize > 0 {
        buf := buf + Zeros(extent.lSize);
      } else {
        assert buf + [] == buf;
      }
    }
    ReadingEnds(st, extents, volumeOffset, buf);
  }

  lemma NothingLeft(st: Storage, volumeOffset: nat)
    ensures OneByOne(st, volumeOffset, []) == []
  {
  }

  lemma OneMore(st: Storage, volumeOffset: nat, extents: seq<Extent>, k: nat)
    requires k < |extents|
    ensures var e := extents[k];
            var offset := OffsetOf(st, volumeOffset, e);
            OneByOne(st, volumeOffset, extents[k..]) ==
            if offset > st.disk.Size() then []
            else Piece(st.disk, e, offset) + OneByOne(st, Resolve(st.chunks, e.logicalAddress, volumeOffset), extents[k + 1..])
  {
    assert extents[k..][0] == extents[k] && extents[k..][1..] == extents[k + 1..];
  }

  // ---------- Group by group ----------

  function TotalSize(extents: seq<Extent>): nat
  {
    if extents == [] then 0 else TotalSize(extents[..|extents| - 1]) + extents[|extents| - 1].lSize
  }

  /** A group as one long extent that begins like its first. */
  function Merged(g: seq<Extent>): Extent
    requires g != []
  {
    Extent(g[0].logicalAddress, g[0].offset, TotalSize(g))
  }

  function MergedAll(groups: seq<seq<Extent>>): (r: seq<Extent>)
    requires AreGroups(groups)
    ensures |r| == |groups|
  {
    seq(|groups|, k requires 0 <= k < |groups| => assert IsGroup(groups[k]); Merged(groups[k]))
  }

  /** What copying extents into a buffer one behind the other leaves there, and how many bytes it counts. */
  ghost function Fill(st: Storage, volumeOffset: nat, extents: seq<Extent>, buf: seq<byte>, total: nat): (r: Filled<nat>)
    ensures |r.buf| == |buf|
    decreases |extents|
  {
    if extents == [] then Filled(Done(total), buf)
    else
      var e := extents[0];
      var offset := OffsetOf(st, volumeOffset, e);
      if offset > st.disk.Size() then Filled(Done(total), buf)
      else if e.lSize > 0 && total > |buf| then Filled(Panic, buf)
      else
        Fill(st, Resolve(st.chunks, e.logicalAddress, volumeOffset), extents[1..],
             if e.lSize == 0 then buf else Overlay(buf, total, Piece(st.disk, e, offset)), total + e.lSize)
  }

  lemma FillMore(st: Storage, volumeOffset: nat, extents: seq<Extent>, k: nat, buf: seq<byte>, total: nat)
    requires k < |extents|
    ensures var e := extents[k];
            var offset := OffsetOf(st, volumeOffset, e);
            Fill(st, volumeOffset, extents[k..], buf, total) ==
            if offset > st.disk.Size() then Filled(Done(total), buf)
            else if e.lSize > 0 && total > |buf| then Filled(Panic, buf)
            else
              Fill(st, Resolve(st.chunks, e.logicalAddress, volumeOffset), extents[k + 1..],
                   if e.lSize == 0 then buf else Overlay(buf, total, Piece(st.disk, e, offset)), total + e.lSize)
  {
    assert extents[k..][0] == extents[k] && extents[k..][1..] == extents[k + 1..];
  }

  lemma FillNothing(st: Storage, volumeOffset: nat, buf: seq<byte>, total: nat)
    ensures Fill(st, volumeOffset, [], buf, total) == Filled(Done(total), buf)
  {
  }

  method SumSizes(extents: seq<Extent>) returns (toRead: nat)
    requires extents != []
    ensures toRead == TotalSize(extents)
  {
    toRead := extents[0].lSize;
    assert extents[..1] == [extents[0]] && [extents[0]][..0] == [];
    for k := 1 to |extents|
      invariant toRead == TotalSize(extents[..k])
    {
      assert extents[..k + 1][..k] == extents[..k];
      toRead := toRead + extents[k].lSize;
    }
    assert extents[..|extents|] == extents;
  }

  method LocateData(st: Storage, entry: FileDirEntry, dataToRead: array<byte>)
    returns (r: Outcome<nat>, ghost groups: seq<seq<Extent>>, ghost m: map<nat, Extent>, ghost offsets: seq<nat>)
    requires Disjoint(st.chunks) && |entry.items| == |entry.dataItems|
    modifies dataToRead
    ensures LastByOffset(m, FileExtents(entry.items, entry.dataItems))
    ensures AreGroups(groups) && InOffsetOrder(Flatten(groups), m, offsets)
    ensures Filled(r, dataToRead[..]) == Fill(st, 0, MergedAll(groups), old(dataToRead[..]), 0)
  {
    hide FileExtents, LastByOffset, InOffsetOrder, Flatten, AreGroups, Fill, Resolve, Overlay, TotalSize, Covers, Mapped,
         PlaceIn;
    var groupedExtents;
    groupedExtents, m, offsets := GetGroupedExtents(entry);
    groups := groupedExtents;
    ghost var merged := MergedAll(groups);
    ghost var orig := dataToRead[..];
    var volumeOffset: nat, totalReadBytes: nat := 0, 0;
    assert merged[0..] == merged;
    for k := 0 to |groupedExtents|
      invariant Fill(st, 0, merged, orig, 0) == Fill(st, volumeOffset, merged[k..], dataToRead[..], totalReadBytes)
    {
      FillMore(st, volumeOffset, merged, k, dataToRead[..], totalReadBytes);
      MergedAt(groups, k);
      var extents := groupedExtents[k];
      var startFrom, extentOffset := extents[0].logicalAddress, extents[0].offset;
      var toRead := SumSizes(extents);
      volumeOffset := LocateChunk(st.chunks, startFrom, volumeOffset);
      var offset := st.partitionOffsetB + volumeOffset + extentOffset;
      if offset > st.disk.Size() {
        return Done(totalReadBytes), groups, m, offsets;
      }
      if startFrom != 0 && toRead > 0 {
        var data := st.disk.ReadData(offset, toRead);
        if totalReadBytes > dataToRead.Length {
          return Panic, groups, m, offsets;
        }
        Copy(dataToRead, totalReadBytes, data);
      } else if startFrom == 0 && toRead > 0 {
        if totalReadBytes > dataToRead.Length {
          return Panic, groups, m, offsets;
        }
        Copy(dataToRead, totalReadBytes, Zeros(toRead));
      }
      totalReadBytes := totalReadBytes + toRead;
    }
    assert merged[|groupedExtents|..] == [];
    FillNothing(st, volumeOffset, dataToRead[..], totalReadBytes);
    return Done(totalReadBytes), groups, m, offsets;
  }

  lemma MergedAt(groups: seq<seq<Extent>>, k: nat)
    requires AreGroups(groups) && k < |groups|
    ensures groups[k] != [] && MergedAll(groups)[k] == Merged(groups[k])
  {
    assert IsGroup(groups[k]);
  }

  // ---------- What the extents mean ----------

  /** Where a mapped extent's data begins on the disk. */
  ghost function Position(st: Storage, e: Extent): int
  {
    OffsetOf(st, 0, e)
  }

  /** A mapped extent whose data is on the disk, or a hole. */
  ghost predicate Sound(st: Storage, e: Extent)
  {
    if e.logicalAddress == 0 then e.offset == 0 && (Mapped(st.chunks, 0) ==> Position(st, e) <= st.disk.Size())
    else
      Mapped(st.chunks, e.logicalAddress) && st.disk.InRange(Position(st, e), e.lSize)
  }

  ghost predicate AllSound(st: Storage, extents: seq<Extent>)
  {
    forall k | 0 <= k < |extents| :: Sound(st, extents[k])
  }

  ghost function ExtentBytes(st: Storage, e: Extent): (b: seq<byte>)
    requires Sound(st, e)
    ensures |b| == e.lSize
  {
    if e.logicalAddress == 0 then Zeros(e.lSize)
    else st.disk.bytes[Position(st, e)..Position(st, e) + e.lSize]
  }

  /** The bytes of the extents one after the other. */
  ghost function FileBytes(st: Storage, extents: seq<Extent>): (b: seq<byte>)
    requires AllSound(st, extents)
    ensures |b| == TotalSize(extents)
  {
    if extents == [] then []
    else
      var n := |extents| - 1;
      FileBytes(st, extents[..n]) + ExtentBytes(st, extents[n])
  }

  lemma {:induction false} FileBytesAppend(st: Storage, a: seq<Extent>, b: seq<Extent>)
    requires AllSound(st, a) && AllSound(st, b)
    ensures AllSound(st, a + b) && FileBytes(st, a + b) == FileBytes(st, a) + FileBytes(st, b)
    ensures TotalSize(a + b) == TotalSize(a) + TotalSize(b)
  {
    hide Sound, ExtentBytes;
    if b == [] {
      assert a + b == a;
    } else {
      var n := |b| - 1;
      assert (a + b)[..|a + b| - 1] == a + b[..n] && (a + b)[|a + b| - 1] == b[n];
      FileBytesAppend(st, a, b[..n]);
    }
  }

  lemma OneExtent(st: Storage, e: Extent)
    requires Sound(st, e)
    ensures AllSound(st, [e]) && FileBytes(st, [e]) == ExtentBytes(st, e) && TotalSize([e]) == e.lSize
  {
    hide Sound, ExtentBytes;
    assert [e][..0] == [];
  }

  /** The volume offset left behind by earlier extents is on the disk. */
  predicate OnDisk(st: Storage, volumeOffset: nat)
  {
    st.partitionOffsetB + volumeOffset <= st.disk.Size()
  }

  /** Reading a sound extent gives its bytes and leaves a volume offset on the disk. */
  lemma ReadSound(st: Storage, volumeOffset: nat, e: Extent)
    requires Sound(st, e) && OnDisk(st, volumeOffset)
    ensures OffsetOf(st, volumeOffset, e) <= st.disk.Size()
    ensures Piece(st.disk, e, OffsetOf(st, volumeOffset, e)) == ExtentBytes(st, e)
    ensures OnDisk(st, Resolve(st.chunks, e.logicalAddress, volumeOffset))
  {
  }

  /** The original reader returns the bytes the extents mean. */
  lemma {:induction false} OneByOneIsFileBytes(st: Storage, volumeOffset: nat, extents: seq<Extent>)
    requires AllSound(st, extents) && OnDisk(st, volumeOffset)
    ensures OneByOne(st, volumeOffset, extents) == FileBytes(st, extents)
    decreases |extents|
  {
    hide Sound, ExtentBytes, FileBytes, Piece, Resolve, OnDisk;
    if extents == [] {
      assert FileBytes(st, []) == [] by { Nothing(st); }
    } else {
      var e, rest := extents[0], extents[1..];
      ReadSound(st, volumeOffset, e);
      OneByOneIsFileBytes(st, Resolve(st.chunks, e.logicalAddress, volumeOffset), rest);
      OneExtent(st, e);
      FileBytesAppend(st, [e], rest);
      assert extents == [e] + rest;
    }
  }

  lemma Nothing(st: Storage)
    ensures FileBytes(st, []) == []
  {
  }

  /** A non-empty extent that begins beyond the end of the buffer. */
  predicate Overruns(extents: seq<Extent>, total: nat, size: nat)
    decreases |extents|
  {
    extents != [] &&
    ((extents[0].lSize > 0 && total > size) || Overruns(extents[1..], total + extents[0].lSize, size))
  }

  /** Copying sound extents fills the buffer with their bytes, cut off at its end, and faults exactly on an overrun. */
  lemma {:induction false} FillIsFileBytes(st: Storage, volumeOffset: nat, extents: seq<Extent>, orig: seq<byte>,
                                           before: seq<byte>)
    requires AllSound(st, extents) && OnDisk(st, volumeOffset)
    ensures var r := Fill(st, volumeOffset, extents, Overlay(orig, 0, before), |before|);
            if Overruns(extents, |before|, |orig|) then r.outcome == Panic
            else r == Filled(Done(|before| + TotalSize(extents)), Overlay(orig, 0, before + FileBytes(st, extents)))
    decreases |extents|
  {
    hide Sound, ExtentBytes, FileBytes, Piece, Resolve, OnDisk, Overlay, TotalSize;
    if extents == [] {
      Nothing(st);
      assert before + [] == before;
    } else {
      var e, rest := extents[0], extents[1..];
      ReadSound(st, volumeOffset, e);
      OneExtent(st, e);
      FileBytesAppend(st, [e], rest);
      assert extents == [e] + rest;
      var bytes := ExtentBytes(st, e);
      FillIsFileBytes(st, Resolve(st.chunks, e.logicalAddress, volumeOffset), rest, orig, before + bytes);
      assert before + bytes + FileBytes(st, rest) == before + (bytes + FileBytes(st, rest));
      if e.lSize == 0 {
        assert before + bytes == before;
      } else if |before| <= |orig| {
        assert bytes[..|bytes|] == bytes;
        OverlayCapped(orig, before, bytes, bytes);
      }
    }
  }

  // ---------- Where each byte comes from ----------

  /** The source of a byte: a zero, a byte of the disk, or what the buffer held before. */
  datatype Source = Zero | DiskAt(position: int) | Kept

  /** The byte of a source. */
  function Show(source: Source, bytes: seq<byte>, kept: byte): byte
  {
    match source
    case Zero => 0
    case DiskAt(p) => if 0 <= p < |bytes| then bytes[p] else 0
    case Kept => kept
  }

  /** An extent whose reading is at least attempted; it fails if it leaves the disk. */
  ghost predicate Reached(st: Storage, e: Extent)
  {
    if e.logicalAddress == 0 then e.offset == 0 && (Mapped(st.chunks, 0) ==> Position(st, e) <= st.disk.Size())
    else Mapped(st.chunks, e.logicalAddress) && 0 <= Position(st, e) <= st.disk.Size()
  }

  ghost predicate AllReached(st: Storage, extents: seq<Extent>)
  {
    forall k | 0 <= k < |extents| :: Reached(st, extents[k])
  }

  ghost function SourceOf(st: Storage, e: Extent, j: nat): Source
  {
    if e.logicalAddress == 0 then Zero
    else if st.disk.InRange(Position(st, e), e.lSize) then DiskAt(Position(st, e) + j)
    else Kept
  }

  ghost function ExtentSources(st: Storage, e: Extent): (s: seq<Source>)
    ensures |s| == e.lSize && forall j | 0 <= j < |s| :: s[j] == SourceOf(st, e, j)
  {
    seq(e.lSize, j requires 0 <= j < e.lSize => SourceOf(st, e, j))
  }

  /** The sources of the bytes of extents, one extent behind the other. A caller can compute them from the chunk map
      and the size of the disk. */
  ghost function Sources(st: Storage, extents: seq<Extent>): (s: seq<Source>)
    ensures |s| == TotalSize(extents)
  {
    if extents == [] then []
    else
      TotalSizeFirst(extents);
      ExtentSources(st, extents[0]) + Sources(st, extents[1..])
  }

  lemma {:induction false} TotalSizeAppend(a: seq<Extent>, b: seq<Extent>)
    ensures TotalSize(a + b) == TotalSize(a) + TotalSize(b)
  {
    if b == [] {
      assert a + b == a;
    } else {
      assert (a + b)[..|a + b| - 1] == a + b[..|b| - 1];
      TotalSizeAppend(a, b[..|b| - 1]);
    }
  }

  lemma OneSize(e: Extent)
    ensures TotalSize([e]) == e.lSize
  {
    assert [e][..0] == [];
  }

  lemma TotalSizeFirst(extents: seq<Extent>)
    requires extents != []
    ensures TotalSize(extents) == extents[0].lSize + TotalSize(extents[1..])
  {
    assert extents == [extents[0]] + extents[1..];
    OneSize(extents[0]);
    TotalSizeAppend([extents[0]], extents[1..]);
  }

  lemma {:induction false} SourcesAppend(st: Storage, a: seq<Extent>, b: seq<Extent>)
    ensures Sources(st, a + b) == Sources(st, a) + Sources(st, b)
    decreases |a|
  {
    hide ExtentSources;
    if a == [] {
      assert a + b == b;
    } else {
      assert (a + b)[0] == a[0] && (a + b)[1..] == a[1..] + b;
      SourcesAppend(st, a[1..], b);
    }
  }

  lemma OneSource(st: Storage, e: Extent)
    ensures Sources(st, [e]) == ExtentSources(st, e)
  {
    hide ExtentSources;
    assert [e][0] == e && [e][1..] == [];
  }

  /** Reading an extent gives the bytes of its sources. */
  lemma ReadShows(st: Storage, volumeOffset: nat, e: Extent)
    requires Reached(st, e) && OnDisk(st, volumeOffset)
    ensures OffsetOf(st, volumeOffset, e) <= st.disk.Size()
    ensures OnDisk(st, Resolve(st.chunks, e.logicalAddress, volumeOffset))
    ensures var piece := Piece(st.disk, e, OffsetOf(st, volumeOffset, e));
            |piece| <= e.lSize &&
            forall j: nat, kept | j < e.lSize ::
              Show(SourceOf(st, e, j), st.disk.bytes, kept) == if j < |piece| then piece[j] else kept
  {
  }

  /** A buffer before and after its bytes from a place on were replaced by what their sources show. */
  ghost predicate Shown(disk: Disk, sources: seq<Source>, before: seq<byte>, after: seq<byte>, total: nat)
  {
    |after| == |before| && total + |sources| <= |before| &&
    forall i | 0 <= i < |before| ::
      after[i] == if total <= i < total + |sources| then Show(sources[i - total], disk.bytes, before[i]) else before[i]
  }

  lemma ShownTogether(disk: Disk, a: seq<Source>, b: seq<Source>, before: seq<byte>, mid: seq<byte>, after: seq<byte>,
                      total: nat)
    requires Shown(disk, a, before, mid, total) && Shown(disk, b, mid, after, total + |a|)
    ensures Shown(disk, a + b, before, after, total)
  {
    hide Show;
  }

  lemma NothingShown(disk: Disk, buf: seq<byte>, total: nat)
    requires total <= |buf|
    ensures Shown(disk, [], buf, buf, total)
  {
  }

  lemma ShownOver(st: Storage, volumeOffset: nat, e: Extent, buf: seq<byte>, total: nat)
    requires Reached(st, e) && OnDisk(st, volumeOffset) && total + e.lSize <= |buf|
    ensures var piece := Piece(st.disk, e, OffsetOf(st, volumeOffset, e));
            var next := if e.lSize == 0 then buf else Overlay(buf, total, piece);
            Shown(st.disk, ExtentSources(st, e), buf, next, total)
  {
    hide Resolve, Position, OffsetOf, Piece, SourceOf, Show, Reached, OnDisk;
    ReadShows(st, volumeOffset, e);
  }

  /** What a roomy buffer holds, byte by byte, and what is counted. */
  lemma {:induction false} FillShows(st: Storage, volumeOffset: nat, extents: seq<Extent>, buf: seq<byte>, total: nat)
    requires AllReached(st, extents) && OnDisk(st, volumeOffset) && total + TotalSize(extents) <= |buf|
    ensures var f := Fill(st, volumeOffset, extents, buf, total);
            f.outcome == Done(total + TotalSize(extents)) && Shown(st.disk, Sources(st, extents), buf, f.buf, total)
    decreases |extents|
  {
    hide Resolve, Position, OffsetOf, Piece, SourceOf, Show, Reached, OnDisk, TotalSize, Overlay, Shown, ExtentSources;
    if extents == [] {
      NoSize();
      NothingShown(st.disk, buf, total);
    } else {
      var e, rest := extents[0], extents[1..];
      TotalSizeFirst(extents);
      ReadShows(st, volumeOffset, e);
      ShownOver(st, volumeOffset, e, buf, total);
      var next := if e.lSize == 0 then buf else Overlay(buf, total, Piece(st.disk, e, OffsetOf(st, volumeOffset, e)));
      assert AllReached(st, rest);
      var vo := Resolve(st.chunks, e.logicalAddress, volumeOffset);
      FillShows(st, vo, rest, next, total + e.lSize);
      var f := Fill(st, vo, rest, next, total + e.lSize);
      assert Fill(st, volumeOffset, extents, buf, total) == f;
      ShownTogether(st.disk, ExtentSources(st, e), Sources(st, rest), buf, next, f.buf, total);
    }
  }

  lemma NoSize()
    ensures TotalSize([]) == 0
  {
  }

  /** Whatever the buffer, a copy that ends has counted everything. */
  lemma {:induction false} FillCounts(st: Storage, volumeOffset: nat, extents: seq<Extent>, buf: seq<byte>, total: nat)
    requires AllReached(st, extents) && OnDisk(st, volumeOffset)
    ensures var f := Fill(st, volumeOffset, extents, buf, total);
            f.outcome.Done? ==> f.outcome.value == total + TotalSize(extents)
    decreases |extents|
  {
    hide Resolve, Position, OffsetOf, Piece, Reached, OnDisk, TotalSize, Overlay;
    if extents == [] {
      NoSize();
    } else {
      var e, rest := extents[0], extents[1..];
      TotalSizeFirst(extents);
      ReadShows(st, volumeOffset, e);
      var offset := OffsetOf(st, volumeOffset, e);
      assert AllReached(st, rest);
      if e.lSize == 0 || total <= |buf| {
        var next := if e.lSize == 0 then buf else Overlay(buf, total, Piece(st.disk, e, offset));
        FillCounts(st, Resolve(st.chunks, e.logicalAddress, volumeOffset), rest, next, total + e.lSize);
      }
    }
  }

  /** The bytes of sound extents are those of their sources, none of which is the buffer. */
  lemma {:induction false} FileBytesShow(st: Storage, extents: seq<Extent>)
    requires AllSound(st, extents)
    ensures AllReached(st, extents)
    ensures forall i | 0 <= i < TotalSize(extents) ::
              !Sources(st, extents)[i].Kept? &&
              forall kept :: FileBytes(st, extents)[i] == Show(Sources(st, extents)[i], st.disk.bytes, kept)
    decreases |extents|
  {
    hide Position, SourceOf, Show, TotalSize, Sound, Reached, ExtentBytes, FileBytes;
    if extents == [] {
      NoSize();
    } else {
      var e, rest := extents[0], extents[1..];
      assert AllSound(st, rest) && extents == [e] + rest;
      SoundShows(st, e);
      FileBytesShow(st, rest);
      OneExtent(st, e);
      FileBytesAppend(st, [e], rest);
      TotalSizeFirst(extents);
    }
  }

  lemma NeverKept(st: Storage, extents: seq<Extent>, i: nat)
    requires AllSound(st, extents) && i < TotalSize(extents)
    ensures !Sources(st, extents)[i].Kept?
  {
    hide Sound, Sources, FileBytes, TotalSize;
    FileBytesShow(st, extents);
  }

  lemma SoundShows(st: Storage, e: Extent)
    requires Sound(st, e)
    ensures Reached(st, e)
    ensures forall j: nat | j < e.lSize ::
              !SourceOf(st, e, j).Kept? &&
              forall kept :: ExtentBytes(st, e)[j] == Show(SourceOf(st, e, j), st.disk.bytes, kept)
  {
  }

  // ---------- Where extents lie ----------

  /** A mapped extent lies behind the partition's start, the chunk's stripe, the distance of its address from the chunk's
      and its inner offset. */
  lemma ExtentPlace(st: Storage, key: nat, e: Extent)
    requires Disjoint(st.chunks) && key in st.chunks && key <= e.logicalAddress < key + st.chunks[key].size
    ensures Mapped(st.chunks, e.logicalAddress)
    ensures Position(st, e) ==
            st.partitionOffsetB + st.chunks[key].stripeOffset + (e.logicalAddress - key) + e.offset
  {
    assert Covers(st.chunks, key, e.logicalAddress);
    assert KeyOf(st.chunks, e.logicalAddress) == key;
  }

  /** So both readers give the bytes from there on. */
  lemma OneExtentRead(st: Storage, key: nat, e: Extent, buf: seq<byte>)
    requires Disjoint(st.chunks) && key in st.chunks && key <= e.logicalAddress < key + st.chunks[key].size
    requires e.logicalAddress != 0 && |buf| == e.lSize
    requires var at := st.partitionOffsetB + st.chunks[key].stripeOffset + (e.logicalAddress - key) + e.offset;
             0 <= at && at + e.lSize <= st.disk.Size()
    ensures var at := st.partitionOffsetB + st.chunks[key].stripeOffset + (e.logicalAddress - key) + e.offset;
            OneByOne(st, 0, [e]) == st.disk.bytes[at..at + e.lSize] &&
            Fill(st, 0, [e], buf, 0) == Filled(Done(e.lSize), st.disk.bytes[at..at + e.lSize])
  {
    hide Position, OneByOne, Fill, FileBytes, Disjoint, Mapped;
    ExtentPlace(st, key, e);
    OneExtent(st, e);
    OneByOneIsFileBytes(st, 0, [e]);
    assert !Overruns([e], 0, |buf|) by {
      assert [e][1..] == [];
    }
    FillIsFileBytes(st, 0, [e], buf, []);
    NothingOver(buf);
    var bytes := FileBytes(st, [e]);
    assert [] + bytes == bytes && Overlay(buf, 0, bytes) == bytes;
  }

  /** An extent read from its middle gives the end of what it gives when read from its beginning. */
  lemma InnerOffset(st: Storage, address: nat, d: nat, n: nat)
    requires address != 0 && Sound(st, Extent(address, 0, d + n))
    ensures Sound(st, Extent(address, d, n))
    ensures ExtentBytes(st, Extent(address, d, n)) == ExtentBytes(st, Extent(address, 0, d + n))[d..]
  {
    hide Resolve;
  }

  /** Cutting an extent in two at any inner point changes nothing that is read. */
  lemma CutExtent(st: Storage, before: seq<Extent>, address: nat, d: nat, m: nat, n: nat, after: seq<Extent>)
    requires address != 0 && OnDisk(st, 0) && AllSound(st, before + [Extent(address, d, m + n)] + after)
    ensures AllSound(st, before + [Extent(address, d, m), Extent(address, d + m, n)] + after)
    ensures OneByOne(st, 0, before + [Extent(address, d, m + n)] + after) ==
            OneByOne(st, 0, before + [Extent(address, d, m), Extent(address, d + m, n)] + after)
  {
    hide Position, Sound, FileBytes, OneByOne, ExtentBytes;
    var whole, first, second := Extent(address, d, m + n), Extent(address, d, m), Extent(address, d + m, n);
    SoundParts(st, before + [whole], after);
    SoundParts(st, before, [whole]);
    TwoHalves(st, address, d, m, n);
    assert [first, second] == [first] + [second];
    SoundTogether(st, before, [first, second]);
    SoundTogether(st, before + [first, second], after);
    OneByOneIsFileBytes(st, 0, before + [whole] + after);
    OneByOneIsFileBytes(st, 0, before + [first, second] + after);
    FileBytesAppend(st, before + [whole], after);
    FileBytesAppend(st, before, [whole]);
    FileBytesAppend(st, before + [first, second], after);
    FileBytesAppend(st, before, [first, second]);
    FileBytesAppend(st, [first], [second]);
    OneExtent(st, whole);
    OneExtent(st, first);
    OneExtent(st, second);
  }

  lemma SoundTogether(st: Storage, a: seq<Extent>, b: seq<Extent>)
    requires AllSound(st, a) && AllSound(st, b)
    ensures AllSound(st, a + b)
  {
  }

  lemma TwoHalves(st: Storage, address: nat, d: nat, m: nat, n: nat)
    requires address != 0 && AllSound(st, [Extent(address, d, m + n)])
    ensures AllSound(st, [Extent(address, d, m), Extent(address, d + m, n)])
    ensures AllSound(st, [Extent(address, d, m)]) && AllSound(st, [Extent(address, d + m, n)])
    ensures Sound(st, Extent(address, d, m + n)) && Sound(st, Extent(address, d, m)) && Sound(st, Extent(address, d + m, n))
    ensures ExtentBytes(st, Extent(address, d, m + n)) ==
            ExtentBytes(st, Extent(address, d, m)) + ExtentBytes(st, Extent(address, d + m, n))
  {
    hide Resolve;
    assert Sound(st, [Extent(address, d, m + n)][0]);
    assert Position(st, Extent(address, d + m, n)) == Position(st, Extent(address, d, m)) + m;
    var at := Position(st, Extent(address, d, m));
    SplitSlice(st.disk.bytes, at, at + m, at + m + n);
  }

  // ---------- Addresses in no chunk, and places beyond the disk ----------

  /** Sixteen addresses from 16 on, the first at byte 3. */
  function OneChunk(bytes: seq<byte>): Storage
  {
    Storage(map[16 := Chunk(16, 3)], Disk(bytes), 0)
  }

  lemma OneChunkPlaces(bytes: seq<byte>, volumeOffset: nat)
    ensures var chunks := OneChunk(bytes).chunks;
            Disjoint(chunks) && Resolve(chunks, 16, volumeOffset) == 3 && Resolve(chunks, 99, volumeOffset) == volumeOffset
  {
    var chunks := OneChunk(bytes).chunks;
    forall key: nat, a: nat
      ensures Covers(chunks, key, a) <==> key == 16 && 16 <= a < 32
    {
    }
    assert 16 in chunks && Covers(chunks, 16, 16);
    assert KeyOf(chunks, 16) == 16;
  }

  /** An extent in no chunk is read from behind the place of the one before, or from the partition's start. */
  lemma StaleOffset(bytes: seq<byte>, mapped: Extent, unmapped: Extent)
    requires |bytes| == 8 && mapped == Extent(16, 0, 1) && unmapped == Extent(99, 2, 1)
    ensures OneByOne(OneChunk(bytes), 0, [unmapped, mapped, unmapped]) == [bytes[2], bytes[3], bytes[5]]
  {
    hide Resolve, OneByOne;
    var st := OneChunk(bytes);
    OneChunkPlaces(bytes, 0);
    OneChunkPlaces(bytes, 3);
    assert [unmapped] + [mapped, unmapped] == [unmapped, mapped, unmapped];
    assert [mapped] + [unmapped] == [mapped, unmapped] && [unmapped] + [] == [unmapped];
    OneMoreByte(st, 0, unmapped, [mapped, unmapped]);
    OneMoreByte(st, 0, mapped, [unmapped]);
    OneMoreByte(st, 3, unmapped, []);
    NothingLeft(st, 3);
  }

  lemma OneMoreByte(st: Storage, volumeOffset: nat, e: Extent, rest: seq<Extent>)
    requires e.lSize == 1 && e.logicalAddress != 0 && 0 <= OffsetOf(st, volumeOffset, e) < st.disk.Size()
    ensures OneByOne(st, volumeOffset, [e] + rest) ==
            [st.disk.bytes[OffsetOf(st, volumeOffset, e)]] +
            OneByOne(st, Resolve(st.chunks, e.logicalAddress, volumeOffset), rest)
  {
    hide Resolve;
    var at := OffsetOf(st, volumeOffset, e);
    assert ([e] + rest)[0] == e && ([e] + rest)[1..] == rest;
    assert st.disk.bytes[at..at + 1] == [st.disk.bytes[at]];
  }

  /** The same of the grouped reader. */
  lemma StaleOffsetGrouped(bytes: seq<byte>, buf: seq<byte>, mapped: Extent, unmapped: Extent)
    requires |bytes| == 8 && |buf| == 3 && mapped == Extent(16, 0, 1) && unmapped == Extent(99, 2, 1)
    ensures Fill(OneChunk(bytes), 0, [unmapped, mapped, unmapped], buf, 0) ==
            Filled(Done(3), [bytes[2], bytes[3], bytes[5]])
  {
    hide Resolve, Fill;
    var st := OneChunk(bytes);
    OneChunkPlaces(bytes, 0);
    OneChunkPlaces(bytes, 3);
    assert [unmapped] + [mapped, unmapped] == [unmapped, mapped, unmapped];
    assert [mapped] + [unmapped] == [mapped, unmapped] && [unmapped] + [] == [unmapped];
    var one := buf[0 := bytes[2]];
    var two := one[1 := bytes[3]];
    var three := two[2 := bytes[5]];
    FillByte(st, 0, unmapped, [mapped, unmapped], buf, 0);
    FillByte(st, 0, mapped, [unmapped], one, 1);
    FillByte(st, 3, unmapped, [], two, 2);
    FillNothing(st, 3, three, 3);
    assert three == [bytes[2], bytes[3], bytes[5]];
  }

  /** One byte further. */
  lemma FillByte(st: Storage, volumeOffset: nat, e: Extent, rest: seq<Extent>, buf: seq<byte>, total: nat)
    requires e.lSize == 1 && e.logicalAddress != 0 && total < |buf|
    requires 0 <= OffsetOf(st, volumeOffset, e) < st.disk.Size()
    ensures Fill(st, volumeOffset, [e] + rest, buf, total) ==
            Fill(st, Resolve(st.chunks, e.logicalAddress, volumeOffset), rest,
                 buf[total := st.disk.bytes[OffsetOf(st, volumeOffset, e)]], total + 1)
  {
    hide Resolve, Overlay;
    var at := OffsetOf(st, volumeOffset, e);
    assert ([e] + rest)[0] == e && ([e] + rest)[1..] == rest;
    assert st.disk.bytes[at..at + 1] == [st.disk.bytes[at]];
    OneOver(buf, total, st.disk.bytes[at]);
  }

  lemma OneOver(buf: seq<byte>, at: nat, b: byte)
    requires at < |buf|
    ensures Overlay(buf, at, [b]) == buf[at := b]
  {
  }

  /** An extent that begins at the very end of the disk is counted and the next one read; one that begins beyond it ends
      the reading. */
  lemma BeyondDisk(bytes: seq<byte>, atEnd: Extent, beyond: Extent, inside: Extent)
    requires |bytes| == 8
    requires atEnd == Extent(16, 5, 1) && beyond == Extent(16, 6, 1) && inside == Extent(16, 0, 1)
    ensures OneByOne(OneChunk(bytes), 0, [atEnd, inside]) == [bytes[3]]
    ensures OneByOne(OneChunk(bytes), 0, [beyond, inside]) == []
  {
    hide Resolve;
    var st := OneChunk(bytes);
    OneChunkPlaces(bytes, 0);
    OneChunkPlaces(bytes, 3);
    assert [atEnd, inside][1..] == [inside] && [beyond, inside][1..] == [inside] == [inside] + [];
    OneMoreByte(st, 3, inside, []);
    NothingLeft(st, 3);
  }

  /** The same of the grouped reader, which leaves the buffer as it is where nothing can be read. */
  lemma BeyondDiskGrouped(bytes: seq<byte>, buf: seq<byte>, atEnd: Extent, beyond: Extent, inside: Extent)
    requires |bytes| == 8 && |buf| == 2
    requires atEnd == Extent(16, 5, 1) && beyond == Extent(16, 6, 1) && inside == Extent(16, 0, 1)
    ensures Fill(OneChunk(bytes), 0, [atEnd] + [inside], buf, 0) == Filled(Done(2), [buf[0], bytes[3]])
    ensures Fill(OneChunk(bytes), 0, [beyond] + [inside], buf, 0) == Filled(Done(0), buf)
  {
    hide Resolve, Fill;
    var st := OneChunk(bytes);
    OneChunkPlaces(bytes, 0);
    OneChunkPlaces(bytes, 3);
    FillBeyond(st, 0, atEnd, [inside], buf, 0);
    FillBeyond(st, 0, beyond, [inside], buf, 0);
    FillByte(st, 3, inside, [], buf, 1);
    assert [inside] + [] == [inside];
    FillNothing(st, 3, buf[1 := bytes[3]], 2);
    assert buf[1 := bytes[3]] == [buf[0], bytes[3]];
  }

  /** An extent of which nothing can be read. */
  lemma FillBeyond(st: Storage, volumeOffset: nat, e: Extent, rest: seq<Extent>, buf: seq<byte>, total: nat)
    requires e.lSize > 0 && e.logicalAddress != 0 && total <= |buf| && OffsetOf(st, volumeOffset, e) >= st.disk.Size()
    ensures Fill(st, volumeOffset, [e] + rest, buf, total) ==
            if OffsetOf(st, volumeOffset, e) > st.disk.Size() then Filled(Done(total), buf)
            else Fill(st, Resolve(st.chunks, e.logicalAddress, volumeOffset), rest, buf, total + e.lSize)
  {
    hide Resolve, Overlay;
    assert ([e] + rest)[0] == e && ([e] + rest)[1..] == rest;
    NothingOverAt(buf, total);
  }

  lemma NothingOverAt(buf: seq<byte>, at: nat)
    requires at <= |buf|
    ensures Overlay(buf, at, []) == buf
  {
  }

  // ---------- Exactly when the two readers agree ----------

  function OnDiskOf(st: Storage, bytes: seq<byte>): Storage
  {
    st.(disk := Disk(bytes))
  }

  /** What is where does not depend on what the disk holds. */
  lemma {:induction false} SameSources(st: Storage, bytes: seq<byte>, extents: seq<Extent>)
    requires |bytes| == st.disk.Size()
    ensures Sources(OnDiskOf(st, bytes), extents) == Sources(st, extents)
    ensures AllReached(st, extents) ==> AllReached(OnDiskOf(st, bytes), extents)
    ensures AllSound(st, extents) ==> AllSound(OnDiskOf(st, bytes), extents)
    decreases |extents|
  {
    hide Resolve;
    var st' := OnDiskOf(st, bytes);
    assert forall e :: Position(st', e) == Position(st, e);
    if extents != [] {
      SameSources(st, bytes, extents[1..]);
      assert ExtentSources(st', extents[0]) == ExtentSources(st, extents[0]);
    }
  }

  /** On every disk of the size, a buffer with just enough room gets what the original reader returns. */
  ghost predicate AlwaysOriginal(st: Storage, groups: seq<seq<Extent>>, fes: seq<FileExtent>)
    requires AreGroups(groups)
  {
    forall bytes, orig | |bytes| == st.disk.Size() && |orig| == TotalSize(Extents(fes)) ::
      Fill(OnDiskOf(st, bytes), 0, MergedAll(groups), orig, 0) ==
      Filled(Done(|orig|), OneByOne(OnDiskOf(st, bytes), 0, Extents(fes)))
  }

  /** Two different sources, the second not the buffer, show different bytes on some disk. */
  lemma Distinguish(a: Source, b: Source, size: nat) returns (bytes: seq<byte>, kept: byte)
    requires a != b && !b.Kept? && (b.DiskAt? ==> 0 <= b.position < size) && (a.DiskAt? ==> 0 <= a.position < size)
    ensures |bytes| == size && Show(a, bytes, kept) != Show(b, bytes, kept)
  {
    if b.DiskAt? {
      bytes, kept := Zeros(size)[b.position := 1], 0;
    } else {
      bytes, kept := seq(size, _ => 1), 1;
    }
  }

  lemma {:induction false} SourcesOnDisk(st: Storage, extents: seq<Extent>)
    ensures forall i | 0 <= i < TotalSize(extents) && Sources(st, extents)[i].DiskAt? ::
              0 <= Sources(st, extents)[i].position < st.disk.Size()
    decreases |extents|
  {
    hide Position;
    if extents != [] {
      TotalSizeFirst(extents);
      SourcesOnDisk(st, extents[1..]);
    }
  }

  /** On one disk and one buffer the same sources give the same bytes. */
  lemma SameBytes(st: Storage, groups: seq<seq<Extent>>, fes: seq<FileExtent>, orig: seq<byte>)
    requires AreGroups(groups) && OnDisk(st, 0) && AllSound(st, Extents(fes)) && AllReached(st, MergedAll(groups))
    requires Sources(st, MergedAll(groups)) == Sources(st, Extents(fes)) && |orig| == TotalSize(Extents(fes))
    ensures Fill(st, 0, MergedAll(groups), orig, 0) == Filled(Done(|orig|), OneByOne(st, 0, Extents(fes)))
  {
    hide Sound, Reached, Sources, FileBytes, Fill, OneByOne, TotalSize, Extents, MergedAll, AreGroups, Show;
    OneByOneIsFileBytes(st, 0, Extents(fes));
    FileBytesShow(st, Extents(fes));
    FillShows(st, 0, MergedAll(groups), orig, 0);
  }

  /** The grouped reader gives what the original one does, on every disk, exactly if each byte of the file has the same
      source in both. This covers items in any order and several at one offset. */
  lemma SameSourcesExact(st: Storage, groups: seq<seq<Extent>>, fes: seq<FileExtent>)
    requires AreGroups(groups) && OnDisk(st, 0) && AllSound(st, Extents(fes)) && AllReached(st, MergedAll(groups))
    ensures AlwaysOriginal(st, groups, fes) <==> Sources(st, MergedAll(groups)) == Sources(st, Extents(fes))
  {
    hide Sound, Reached, Sources, FileBytes, Fill, OneByOne, TotalSize, Extents, MergedAll, AreGroups, Show, AllSound,
         AllReached;
    var merged, extents := MergedAll(groups), Extents(fes);
    if Sources(st, merged) == Sources(st, extents) {
      forall bytes, orig | |bytes| == st.disk.Size() && |orig| == TotalSize(extents)
        ensures Fill(OnDiskOf(st, bytes), 0, merged, orig, 0) ==
                Filled(Done(|orig|), OneByOne(OnDiskOf(st, bytes), 0, extents))
      {
        SameSources(st, bytes, merged);
        SameSources(st, bytes, extents);
        SameBytes(OnDiskOf(st, bytes), groups, fes, orig);
      }
    } else {
      OtherSources(st, groups, fes);
    }
  }

  lemma OtherSources(st: Storage, groups: seq<seq<Extent>>, fes: seq<FileExtent>)
    requires AreGroups(groups) && OnDisk(st, 0) && AllSound(st, Extents(fes)) && AllReached(st, MergedAll(groups))
    requires Sources(st, MergedAll(groups)) != Sources(st, Extents(fes))
    ensures !AlwaysOriginal(st, groups, fes)
  {
    hide Sound, Reached, Sources, FileBytes, Fill, OneByOne, TotalSize, Extents, MergedAll, AreGroups, Show, AllSound,
         AllReached;
    var merged, extents := MergedAll(groups), Extents(fes);
    var a, b := Sources(st, merged), Sources(st, extents);
    if |a| != |b| {
      var orig := Zeros(|b|);
      FillCounts(st, 0, merged, orig, 0);
      assert OnDiskOf(st, st.disk.bytes) == st;
      assert Fill(OnDiskOf(st, st.disk.bytes), 0, merged, orig, 0) != Filled(Done(|orig|), OneByOne(st, 0, extents));
    } else {
      var i :| 0 <= i < |a| && a[i] != b[i];
      SourcesOnDisk(st, merged);
      SourcesOnDisk(st, extents);
      NeverKept(st, extents, i);
      var bytes, kept := Distinguish(a[i], b[i], st.disk.Size());
      var orig := seq(|b|, _ => kept);
      ShownAt(st, groups, fes, bytes, orig, i);
      assert Fill(OnDiskOf(st, bytes), 0, merged, orig, 0).buf != OneByOne(OnDiskOf(st, bytes), 0, extents);
    }
  }

  /** One byte of what the two readers give on a disk. */
  lemma ShownAt(st: Storage, groups: seq<seq<Extent>>, fes: seq<FileExtent>, bytes: seq<byte>, orig: seq<byte>, i: nat)
    requires AreGroups(groups) && OnDisk(st, 0) && AllSound(st, Extents(fes)) && AllReached(st, MergedAll(groups))
    requires |bytes| == st.disk.Size() && |orig| == TotalSize(Extents(fes)) == TotalSize(MergedAll(groups)) && i < |orig|
    ensures |Fill(OnDiskOf(st, bytes), 0, MergedAll(groups), orig, 0).buf| == |orig|
    ensures |OneByOne(OnDiskOf(st, bytes), 0, Extents(fes))| == |orig|
    ensures Fill(OnDiskOf(st, bytes), 0, MergedAll(groups), orig, 0).buf[i] ==
            Show(Sources(st, MergedAll(groups))[i], bytes, orig[i])
    ensures OneByOne(OnDiskOf(st, bytes), 0, Extents(fes))[i] == Show(Sources(st, Extents(fes))[i], bytes, orig[i])
  {
    hide Sound, Reached, Sources, FileBytes, Fill, OneByOne, TotalSize, Extents, MergedAll, AreGroups, Show, AllSound,
         AllReached;
    var st' := OnDiskOf(st, bytes);
    SameSources(st, bytes, MergedAll(groups));
    SameSources(st, bytes, Extents(fes));
    FillShows(st', 0, MergedAll(groups), orig, 0);
    FileBytesShow(st', Extents(fes));
    OneByOneIsFileBytes(st', 0, Extents(fes));
  }

  // ---------- Groups that are one stretch of the disk ----------

  /** A group whose non-empty extents lie one behind the other on the disk, from where its first extent lies; behind a
      hole there are none. A group of one extent is always one stretch. */
  ghost predicate InStretch(st: Storage, g: seq<Extent>)
  {
    forall k | 0 < k < |g| && g[k].lSize > 0 ::
      g[0].logicalAddress != 0 && Position(st, g[k]) == Position(st, g[0]) + TotalSize(g[..k])
  }

  ghost predicate AllInStretch(st: Storage, groups: seq<seq<Extent>>)
  {
    forall k | 0 <= k < |groups| :: InStretch(st, groups[k])
  }

  lemma LaterNoHole(g: seq<Extent>, k: nat)
    requires IsGroup(g) && 0 < k < |g|
    ensures g[k].logicalAddress != 0 && g[k].offset == 0
  {
    assert Joins(g[k - 1], g[k]);
  }

  lemma SourcesSnoc(st: Storage, g: seq<Extent>, k: nat)
    requires k < |g|
    ensures Sources(st, g[..k + 1]) == Sources(st, g[..k]) + ExtentSources(st, g[k])
    ensures TotalSize(g[..k + 1]) == TotalSize(g[..k]) + g[k].lSize
  {
    hide Sources, ExtentSources, TotalSize;
    assert g[..k + 1] == g[..k] + [g[k]];
    SourcesAppend(st, g[..k], [g[k]]);
    OneSource(st, g[k]);
    TotalSizeAppend(g[..k], [g[k]]);
    OneSize(g[k]);
  }

  /** The sources of the first extents of a stretch. */
  lemma {:induction false} StretchSources(st: Storage, g: seq<Extent>, n: nat)
    requires IsGroup(g) && AllSound(st, g) && InStretch(st, g) && 0 < n <= |g|
    ensures var size, p := TotalSize(g[..n]), Position(st, g[0]);
            (g[0].logicalAddress == 0 ==> size == g[0].lSize) &&
            (g[0].logicalAddress != 0 ==> st.disk.InRange(p, size)) &&
            forall i: nat | i < size ::
              Sources(st, g[..n])[i] == if g[0].logicalAddress == 0 then Zero else DiskAt(p + i)
  {
    hide Position, Sources, TotalSize, IsGroup;
    var k := n - 1;
    SourcesSnoc(st, g, k);
    assert Sound(st, g[0]) && Sound(st, g[k]);
    if k == 0 {
      assert g[..0] == [];
      NoSize();
    } else {
      StretchSources(st, g, k);
      LaterNoHole(g, k);
    }
  }

  lemma {:induction false} SizeBefore(g: seq<Extent>, k: nat)
    requires k < |g|
    ensures TotalSize(g[..k]) + g[k].lSize <= TotalSize(g)
  {
    assert g == g[..k] + ([g[k]] + g[k + 1..]);
    TotalSizeAppend(g[..k], [g[k]] + g[k + 1..]);
    TotalSizeAppend([g[k]], g[k + 1..]);
    OneSize(g[k]);
  }

  /** The first byte of an extent of a group. */
  lemma FirstByteOf(st: Storage, g: seq<Extent>, k: nat)
    requires k < |g| && g[k].lSize > 0
    ensures TotalSize(g[..k]) < TotalSize(g)
    ensures Sources(st, g)[TotalSize(g[..k])] == SourceOf(st, g[k], 0)
  {
    hide Sources, TotalSize, SourceOf;
    SizeBefore(g, k);
    var later := [g[k]] + g[k + 1..];
    assert g == g[..k] + later;
    SourcesAppend(st, g[..k], later);
    SourcesAppend(st, [g[k]], g[k + 1..]);
    OneSource(st, g[k]);
  }

  /** A group read as one extent has the sources of its extents exactly if it is one stretch. */
  lemma StretchExact(st: Storage, g: seq<Extent>)
    requires IsGroup(g) && AllSound(st, g)
    ensures Reached(st, Merged(g))
    ensures ExtentSources(st, Merged(g)) == Sources(st, g) <==> InStretch(st, g)
  {
    hide Sources, TotalSize, IsGroup, Resolve;
    NotEmpty(g);
    var e := Merged(g);
    assert Sound(st, g[0]) && Position(st, e) == Position(st, g[0]);
    if InStretch(st, g) {
      StretchSources(st, g, |g|);
      assert g[..|g|] == g;
    }
    if ExtentSources(st, e) == Sources(st, g) {
      forall k | 0 < k < |g| && g[k].lSize > 0
        ensures g[0].logicalAddress != 0 && Position(st, g[k]) == Position(st, g[0]) + TotalSize(g[..k])
      {
        assert Sound(st, g[k]);
        LaterNoHole(g, k);
        FirstByteOf(st, g, k);
        assert SourceOf(st, e, TotalSize(g[..k])) == SourceOf(st, g[k], 0);
      }
    }
  }

  lemma NotEmpty(g: seq<Extent>)
    requires IsGroup(g)
    ensures g != []
  {
  }

  lemma EmptyGroups(st: Storage)
    ensures Flatten([]) == [] && Sources(st, []) == []
  {
  }

  lemma MergedSnoc(groups: seq<seq<Extent>>, g: seq<Extent>)
    requires AreGroups(groups + [g])
    ensures AreGroups(groups) && IsGroup(g) && MergedAll(groups + [g]) == MergedAll(groups) + [Merged(g)]
  {
    GroupsAreGroups(groups, g);
    forall k | 0 <= k < |groups| + 1
      ensures MergedAll(groups + [g])[k] == (MergedAll(groups) + [Merged(g)])[k]
    {
    }
  }

  /** All groups read as one extent each have the sources of all extents exactly if each is one stretch. */
  lemma {:induction false} AllStretchExact(st: Storage, groups: seq<seq<Extent>>)
    requires AreGroups(groups) && AllSound(st, Flatten(groups))
    ensures AllReached(st, MergedAll(groups)) && TotalSize(MergedAll(groups)) == TotalSize(Flatten(groups))
    ensures Sources(st, MergedAll(groups)) == Sources(st, Flatten(groups)) <==> AllInStretch(st, groups)
    decreases |groups|
  {
    hide Sources, TotalSize, IsGroup, Sound, Reached, InStretch, ExtentSources, MergedAll, Merged, Flatten;
    if groups == [] {
      EmptyGroups(st);
      assert MergedAll(groups) == [];
    } else {
      var init, g := groups[..|groups| - 1], groups[|groups| - 1];
      assert groups == init + [g];
      MergedSnoc(init, g);
      FlattenSnoc(init, g);
      SoundParts(st, Flatten(init), g);
      AllStretchExact(st, init);
      StretchExact(st, g);
      SourcesAppend(st, MergedAll(init), [Merged(g)]);
      OneSource(st, Merged(g));
      SourcesAppend(st, Flatten(init), g);
      MergedSize(g);
      TotalSizeAppend(MergedAll(init), [Merged(g)]);
      TotalSizeAppend(Flatten(init), g);
      var a, b := Sources(st, MergedAll(init)), ExtentSources(st, Merged(g));
      var c, d := Sources(st, Flatten(init)), Sources(st, g);
      assert |a| == |c|;
      assert a + b == c + d <==> a == c && b == d by { SplitEqual(a, b, c, d); }
      assert AllInStretch(st, groups) <==> AllInStretch(st, init) && InStretch(st, g);
    }
  }

  lemma MergedSize(g: seq<Extent>)
    requires g != []
    ensures TotalSize([Merged(g)]) == TotalSize(g)
  {
    OneSize(Merged(g));
  }

  lemma SoundParts(st: Storage, a: seq<Extent>, b: seq<Extent>)
    requires AllSound(st, a + b)
    ensures AllSound(st, a) && AllSound(st, b)
  {
    hide Sound;
    assert forall k | 0 <= k < |a| :: (a + b)[k] == a[k];
    assert forall k | 0 <= k < |b| :: (a + b)[|a| + k] == b[k];
  }

  /** What both readers are given: the extents of an entry in item order, and the groups of the same extents. */
  ghost predicate Given(st: Storage, groups: seq<seq<Extent>>, fes: seq<FileExtent>, m: map<nat, Extent>, offsets: seq<nat>)
  {
    LastByOffset(m, fes) && AreGroups(groups) && InOffsetOrder(Flatten(groups), m, offsets) &&
    OnDisk(st, 0) && AllSound(st, Extents(fes))
  }

  /** The groups' extents are some of the entry's. */
  lemma GroupedSound(st: Storage, groups: seq<seq<Extent>>, fes: seq<FileExtent>, m: map<nat, Extent>, offsets: seq<nat>)
    requires Given(st, groups, fes, m, offsets)
    ensures AreGroups(groups) && AllSound(st, Flatten(groups))
  {
    hide Sound, AreGroups, Flatten;
    var flat := Flatten(groups);
    forall k | 0 <= k < |flat|
      ensures Sound(st, flat[k])
    {
      var offset := offsets[k];
      assert offset in m && flat[k] == m[offset];
      var j :| 0 <= j < |fes| && fes[j] == FileExtent(offset, m[offset]);
      assert Extents(fes)[j] == flat[k];
    }
  }

  /** The grouped reader gives what the original one does, on every disk, exactly if each group is one stretch of the
      disk; for extents whose items come in file order with distinct offsets. */
  lemma GroupedIsOriginalExact(st: Storage, groups: seq<seq<Extent>>, fes: seq<FileExtent>, m: map<nat, Extent>,
                               offsets: seq<nat>)
    requires Given(st, groups, fes, m, offsets) && StrictlyAscending(Offsets(fes))
    ensures AreGroups(groups) && (AlwaysOriginal(st, groups, fes) <==> AllInStretch(st, groups))
  {
    hide Sound, AreGroups, Flatten, LastByOffset, InOffsetOrder, MergedAll, Sources, AllInStretch, AlwaysOriginal;
    GroupedSound(st, groups, fes, m, offsets);
    FileOrder(Flatten(groups), m, offsets, fes);
    AllStretchExact(st, groups);
    SameSourcesExact(st, groups, fes);
  }

  /** And exactly if each byte has the same source in both, for items in any order. */
  lemma GroupedIsOriginalAnyOrder(st: Storage, groups: seq<seq<Extent>>, fes: seq<FileExtent>, m: map<nat, Extent>,
                                  offsets: seq<nat>)
    requires Given(st, groups, fes, m, offsets)
    ensures AreGroups(groups) &&
            (AlwaysOriginal(st, groups, fes) <==> Sources(st, MergedAll(groups)) == Sources(st, Extents(fes)))
  {
    hide Sound, AreGroups, Flatten, LastByOffset, InOffsetOrder, MergedAll, Sources, AlwaysOriginal;
    GroupedSound(st, groups, fes, m, offsets);
    AllStretchExact(st, groups);
    SameSourcesExact(st, groups, fes);
  }

  /** Extents with the same sources as sound ones are sound. */
  lemma {:induction false} SoundBySources(st: Storage, extents: seq<Extent>)
    requires AllReached(st, extents) && forall i | 0 <= i < TotalSize(extents) :: !Sources(st, extents)[i].Kept?
    ensures AllSound(st, extents)
    decreases |extents|
  {
    hide Position;
    if extents != [] {
      var e, rest := extents[0], extents[1..];
      TotalSizeFirst(extents);
      forall i | 0 <= i < TotalSize(rest)
        ensures !Sources(st, rest)[i].Kept?
      {
        assert Sources(st, extents)[e.lSize + i] == Sources(st, rest)[i];
      }
      SoundBySources(st, rest);
      assert e.lSize > 0 ==> Sources(st, extents)[0] == SourceOf(st, e, 0);
      assert Reached(st, e) && Sound(st, e);
      assert forall k | 0 < k < |extents| :: extents[k] == rest[k - 1];
    }
  }

  /** With the same sources the grouped reader agrees on buffers of any size: it fills the buffer with what the original
      reader returns, cut off at the end, unless a group begins beyond the end. */
  lemma GroupedIsOriginal(st: Storage, groups: seq<seq<Extent>>, fes: seq<FileExtent>, m: map<nat, Extent>,
                          offsets: seq<nat>, orig: seq<byte>)
    requires Given(st, groups, fes, m, offsets) && AreGroups(groups)
    requires Sources(st, MergedAll(groups)) == Sources(st, Extents(fes))
    ensures var original := OneByOne(st, 0, Extents(fes));
            var r := Fill(st, 0, MergedAll(groups), orig, 0);
            if Overruns(MergedAll(groups), 0, |orig|) then r.outcome == Panic
            else r == Filled(Done(|original|), Overlay(orig, 0, original))
  {
    hide Sound, AreGroups, Flatten, LastByOffset, InOffsetOrder, MergedAll, Sources, FileBytes, TotalSize, Fill, OneByOne,
         Overruns, Overlay, Show, Reached;
    GroupedSound(st, groups, fes, m, offsets);
    AllStretchExact(st, groups);
    var merged, extents := MergedAll(groups), Extents(fes);
    FileBytesShow(st, extents);
    SoundBySources(st, merged);
    FileBytesShow(st, merged);
    assert FileBytes(st, merged) == FileBytes(st, extents) by {
      forall i | 0 <= i < TotalSize(merged)
        ensures FileBytes(st, merged)[i] == FileBytes(st, extents)[i]
      {
        assert FileBytes(st, merged)[i] == Show(Sources(st, merged)[i], st.disk.bytes, 0);
      }
    }
    OneByOneIsFileBytes(st, 0, extents);
    FillIsFileBytes(st, 0, merged, orig, []);
    NothingOver(orig);
    assert [] + FileBytes(st, merged) == FileBytes(st, merged);
  }

  lemma NothingOver(orig: seq<byte>)
    ensures Overlay(orig, 0, []) == orig
  {
  }

  // ---------- Groups inside one chunk ----------

  /** All extents of a group lie in the chunk of the first. */
  ghost predicate InOneChunk(st: Storage, g: seq<Extent>)
    requires g != []
  {
    Mapped(st.chunks, g[0].logicalAddress) &&
    forall k | 0 <= k < |g| :: Covers(st.chunks, KeyOf(st.chunks, g[0].logicalAddress), g[k].logicalAddress)
  }

  /** In a group the addresses run on without a gap. */
  lemma {:induction false} AddressesRunOn(g: seq<Extent>, k: nat)
    requires IsGroup(g) && k < |g|
    ensures g[k].logicalAddress == g[0].logicalAddress + TotalSize(g[..k])
  {
    if k > 0 {
      AddressesRunOn(g, k - 1);
      assert Joins(g[k - 1], g[k]);
      assert g[..k][..k - 1] == g[..k - 1];
    }
  }

  /** A group inside one chunk is one stretch if it is headed by no hole and by no extent used from its middle. */
  lemma OneChunkIsStretch(st: Storage, g: seq<Extent>)
    requires Disjoint(st.chunks) && IsGroup(g) && InOneChunk(st, g)
    requires g[0].logicalAddress != 0 && g[0].offset == 0
    ensures InStretch(st, g)
  {
    hide TotalSize;
    forall k | 0 < k < |g| && g[k].lSize > 0
      ensures Position(st, g[k]) == Position(st, g[0]) + TotalSize(g[..k])
    {
      AddressesRunOn(g, k);
      LaterNoHole(g, k);
      SameChunk(st.chunks, g[0].logicalAddress, TotalSize(g[..k]));
    }
  }

  // ---------- Entries on which the readers differ ----------

  /** Two chunks that follow each other in the address space and not on the disk. */
  function TwoChunks(bytes: seq<byte>): Storage
  {
    Storage(map[16 := Chunk(16, 0), 32 := Chunk(16, 100)], Disk(bytes), 0)
  }

  const LOWER := Extent(16, 0, 16)
  const UPPER := Extent(32, 0, 16)

  lemma TwoPlaces(bytes: seq<byte>)
    ensures var st := TwoChunks(bytes);
            Disjoint(st.chunks) && Position(st, LOWER) == 0 && Position(st, UPPER) == 100 &&
            (|bytes| == 116 ==> Sound(st, LOWER) && Sound(st, UPPER))
  {
    var chunks := TwoChunks(bytes).chunks;
    forall key: nat, a: nat
      ensures Covers(chunks, key, a) <==> (key == 16 && 16 <= a < 32) || (key == 32 && 32 <= a < 48)
    {
    }
    assert 16 in chunks && Covers(chunks, 16, 16) && 32 in chunks && Covers(chunks, 32, 32);
    assert KeyOf(chunks, 16) == 16 && KeyOf(chunks, 32) == 32;
  }

  lemma OneGroup()
    ensures AreGroups([[LOWER, UPPER]]) && Flatten([[LOWER, UPPER]]) == [LOWER, UPPER]
    ensures TotalSize([LOWER, UPPER]) == 32 && TotalSize([LOWER]) == 16
    ensures MergedAll([[LOWER, UPPER]]) == [Extent(16, 0, 32)]
  {
    var g := [LOWER, UPPER];
    assert Joins(g[0], g[1]);
    FlattenSnoc([], g);
    assert [] + [g] == [g];
    OneSize(LOWER);
    OneSize(UPPER);
    assert g == [LOWER] + [UPPER];
    TotalSizeAppend([LOWER], [UPPER]);
  }

  /** A file whose two extents join by address and lie in two chunks: the grouped reader goes on behind the first. */
  lemma CrossesChunks()
    ensures var fes := [FileExtent(0, LOWER), FileExtent(16, UPPER)];
            var groups := [[LOWER, UPPER]];
            var st := TwoChunks(Zeros(116)[100 := 1]);
            Given(st, groups, fes, map[0 := LOWER, 16 := UPPER], [0, 16]) && StrictlyAscending(Offsets(fes)) &&
            Fill(st, 0, MergedAll(groups), Zeros(32), 0).buf == Zeros(32) &&
            OneByOne(st, 0, Extents(fes)) == Zeros(32)[16 := 1]
  {
    hide Position, Fill, OneByOne, TotalSize, FileBytes, Sound, Flatten;
    var fes := [FileExtent(0, LOWER), FileExtent(16, UPPER)];
    var bytes := Zeros(116)[100 := 1];
    var st := TwoChunks(bytes);
    var m, offsets := map[0 := LOWER, 16 := UPPER], [0, 16];
    TwoPlaces(bytes);
    OneGroup();
    assert Extents(fes) == [LOWER, UPPER];
    assert fes[0] == FileExtent(0, m[0]) && fes[1] == FileExtent(16, m[16]);
    assert LastByOffset(m, fes) && InOffsetOrder([LOWER, UPPER], m, offsets);
    ReadOneByOne(st);
    ReadGrouped(st);
  }

  lemma ReadOneByOne(st: Storage)
    requires st == TwoChunks(Zeros(116)[100 := 1])
    ensures OneByOne(st, 0, [LOWER, UPPER]) == Zeros(32)[16 := 1]
  {
    hide Position, OneByOne, TotalSize, FileBytes, Sound, Resolve;
    TwoPlaces(st.disk.bytes);
    OneByOneIsFileBytes(st, 0, [LOWER, UPPER]);
    assert [LOWER, UPPER] == [LOWER] + [UPPER];
    OneExtent(st, LOWER);
    OneExtent(st, UPPER);
    FileBytesAppend(st, [LOWER], [UPPER]);
    assert ExtentBytes(st, LOWER) == Zeros(16) && ExtentBytes(st, UPPER) == [1] + Zeros(15);
    assert Zeros(16) + ([1] + Zeros(15)) == Zeros(32)[16 := 1];
  }

  lemma ReadGrouped(st: Storage)
    requires st == TwoChunks(Zeros(116)[100 := 1])
    ensures Fill(st, 0, [Extent(16, 0, 32)], Zeros(32), 0).buf == Zeros(32)
  {
    hide Position, Fill, TotalSize, FileBytes, Sound, Resolve, ExtentBytes;
    var merged := Extent(16, 0, 32);
    MergedReads(st);
    OneExtent(st, merged);
    assert !Overruns([merged], 0, 32) by {
      assert [merged][1..] == [];
    }
    FillIsFileBytes(st, 0, [merged], Zeros(32), []);
    NothingOver(Zeros(32));
    assert [] + Zeros(32) == Zeros(32);
  }

  lemma MergedReads(st: Storage)
    requires st == TwoChunks(Zeros(116)[100 := 1])
    ensures var merged := Extent(16, 0, 32); Sound(st, merged) && ExtentBytes(st, merged) == Zeros(32)
  {
    hide Resolve;
    TwoPlaces(st.disk.bytes);
    assert Position(st, Extent(16, 0, 32)) == Position(st, LOWER);
  }

  /** Two items at one offset: the grouped reader knows only the last and counts 16 of 32 bytes. */
  lemma ItemsAtOneOffset()
    ensures var fes := [FileExtent(0, LOWER), FileExtent(0, UPPER)];
            var st := TwoChunks(Zeros(116));
            Given(st, [[UPPER]], fes, map[0 := UPPER], [0]) &&
            Fill(st, 0, MergedAll([[UPPER]]), Zeros(32), 0).outcome == Done(16) && |OneByOne(st, 0, Extents(fes))| == 32
  {
    hide Position, Fill, OneByOne, TotalSize, FileBytes, Sound, Flatten;
    var fes := [FileExtent(0, LOWER), FileExtent(0, UPPER)];
    var bytes := Zeros(116);
    var st := TwoChunks(bytes);
    TwoPlaces(bytes);
    assert AreGroups([[UPPER]]) && Flatten([[UPPER]]) == [UPPER] by {
      FlattenSnoc([], [UPPER]);
      EmptyGroups(st);
      assert [] + [[UPPER]] == [[UPPER]];
    }
    var m := map[0 := UPPER];
    assert fes[1] == FileExtent(0, m[0]);
    assert LastByOffset(m, fes) && InOffsetOrder([UPPER], m, [0]);
    OneGroup();
    assert Extents(fes) == [LOWER, UPPER];
    OneByOneIsFileBytes(st, 0, [LOWER, UPPER]);
    OneSize(UPPER);
    assert MergedAll([[UPPER]]) == [UPPER];
    OneExtent(st, UPPER);
    SoundShows(st, UPPER);
    FillShows(st, 0, [UPPER], Zeros(32), 0);
  }
}
