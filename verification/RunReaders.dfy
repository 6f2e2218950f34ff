/**
  Readers of a run list: the coalescing GetContent (FS/NTFS/MFT/attributes/attributes.go), the run-by-run
  LocateData (FS/adapter.go) and CollectMFTArea (disk/volume/ntfs.go), all against RunContents.
*/
module RunReaders {
  import opened Bytes
  import opened Readers
  import opened RunLists
  import opened RunContents
  import opened Wrappers

  // ---------- The coalescing reader ----------

  /** The runs GetContent accepts into a buffer of size bytes. */
  ghost predicate Acceptable(vol: Volume, runs: seq<Run>, size: nat)
  {
    vol.Readable(0, runs) && vol.BytesIn(TotalLength(runs)) <= size && NonNegative(runs, |runs|)
  }

  /** The pending runs, taken together, are the clusters from start on. */
  ghost predicate Coalesced(vol: Volume, base: int, pend: seq<Run>, start: int)
  {
    var n := TotalLength(pend);
    (vol.Readable(base, pend) <==> vol.HasClusters(start, n)) &&
    (vol.Readable(base, pend) ==> vol.Meaning(base, pend) == vol.Clusters(start, n))
  }

  /** The runs in done are in the buffer; the runs in pend are the unwritten segment that follows. */
  ghost predicate Progress(vol: Volume, done: seq<Run>, pend: seq<Run>, orig: seq<byte>, buf: seq<byte>,
                           dataRead: nat, pendingOffset: int, pendingSize: nat)
  {
    vol.Readable(0, done) && dataRead == vol.BytesIn(TotalLength(done)) && dataRead <= |orig| &&
    buf == vol.Meaning(0, done) + orig[dataRead..] &&
    pendingSize == vol.BytesIn(TotalLength(pend)) &&
    (pendingSize > 0 ==> Coalesced(vol, Shift(done), pend, pendingOffset))
  }

  lemma ProgressFlushed(vol: Volume, done: seq<Run>, pend: seq<Run>, orig: seq<byte>, buf: seq<byte>,
                        dataRead: nat, pendingOffset: int, pendingSize: nat)
    requires vol.clusterSizeB > 0
    requires Progress(vol, done, pend, orig, buf, dataRead, pendingOffset, pendingSize)
    requires vol.HasClusters(pendingOffset, TotalLength(pend)) && dataRead + pendingSize <= |orig|
    ensures |buf| == |orig|
    ensures Progress(vol, done + pend, [], orig,
                     Overlay(buf, dataRead, vol.Clusters(pendingOffset, TotalLength(pend))),
                     dataRead + pendingSize, pendingOffset, 0)
  {
    hide vol.BytesIn, vol.Clusters, vol.HasClusters, vol.Readable, vol.Meaning, Overlay, Shift, TotalLength;
    var n := TotalLength(pend);
    var fetched := vol.Clusters(pendingOffset, n);
    vol.WholeClusters(n);
    vol.MeaningLength(0, done);
    if n == 0 {
      vol.NoneToRead(pendingOffset);
      vol.NoClusters(Shift(done), pend);
    }
    vol.MeaningAppend(0, done, pend);
    TotalLengthAppend(done, pend);
    vol.BytesInSum(TotalLength(done), n);
    NothingPending(vol);
    OverlayNext(vol.Meaning(0, done), fetched, orig);
    assert vol.Meaning(0, done + pend) == vol.Meaning(0, done) + fetched;
  }

  lemma NothingPending(vol: Volume)
    ensures vol.BytesIn(TotalLength([])) == 0
  {
  }

  /** A sparse run with nothing pending is a stretch of zeros. */
  lemma ProgressSparse(vol: Volume, done: seq<Run>, run: Run, orig: seq<byte>, buf: seq<byte>,
                       dataRead: nat, pendingOffset: int)
    requires Progress(vol, done, [], orig, buf, dataRead, pendingOffset, 0)
    requires run.offset == 0 && dataRead + vol.BytesIn(run.length) <= |orig|
    ensures |buf| == |orig|
    ensures Progress(vol, done + [run], [], orig, Overlay(buf, dataRead, Zeros(vol.BytesIn(run.length))),
                     dataRead + vol.BytesIn(run.length), pendingOffset, 0)
  {
    hide vol.BytesIn, Overlay, Shift, TotalLength, Zeros, vol.Readable, vol.Meaning;
    vol.MeaningLength(0, done);
    vol.OneRun(Shift(done), run);
    vol.MeaningAppend(0, done, [run]);
    TotalLengthAppend(done, [run]);
    OneRunLength(run);
    vol.BytesInSum(TotalLength(done), run.length);
    NothingPending(vol);
    OverlayNext(vol.Meaning(0, done), Zeros(vol.BytesIn(run.length)), orig);
  }

  /** A run that is not sparse becomes the pending segment. */
  lemma ProgressStart(vol: Volume, done: seq<Run>, run: Run, orig: seq<byte>, buf: seq<byte>,
                      dataRead: nat, pendingOffset: int)
    requires Progress(vol, done, [], orig, buf, dataRead, pendingOffset, 0)
    requires run.offset != 0
    ensures Progress(vol, done, [run], orig, buf, dataRead, Shift(done) + run.offset, vol.BytesIn(run.length))
  {
    hide vol.BytesIn, Overlay, Shift, TotalLength, vol.Readable, vol.Meaning, vol.HasClusters, vol.Clusters;
    vol.OneRun(Shift(done), run);
    OneRunLength(run);
  }

  /** A run that starts where the pending segment ends extends it. */
  lemma ProgressExtend(vol: Volume, done: seq<Run>, pend: seq<Run>, run: Run, orig: seq<byte>, buf: seq<byte>,
                       dataRead: nat, pendingOffset: int, pendingSize: nat)
    requires vol.clusterSizeB > 0
    requires Progress(vol, done, pend, orig, buf, dataRead, pendingOffset, pendingSize)
    requires pendingSize > 0 && run.offset != 0
    requires Shift(done + pend) + run.offset == pendingOffset + pendingSize / vol.clusterSizeB
    ensures Progress(vol, done, pend + [run], orig, buf, dataRead, pendingOffset,
                     pendingSize + vol.BytesIn(run.length))
  {
    hide vol.BytesIn, Overlay, Shift, TotalLength, vol.Readable, vol.Meaning, vol.HasClusters, vol.Clusters;
    var n := TotalLength(pend);
    vol.WholeClusters(n);
    ShiftAppend(done, pend);
    vol.MeaningAppend(Shift(done), pend, [run]);
    vol.OneRun(Shift(done) + Shift(pend), run);
    OneRunLength(run);
    TotalLengthAppend(pend, [run]);
    vol.BytesInSum(n, run.length);
    vol.JoinClusters(pendingOffset, n, run.length);
  }

  lemma OneRunLength(run: Run)
    ensures TotalLength([run]) == run.length
  {
  }

  /** The size of a list is the sum of the sizes of its parts. */
  lemma SizeOfParts(vol: Volume, done: seq<Run>, pend: seq<Run>, rest: seq<Run>)
    ensures vol.BytesIn(TotalLength(done + pend + rest)) ==
            vol.BytesIn(TotalLength(done)) + vol.BytesIn(TotalLength(pend)) + vol.BytesIn(TotalLength(rest))
  {
    hide vol.BytesIn, TotalLength;
    TotalLengthAppend(done + pend, rest);
    TotalLengthAppend(done, pend);
    vol.BytesInSum(TotalLength(done) + TotalLength(pend), TotalLength(rest));
    vol.BytesInSum(TotalLength(done), TotalLength(pend));
  }

  /** A list can be read only if each of its parts can. */
  lemma ReadableParts(vol: Volume, done: seq<Run>, pend: seq<Run>, rest: seq<Run>)
    ensures vol.Readable(0, done + pend + rest) ==> vol.Readable(Shift(done), pend)
  {
    hide Shift, vol.Readable, vol.Meaning;
    vol.MeaningAppend(0, done + pend, rest);
    vol.MeaningAppend(0, done, pend);
    assert 0 + Shift(done) == Shift(done);
  }

  /** What writing the pending segment, if there is one, to its place in the buffer leaves. A buffer is a slice up to its
      capacity, which is how far a slice expression reaches; len is how far its elements can be indexed. */
  function Flushed(vol: Volume, buf: seq<byte>, dataRead: nat, pendingOffset: int, pendingSize: nat): (f: Filled<nat>)
    ensures |f.buf| == |buf|
  {
    var at := vol.ByteOf(pendingOffset);
    if pendingSize == 0 then Filled(Done(dataRead), buf)
    else if pendingOffset < 0 || !vol.disk.InRange(at, pendingSize) then Filled(Error, buf)
    else if dataRead + pendingSize > |buf| then Filled(Panic, buf)
    else Filled(Done(dataRead + pendingSize), Overlay(buf, dataRead, vol.disk.bytes[at..at + pendingSize]))
  }

  /** Reads the pending segment, if there is one, to its place in the buffer. */
  method FlushPending(vol: Volume, dataToRead: array<byte>, dataRead: nat, pendingOffset: int, pendingSize: nat)
    returns (r: Outcome<nat>)
    modifies dataToRead
    ensures Filled(r, dataToRead[..]) == Flushed(vol, old(dataToRead[..]), dataRead, pendingOffset, pendingSize)
  {
    if pendingSize == 0 {
      return Done(dataRead);
    }
    if pendingOffset < 0 {
      return Error;
    }
    var physicalOffset := vol.ByteOf(pendingOffset);
    if physicalOffset < 0 {
      return Error;
    }
    var readData := vol.disk.ReadFile(physicalOffset, pendingSize);
    if readData.Failure? {
      return Error;
    }
    if dataRead + pendingSize > dataToRead.Length {
      return Panic;
    }
    Copy(dataToRead, dataRead, readData.value);
    return Done(dataRead + pendingSize);
  }

  /** In terms of the runs, flushing succeeds exactly on a readable segment, which it completes. */
  lemma FlushedProgress(vol: Volume, done: seq<Run>, pend: seq<Run>, orig: seq<byte>, buf: seq<byte>,
                        dataRead: nat, pendingOffset: int, pendingSize: nat)
    requires vol.clusterSizeB > 0
    requires Progress(vol, done, pend, orig, buf, dataRead, pendingOffset, pendingSize)
    ensures var f := Flushed(vol, buf, dataRead, pendingOffset, pendingSize);
            match f.outcome
            case Done(read) => Progress(vol, done + pend, [], orig, f.buf, read, pendingOffset, 0)
            case Error => !vol.Readable(Shift(done), pend)
            case Panic => vol.BytesIn(TotalLength(done)) + vol.BytesIn(TotalLength(pend)) > |orig|
  {
    hide vol.BytesIn, Shift, TotalLength, vol.Readable, vol.Meaning, Overlay;
    vol.MeaningLength(0, done);
    vol.WholeClusters(TotalLength(pend));
    if pendingSize == 0 {
      ProgressIdle(vol, done, pend, orig, buf, dataRead, pendingOffset);
    } else if Flushed(vol, buf, dataRead, pendingOffset, pendingSize).outcome.Done? {
      ProgressFlushed(vol, done, pend, orig, buf, dataRead, pendingOffset, pendingSize);
    }
  }

  lemma OverlayNothing(buf: seq<byte>, at: nat)
    requires at <= |buf|
    ensures Overlay(buf, at, []) == buf
  {
  }

  lemma ProgressIdle(vol: Volume, done: seq<Run>, pend: seq<Run>, orig: seq<byte>, buf: seq<byte>,
                     dataRead: nat, pendingOffset: int)
    requires vol.clusterSizeB > 0
    requires Progress(vol, done, pend, orig, buf, dataRead, pendingOffset, 0)
    ensures Progress(vol, done + pend, [], orig, buf, dataRead, pendingOffset, 0)
  {
    hide vol.BytesIn, Shift, TotalLength, vol.Readable, vol.Meaning, Overlay;
    vol.WholeClusters(TotalLength(pend));
    vol.MeaningLength(0, done);
    ProgressFlushed(vol, done, pend, orig, buf, dataRead, pendingOffset, 0);
    OverlayNothing(buf, dataRead);
  }

  /** A run that does not fit behind what is written makes the list too long. */
  lemma RunTooLong(vol: Volume, done: seq<Run>, pend: seq<Run>, run: Run, rest: seq<Run>)
    ensures var whole := vol.BytesIn(TotalLength(done + pend + ([run] + rest)));
            vol.BytesIn(TotalLength(done)) + vol.BytesIn(run.length) <= whole &&
            vol.BytesIn(TotalLength(done + pend)) + vol.BytesIn(run.length) <= whole &&
            vol.BytesIn(TotalLength(done)) + vol.BytesIn(TotalLength(pend)) <= whole
  {
    hide vol.BytesIn, TotalLength;
    SizeOfParts(vol, done, pend, [run] + rest);
    TotalLengthAppend(done, pend);
    vol.BytesInSum(TotalLength(done), TotalLength(pend));
    TotalLengthAppend([run], rest);
    OneRunLength(run);
    vol.BytesInSum(run.length, TotalLength(rest));
  }

  lemma ShiftOfNext(runs: seq<Run>, i: nat)
    requires i < |runs|
    ensures Shift(runs[..i + 1]) == Shift(runs[..i]) + runs[i].offset
  {
    assert runs[..i + 1] == runs[..i] + [runs[i]];
    ShiftAppend(runs[..i], [runs[i]]);
    assert Shift([runs[i]]) == runs[i].offset;
  }

  lemma FirstMayBeNegative(runs: seq<Run>)
    requires runs != []
    ensures NonNegative(runs, 1)
  {
  }

  lemma NextNonNegative(runs: seq<Run>, i: nat)
    requires 0 < i < |runs|
    ensures NonNegative(runs, i + 1) <==> NonNegative(runs, i) && Shift(runs[..i + 1]) >= 0
    ensures Shift(runs[..i + 1]) < 0 ==> !NonNegative(runs, |runs|)
  {
  }

  /** The successor of node i of a list, and the run it holds. */
  method NextNode(node: RunList, ghost i: nat, ghost nodes: seq<RunList>, ghost runs: seq<Run>)
    returns (next: RunList?)
    requires IsList(nodes) && Holds(nodes, runs) && i < |nodes| && node == nodes[i]
    ensures next == null <==> i + 1 == |nodes|
    ensures next != null ==> next == nodes[i + 1] && runs[i + 1] == Run(next.Offset, next.Length)
  {
    assert i + 1 < |nodes| ==> nodes[i].Next == nodes[i + 1];
    next := node.Next;
  }

  lemma HeadNode(nodes: seq<RunList>, runs: seq<Run>)
    requires IsList(nodes) && Holds(nodes, runs)
    ensures 0 < |nodes| == |runs| && runs[0] == Run(nodes[0].Offset, nodes[0].Length)
  {
  }

  /** One turn of GetContent's loop: one run goes into the buffer or into the pending segment. */
  function Taken(vol: Volume, buf: seq<byte>, len: nat, run: Run, currentOffset: int, dataRead: nat, pendingOffset: int,
                 pendingSize: nat): (t: Filled<(nat, int, nat)>)
    requires vol.clusterSizeB > 0 && len <= |buf|
    ensures |t.buf| == |buf|
  {
    var runSize := vol.BytesIn(run.length);
    if dataRead + runSize > len then Filled(Error, buf)
    else if run.offset != 0 && pendingSize == 0 then Filled(Done((dataRead, currentOffset, runSize)), buf)
    else if run.offset != 0 && 0 <= currentOffset == pendingOffset + pendingSize / vol.clusterSizeB then
      Filled(Done((dataRead, pendingOffset, pendingSize + runSize)), buf)
    else
      var f := Flushed(vol, buf, dataRead, pendingOffset, pendingSize);
      match f.outcome
      case Error => Filled(Error, f.buf)
      case Panic => Filled(Panic, f.buf)
      case Done(read) =>
        if run.offset != 0 then Filled(Done((read, currentOffset, runSize)), f.buf)
        else
          var zeroed := Zeroed(f.buf, len, read, runSize);
          if runSize > 0 && read + runSize > len then Filled(Panic, zeroed)
          else Filled(Done((read + runSize, pendingOffset, 0)), zeroed)
  }

  /** A buffer of which n elements from a place on are zeroed one by one, as far as they can be indexed. */
  function Zeroed(buf: seq<byte>, len: nat, at: nat, n: nat): (r: seq<byte>)
    requires len <= |buf|
    ensures |r| == |buf|
  {
    if at < len then Overlay(buf, at, Zeros(Min(n, len - at))) else buf
  }

  /** Zeroes elements one by one; an index beyond the length faults. */
  method ZeroElements(dataToRead: array<byte>, len: nat, at: nat, n: nat) returns (ok: bool)
    requires len <= dataToRead.Length
    modifies dataToRead
    ensures ok <==> n == 0 || at + n <= len
    ensures dataToRead[..] == Zeroed(old(dataToRead[..]), len, at, n)
  {
    for i := 0 to n
      invariant i == 0 || at + i <= len
      invariant forall k | 0 <= k < dataToRead.Length ::
                  dataToRead[k] == if at <= k < at + i then 0 else old(dataToRead[k])
    {
      if at + i >= len {
        return false;
      }
      dataToRead[at + i] := 0;
    }
    return true;
  }

  method TakeRun(vol: Volume, dataToRead: array<byte>, len: nat, run: Run, currentOffset: int, dataRead: nat,
                 pendingOffset: int, pendingSize: nat) returns (r: Outcome<(nat, int, nat)>)
    requires vol.clusterSizeB > 0 && len <= dataToRead.Length
    modifies dataToRead
    ensures Filled(r, dataToRead[..]) ==
            Taken(vol, old(dataToRead[..]), len, run, currentOffset, dataRead, pendingOffset, pendingSize)
  {
    hide vol.BytesIn, Overlay, Zeros, Flushed;
    var runSize := vol.BytesIn(run.length);
    if dataRead + runSize > len {
      return Error;
    }
    if run.offset == 0 {
      var flushed := FlushPending(vol, dataToRead, dataRead, pendingOffset, pendingSize);
      if !flushed.Done? {
        return if flushed.Error? then Error else Panic;
      }
      var read := flushed.value;
      var zeroed := ZeroElements(dataToRead, len, read, runSize);
      if !zeroed {
        return Panic;
      }
      return Done((read + runSize, pendingOffset, 0));
    }
    if pendingSize == 0 {
      return Done((dataRead, currentOffset, runSize));
    }
    var expectedNext := pendingOffset + pendingSize / vol.clusterSizeB;
    if currentOffset == expectedNext && currentOffset >= 0 {
      return Done((dataRead, pendingOffset, pendingSize + runSize));
    }
    var flushed := FlushPending(vol, dataToRead, dataRead, pendingOffset, pendingSize);
    if !flushed.Done? {
      return if flushed.Error? then Error else Panic;
    }
    return Done((flushed.value, currentOffset, runSize));
  }

  /** In terms of the runs: a turn keeps what is pending the unwritten segment behind what is written. */
  lemma TakenProgress(vol: Volume, len: nat, done: seq<Run>, pend: seq<Run>, run: Run, orig: seq<byte>, buf: seq<byte>,
                      currentOffset: int, dataRead: nat, pendingOffset: int, pendingSize: nat)
    returns (done': seq<Run>, pend': seq<Run>)
    requires vol.clusterSizeB > 0 && len <= |orig| == |buf|
    requires Progress(vol, done, pend, orig, buf, dataRead, pendingOffset, pendingSize)
    requires currentOffset == Shift(done + pend) + run.offset
    ensures var t := Taken(vol, buf, len, run, currentOffset, dataRead, pendingOffset, pendingSize);
            |t.buf| == |buf| &&
            match t.outcome
            case Done((read, off, size)) =>
              done' + pend' == done + pend + [run] && Progress(vol, done', pend', orig, t.buf, read, off, size)
            case Error =>
              !vol.Readable(Shift(done), pend) || vol.BytesIn(TotalLength(done)) + vol.BytesIn(run.length) > len
            case Panic =>
              vol.BytesIn(TotalLength(done)) + vol.BytesIn(TotalLength(pend)) > len ||
              vol.BytesIn(TotalLength(done + pend)) + vol.BytesIn(run.length) > len
  {
    hide vol.BytesIn, Shift, TotalLength, vol.Readable, vol.Meaning, Overlay, Zeros, Coalesced, Flushed;
    done', pend' := done + pend, [run];
    vol.MeaningLength(0, done);
    var f := Flushed(vol, buf, dataRead, pendingOffset, pendingSize);
    if dataRead + vol.BytesIn(run.length) <= len {
      FlushedProgress(vol, done, pend, orig, buf, dataRead, pendingOffset, pendingSize);
      if run.offset == 0 {
        done', pend' := done + pend + [run], [];
        ProgressSize(vol, done, pend, orig, buf, dataRead, pendingOffset, pendingSize, f);
        var n := vol.BytesIn(run.length);
        if f.outcome.Done? && (n == 0 || f.outcome.value + n <= len) {
          ProgressSparse(vol, done + pend, run, orig, f.buf, f.outcome.value, pendingOffset);
          ZeroedFits(f.buf, len, f.outcome.value, n);
        }
      } else if pendingSize == 0 {
        ProgressIdle(vol, done, pend, orig, buf, dataRead, pendingOffset);
        ProgressStart(vol, done + pend, run, orig, buf, dataRead, pendingOffset);
      } else if 0 <= currentOffset == pendingOffset + pendingSize / vol.clusterSizeB {
        done', pend' := done, pend + [run];
        ProgressExtend(vol, done, pend, run, orig, buf, dataRead, pendingOffset, pendingSize);
        assert done + pend + [run] == done + (pend + [run]);
      } else if f.outcome.Done? {
        ProgressStart(vol, done + pend, run, orig, f.buf, f.outcome.value, pendingOffset);
      }
    }
  }

  lemma ZeroedFits(buf: seq<byte>, len: nat, at: nat, n: nat)
    requires len <= |buf| && at <= |buf| && (n == 0 || at + n <= len)
    ensures Zeroed(buf, len, at, n) == Overlay(buf, at, Zeros(n))
  {
  }

  lemma ProgressSize(vol: Volume, done: seq<Run>, pend: seq<Run>, orig: seq<byte>, buf: seq<byte>, dataRead: nat,
                     pendingOffset: int, pendingSize: nat, f: Filled<nat>)
    requires Progress(vol, done, pend, orig, buf, dataRead, pendingOffset, pendingSize)
    requires f == Flushed(vol, buf, dataRead, pendingOffset, pendingSize)
    ensures |buf| == |f.buf| == |orig|
    ensures f.outcome.Done? ==> f.outcome.value == vol.BytesIn(TotalLength(done + pend))
  {
    hide vol.BytesIn, vol.Readable, vol.Meaning, TotalLength;
    vol.MeaningLength(0, done);
    TotalLengthAppend(done, pend);
    vol.BytesInSum(TotalLength(done), TotalLength(pend));
  }

  /** GetContent from a run on, whose cluster is currentOffset; every later run must start at a real cluster. */
  function ContentFrom(vol: Volume, buf: seq<byte>, len: nat, runs: seq<Run>, currentOffset: int, dataRead: nat,
                       pendingOffset: int, pendingSize: nat): (r: Filled<()>)
    requires vol.clusterSizeB > 0 && runs != [] && len <= |buf|
    ensures |r.buf| == |buf|
    decreases |runs|
  {
    var t := Taken(vol, buf, len, runs[0], currentOffset, dataRead, pendingOffset, pendingSize);
    match t.outcome
    case Error => Filled(Error, t.buf)
    case Panic => Filled(Panic, t.buf)
    case Done((read, off, size)) =>
      if |runs| == 1 then
        var f := Flushed(vol, t.buf, read, off, size);
        Filled(if f.outcome.Done? then Done(()) else if f.outcome.Error? then Error else Panic, f.buf)
      else if currentOffset + runs[1].offset < 0 then Filled(Error, t.buf)
      else ContentFrom(vol, t.buf, len, runs[1..], currentOffset + runs[1].offset, read, off, size)
  }

  /** What GetContent makes of any run list and any slice. */
  function ContentIn(vol: Volume, buf: seq<byte>, len: nat, runs: seq<Run>): Filled<()>
    requires vol.clusterSizeB > 0 && len <= |buf|
  {
    if runs == [] then Filled(Error, buf) else ContentFrom(vol, buf, len, runs, runs[0].offset, 0, 0, 0)
  }

  /** What it makes of a slice without spare capacity. */
  function Content(vol: Volume, buf: seq<byte>, runs: seq<Run>): Filled<()>
    requires vol.clusterSizeB > 0
  {
    ContentIn(vol, buf, |buf|, runs)
  }

  /** Reads a run list into a buffer, adjacent runs in one read. */
  method GetContent(vol: Volume, head: RunList?, dataToRead: array<byte>, len: nat, ghost nodes: seq<RunList>,
                    ghost runs: seq<Run>) returns (r: Outcome<()>)
    requires vol.clusterSizeB > 0 && len <= dataToRead.Length
    requires if head == null then runs == [] else IsList(nodes) && nodes[0] == head && Holds(nodes, runs)
    modifies dataToRead
    ensures Filled(r, dataToRead[..]) == ContentIn(vol, old(dataToRead[..]), len, runs)
  {
    hide IsList, Holds, Taken, Flushed;
    if head == null {
      return Error;
    }
    HeadNode(nodes, runs);
    ghost var goal := ContentIn(vol, dataToRead[..], len, runs);
    ghost var i := 0;
    ghost var rest: seq<Run> := runs;
    var runlist: RunList := head;
    var dataRead: nat, currentOffset, pendingOffset, pendingSize: nat := 0, head.Offset, 0, 0;
    while true
      invariant IsList(nodes) && Holds(nodes, runs)
      invariant 0 <= i < |nodes| == |runs| && runlist == nodes[i] && runs[i] == Run(runlist.Offset, runlist.Length)
      invariant rest == runs[i..]
      invariant goal == ContentFrom(vol, dataToRead[..], len, rest, currentOffset, dataRead, pendingOffset, pendingSize)
      decreases |nodes| - i
    {
      assert rest[0] == Run(runlist.Offset, runlist.Length) && rest[1..] == runs[i + 1..];
      var taken := TakeRun(vol, dataToRead, len, Run(runlist.Offset, runlist.Length), currentOffset,
                           dataRead, pendingOffset, pendingSize);
      if !taken.Done? {
        return if taken.Error? then Error else Panic;
      }
      var (read, off, size) := taken.value;
      dataRead, pendingOffset, pendingSize := read, off, size;
      var next := NextNode(runlist, i, nodes, runs);
      if next == null {
        break;
      }
      runlist := next;
      currentOffset := currentOffset + runlist.Offset;
      if currentOffset < 0 {
        return Error;
      }
      i, rest := i + 1, rest[1..];
    }
    var flushed := FlushPending(vol, dataToRead, dataRead, pendingOffset, pendingSize);
    return if flushed.Done? then Done(()) else if flushed.Error? then Error else Panic;
  }

  /** What a state that keeps its promise leads to. */
  lemma {:induction false} ContentFromMeaning(vol: Volume, len: nat, runs: seq<Run>, i: nat, done: seq<Run>, pend: seq<Run>,
                                              orig: seq<byte>, buf: seq<byte>, currentOffset: int, dataRead: nat,
                                              pendingOffset: int, pendingSize: nat)
    requires vol.clusterSizeB > 0 && len <= |orig| == |buf| && i < |runs| && done + pend == runs[..i]
    requires currentOffset == Shift(runs[..i + 1]) && NonNegative(runs, i + 1)
    requires Progress(vol, done, pend, orig, buf, dataRead, pendingOffset, pendingSize)
    ensures var c := ContentFrom(vol, buf, len, runs[i..], currentOffset, dataRead, pendingOffset, pendingSize);
            (Acceptable(vol, runs, len) ==> c.outcome.Done?) &&
            (c.outcome.Done? ==> Acceptable(vol, runs, |orig|) && c.buf == Overlay(orig, 0, vol.Meaning(0, runs))) &&
            (c.outcome.Panic? ==> vol.BytesIn(TotalLength(runs)) > len)
    decreases |runs| - i
  {
    hide vol.BytesIn, Shift, TotalLength, vol.Readable, vol.Meaning, Overlay, Coalesced, Progress, NonNegative,
         Taken, Flushed;
    var run, later := runs[i], runs[i + 1..];
    assert runs[i..][0] == run && runs[i..][1..] == later;
    assert runs == done + pend + ([run] + later);
    ShiftOfNext(runs, i);
    var done', pend' := TakenProgress(vol, len, done, pend, run, orig, buf, currentOffset, dataRead, pendingOffset,
                                      pendingSize);
    ReadableParts(vol, done, pend, [run] + later);
    RunTooLong(vol, done, pend, run, later);
    var t := Taken(vol, buf, len, run, currentOffset, dataRead, pendingOffset, pendingSize);
    if t.outcome.Done? {
      var (read, off, size) := t.outcome.value;
      assert runs[..i + 1] == runs[..i] + [run];
      if later == [] {
        assert runs[..i + 1] == runs;
        ContentEnds(vol, runs, done', pend', orig, t.buf, read, off, size);
      } else {
        ShiftOfNext(runs, i + 1);
        NextNonNegative(runs, i + 1);
        if currentOffset + later[0].offset >= 0 {
          ContentFromMeaning(vol, len, runs, i + 1, done', pend', orig, t.buf, currentOffset + later[0].offset, read, off,
                             size);
        }
      }
    }
  }

  lemma ContentEnds(vol: Volume, runs: seq<Run>, done: seq<Run>, pend: seq<Run>, orig: seq<byte>, buf: seq<byte>,
                    dataRead: nat, pendingOffset: int, pendingSize: nat)
    requires vol.clusterSizeB > 0 && done + pend == runs
    requires Progress(vol, done, pend, orig, buf, dataRead, pendingOffset, pendingSize)
    ensures var f := Flushed(vol, buf, dataRead, pendingOffset, pendingSize);
            (f.outcome.Done? <==> vol.Readable(0, runs) && vol.BytesIn(TotalLength(runs)) <= |orig|) &&
            (f.outcome.Done? ==> f.buf == Overlay(orig, 0, vol.Meaning(0, runs))) &&
            (f.outcome.Panic? ==> vol.BytesIn(TotalLength(runs)) > |orig|)
  {
    hide vol.BytesIn, Shift, TotalLength, vol.Readable, vol.Meaning, Overlay, Coalesced, Progress, Flushed;
    assert runs == done + pend + [];
    ReadableParts(vol, done, pend, []);
    SizeOfParts(vol, done, pend, []);
    FlushedProgress(vol, done, pend, orig, buf, dataRead, pendingOffset, pendingSize);
    var f := Flushed(vol, buf, dataRead, pendingOffset, pendingSize);
    if f.outcome.Done? {
      ProgressComplete(vol, runs, orig, f.buf, f.outcome.value, pendingOffset);
    }
  }

  /** GetContent succeeds on acceptable lists, and then the buffer holds what the runs mean; a list it succeeds on is
      acceptable up to the capacity of the slice, one on which it faults is longer than the slice. */
  lemma SliceMeaning(vol: Volume, runs: seq<Run>, orig: seq<byte>, len: nat)
    requires vol.clusterSizeB > 0 && runs != [] && len <= |orig|
    ensures var c := ContentIn(vol, orig, len, runs);
            (Acceptable(vol, runs, len) ==> c.outcome.Done?) &&
            (c.outcome.Done? ==> Acceptable(vol, runs, |orig|) && c.buf == Overlay(orig, 0, vol.Meaning(0, runs))) &&
            (c.outcome.Panic? ==> vol.BytesIn(TotalLength(runs)) > len)
  {
    hide vol.BytesIn, Shift, TotalLength, vol.Readable, vol.Meaning, Overlay, Progress, NonNegative, ContentFrom;
    ProgressNothing(vol, orig);
    FirstMayBeNegative(runs);
    ShiftOfNext(runs, 0);
    ShiftOfNothing();
    assert runs[..0] == [] && runs[0..] == runs;
    ContentFromMeaning(vol, len, runs, 0, [], [], orig, orig, runs[0].offset, 0, 0, 0);
  }

  /** So without spare capacity it succeeds exactly on acceptable lists. */
  lemma ContentMeaning(vol: Volume, runs: seq<Run>, orig: seq<byte>)
    requires vol.clusterSizeB > 0 && runs != []
    ensures var c := Content(vol, orig, runs);
            (c.outcome.Done? <==> Acceptable(vol, runs, |orig|)) &&
            (c.outcome.Done? ==> c.buf == Overlay(orig, 0, vol.Meaning(0, runs))) &&
            (c.outcome.Panic? ==> vol.BytesIn(TotalLength(runs)) > |orig|)
  {
    hide Acceptable, ContentIn, Overlay, vol.Meaning, vol.BytesIn, TotalLength;
    SliceMeaning(vol, runs, orig, |orig|);
  }

  /** Two lists that are longer than the buffer by one cluster: the one run is an error, the two that join are a fault,
      or are read if the buffer has the capacity. */
  lemma OverlongLists(disk: Disk, orig: byte)
    requires disk.Size() >= 3
    ensures Content(Volume(disk, 0, 1), [orig], [Run(1, 2)]) == Filled(Error, [orig])
    ensures Content(Volume(disk, 0, 1), [orig], [Run(1, 1), Run(1, 1)]) == Filled(Panic, [orig])
    ensures ContentIn(Volume(disk, 0, 1), [orig, orig], 1, [Run(1, 1), Run(1, 1)]) == Filled(Done(()), disk.bytes[1..3])
  {
    hide Overlay, Zeroed;
    OverlayAtStart(disk.bytes[1..3], [orig, orig]);
    assert [orig, orig][2..] == [] && disk.bytes[1..3] + [] == disk.bytes[1..3];
    var vol := Volume(disk, 0, 1);
    var run := Run(1, 1);
    assert [run, run][1..] == [run];
    var pending := ContentFrom(vol, [orig], 1, [run], 2, 0, 1, 1);
    assert Taken(vol, [orig], 1, run, 2, 0, 1, 1) == Filled(Done((0, 1, 2)), [orig]);
    assert pending == Filled(Panic, [orig]);
    assert Content(vol, [orig], [run, run]) == pending;
    assert Taken(vol, [orig, orig], 1, run, 2, 0, 1, 1) == Filled(Done((0, 1, 2)), [orig, orig]);
    var roomy := ContentFrom(vol, [orig, orig], 1, [run], 2, 0, 1, 1);
    assert ContentIn(vol, [orig, orig], 1, [run, run]) == roomy;
  }

  /** No runs are an error, and so is a run before the first cluster if it is to be read or is not the first, though the
      disk may have bytes there. */
  lemma NegativeRuns(vol: Volume, orig: byte)
    requires vol == Volume(Disk([5, 6, 7, 8]), 2, 1)
    ensures Content(vol, [orig], []) == Filled(Error, [orig])
    ensures Content(vol, [orig], [Run(-1, 1)]) == Filled(Error, [orig])
    ensures Content(vol, [orig], [Run(1, 0), Run(-2, 0)]) == Filled(Error, [orig])
    ensures Content(vol, [orig], [Run(-2, 0), Run(3, 1)]) == Filled(Done(()), [8])
  {
    hide Overlay;
    assert [Run(1, 0), Run(-2, 0)][1..] == [Run(-2, 0)];
    assert [Run(-2, 0), Run(3, 1)][1..] == [Run(3, 1)];
    OverlayAtStart([8], [orig]);
    assert vol.disk.bytes[3..4] == [8] == [8] + [orig][1..];
    assert ContentFrom(vol, [orig], 1, [Run(3, 1)], 1, 0, -2, 0) == Filled(Done(()), [8]);
  }

  /** An error leaves what was written before it. */
  lemma ErrorKeepsWritten(vol: Volume, a: byte, b: byte)
    requires vol == Volume(Disk([5, 6, 7, 8]), 2, 1)
    ensures Content(vol, [a, b], [Run(1, 1), Run(9, 1)]) == Filled(Error, [8, b])
  {
    hide Overlay;
    assert [Run(1, 1), Run(9, 1)][1..] == [Run(9, 1)];
    OverlayAtStart([8], [a, b]);
    assert vol.disk.bytes[3..4] == [8] && [8, b] == [8] + [a, b][1..];
    assert ContentFrom(vol, [a, b], 2, [Run(9, 1)], 10, 0, 1, 1) == Filled(Error, [8, b]);
  }

  lemma OverlayAtStart(src: seq<byte>, orig: seq<byte>)
    requires |src| <= |orig|
    ensures Overlay(orig, 0, src) == src + orig[|src|..]
  {
  }

  lemma ProgressComplete(vol: Volume, runs: seq<Run>, orig: seq<byte>, buf: seq<byte>, dataRead: nat,
                         pendingOffset: int)
    requires Progress(vol, runs, [], orig, buf, dataRead, pendingOffset, 0)
    ensures vol.Readable(0, runs) && vol.BytesIn(TotalLength(runs)) <= |orig| == |buf|
    ensures buf == Overlay(orig, 0, vol.Meaning(0, runs))
  {
    vol.MeaningLength(0, runs);
    OverlayAtStart(vol.Meaning(0, runs), orig);
  }

  lemma ProgressNothing(vol: Volume, orig: seq<byte>)
    ensures Progress(vol, [], [], orig, orig, 0, 0, 0)
  {
    NothingPending(vol);
    assert vol.Meaning(0, []) + orig[0..] == orig;
  }

  lemma ShiftOfNothing()
    ensures Shift([]) == 0
  {
  }

  // ---------- The run-by-run readers ----------

  /** No run, not even one without clusters, lies beyond the end of the disk. */
  predicate Placed(vol: Volume, runs: seq<Run>)
  {
    forall i | 0 < i <= |runs| :: vol.ByteOf(Shift(runs[..i])) <= vol.disk.Size()
  }

  /** The bytes LocateData counts as read into a buffer of size bytes when it starts at count: a run read
      from disk is cut off at the end of the buffer, a sparse run is not, and any run that still has
      clusters when the count is beyond the end makes the slice fault. */
  function ReadCount(vol: Volume, size: nat, count: nat, runs: seq<Run>): Outcome<nat>
    decreases |runs|
  {
    if runs == [] then Done(count)
    else if runs[0].length == 0 then ReadCount(vol, size, count, runs[1..])
    else if count > size then Panic
    else
      var end := count + vol.BytesIn(runs[0].length);
      ReadCount(vol, size, if runs[0].offset == 0 then end else Min(end, size), runs[1..])
  }

  /** A buffer as long as the list is filled without a fault, and everything is counted. */
  lemma {:induction false} ReadCountFits(vol: Volume, size: nat, count: nat, runs: seq<Run>)
    requires count + vol.BytesIn(TotalLength(runs)) <= size
    ensures ReadCount(vol, size, count, runs) == Done(count + vol.BytesIn(TotalLength(runs)))
    decreases |runs|
  {
    if runs == [] {
      NothingPending(vol);
    } else {
      vol.BytesInSum(runs[0].length, TotalLength(runs[1..]));
      ReadCountFits(vol, size, count + vol.BytesIn(runs[0].length), runs[1..]);
    }
  }

  /** LocateData's state after the runs in done: the buffer holds their bytes as far as it reaches. */
  ghost predicate Located(vol: Volume, done: seq<Run>, rest: seq<Run>, orig: seq<byte>, buf: seq<byte>, count: nat)
  {
    vol.Readable(0, done) && buf == Overlay(orig, 0, vol.Meaning(0, done)) &&
    Min(count, |orig|) == Min(vol.BytesIn(TotalLength(done)), |orig|) &&
    ReadCount(vol, |orig|, 0, done + rest) == ReadCount(vol, |orig|, count, rest)
  }

  lemma LocatedStep(vol: Volume, done: seq<Run>, run: Run, rest: seq<Run>, orig: seq<byte>, buf: seq<byte>, count: nat,
                    piece: seq<byte>)
    requires Located(vol, done, [run] + rest, orig, buf, count)
    requires vol.Readable(0, done + ([run] + rest))
    requires run.length > 0 && count <= |orig|
    requires vol.RunReadable(Shift(done) + run.offset, run)
    requires var whole := vol.RunBytes(Shift(done) + run.offset, run);
             |piece| <= |whole| && piece == whole[..|piece|] &&
             |piece| == if run.offset == 0 then |whole| else Min(|whole|, |orig| - count)
    ensures Located(vol, done + [run], rest, orig, Overlay(buf, count, piece), count + |piece|)
  {
    hide vol.BytesIn, Shift, TotalLength, vol.Readable, vol.Meaning, Overlay, vol.RunBytes, vol.RunReadable;
    var whole := vol.RunBytes(Shift(done) + run.offset, run);
    vol.MeaningLength(0, done);
    vol.OneRun(Shift(done), run);
    vol.MeaningAppend(0, done, [run]);
    TotalLengthAppend(done, [run]);
    OneRunLength(run);
    vol.BytesInSum(TotalLength(done), run.length);
    OverlayCapped(orig, vol.Meaning(0, done), piece, whole);
    assert ([run] + rest)[0] == run && ([run] + rest)[1..] == rest;
    assert done + ([run] + rest) == (done + [run]) + rest;
  }

  /** A run without clusters changes nothing. */
  lemma LocatedSkip(vol: Volume, done: seq<Run>, run: Run, rest: seq<Run>, orig: seq<byte>, buf: seq<byte>, count: nat)
    requires Located(vol, done, [run] + rest, orig, buf, count) && run.length == 0
    ensures Located(vol, done + [run], rest, orig, buf, count)
  {
    hide vol.BytesIn, Shift, TotalLength, vol.Readable, vol.Meaning, Overlay;
    OneRunLength(run);
    vol.NoClusters(Shift(done), [run]);
    vol.MeaningAppend(0, done, [run]);
    TotalLengthAppend(done, [run]);
    assert vol.Meaning(0, done) + [] == vol.Meaning(0, done);
    assert ([run] + rest)[0] == run && ([run] + rest)[1..] == rest;
    assert done + ([run] + rest) == (done + [run]) + rest;
  }

  /** What LocateData does with one run at a disk offset. */
  function CopyRun(vol: Volume, offset: int, run: Run, buf: seq<byte>, count: nat): Filled<nat>
  {
    if run.length == 0 then Filled(Done(count), buf)
    else if count > |buf| then Filled(Panic, buf)
    else
      var whole := vol.BytesIn(run.length);
      var data := if run.offset == 0 then Zeros(whole) else vol.disk.ReadData(offset, Min(whole, |buf| - count));
      Filled(Done(count + |data|), Overlay(buf, count, data))
  }

  /** What LocateData does with runs, the first of which is relative to a disk offset: it stops at a run
      that lies beyond the disk, and ignores the errors of reads. */
  function CopyRuns(vol: Volume, offset: int, runs: seq<Run>, buf: seq<byte>, count: nat): Filled<nat>
    decreases |runs|
  {
    if runs == [] then Filled(Done(count), buf)
    else
      var next := offset + runs[0].offset * vol.clusterSizeB;
      if next > vol.disk.Size() then Filled(Done(count), buf)
      else
        var f := CopyRun(vol, next, runs[0], buf, count);
        if f.outcome.Done? then CopyRuns(vol, next, runs[1..], f.buf, f.outcome.value) else f
  }

  /** Of the runs behind a disk offset, one with clusters comes before any that lies beyond the disk. */
  predicate ClustersAhead(vol: Volume, offset: int, runs: seq<Run>)
    decreases |runs|
  {
    runs != [] &&
    var next := offset + runs[0].offset * vol.clusterSizeB;
    next <= vol.disk.Size() && (runs[0].length > 0 || ClustersAhead(vol, next, runs[1..]))
  }

  /** The bytes LocateData counts for a run: a sparse run in full, another cut off at the end of a buffer of size bytes,
      and not at all if that leaves the disk. */
  function Counted(vol: Volume, size: nat, offset: int, run: Run, count: nat): nat
  {
    var whole := vol.BytesIn(run.length);
    var n := Min(whole, size - count);
    if run.offset == 0 then whole else if vol.disk.InRange(offset, n) then n else 0
  }

  /** A sparse run that ends beyond the buffer, with clusters ahead of it, where the reader gets to it. */
  predicate Overshoots(vol: Volume, size: nat, offset: int, count: nat, runs: seq<Run>)
    decreases |runs|
  {
    runs != [] &&
    var run, next := runs[0], offset + runs[0].offset * vol.clusterSizeB;
    var end := count + Counted(vol, size, next, run, count);
    next <= vol.disk.Size() &&
    ((run.offset == 0 && run.length > 0 && end > size && ClustersAhead(vol, next, runs[1..])) ||
     Overshoots(vol, size, next, end, runs[1..]))
  }

  /** The reader faults exactly on lists with such a run, whether or not they can be read. */
  lemma {:induction false} LocateDataFaults(vol: Volume, offset: int, runs: seq<Run>, buf: seq<byte>, count: nat)
    requires vol.clusterSizeB > 0 && count <= |buf|
    ensures CopyRuns(vol, offset, runs, buf, count).outcome.Panic? <==> Overshoots(vol, |buf|, offset, count, runs)
    decreases |runs|
  {
    hide vol.BytesIn, Overlay;
    if runs != [] {
      var run, rest := runs[0], runs[1..];
      var next := offset + run.offset * vol.clusterSizeB;
      if next <= vol.disk.Size() {
        OneCounted(vol, next, run, buf, count);
        var f := CopyRun(vol, next, run, buf, count);
        if f.outcome.value <= |buf| {
          LocateDataFaults(vol, next, rest, f.buf, f.outcome.value);
        } else {
          AfterOvershoot(vol, next, rest, f.buf, f.outcome.value);
        }
      }
    }
  }

  lemma OneCounted(vol: Volume, offset: int, run: Run, buf: seq<byte>, count: nat)
    requires vol.clusterSizeB > 0 && count <= |buf|
    ensures var f := CopyRun(vol, offset, run, buf, count);
            f.outcome == Done(count + Counted(vol, |buf|, offset, run, count)) && |f.buf| == |buf| &&
            (f.outcome.value > |buf| ==> run.offset == 0 && run.length > 0)
  {
    hide vol.BytesIn, Overlay;
    vol.WholeClusters(run.length);
  }

  /** With the count beyond the buffer, the next run with clusters faults. */
  lemma {:induction false} AfterOvershoot(vol: Volume, offset: int, runs: seq<Run>, buf: seq<byte>, count: nat)
    requires count > |buf|
    ensures CopyRuns(vol, offset, runs, buf, count).outcome.Panic? <==> ClustersAhead(vol, offset, runs)
    ensures Overshoots(vol, |buf|, offset, count, runs) ==> ClustersAhead(vol, offset, runs)
    decreases |runs|
  {
    hide vol.BytesIn, Overlay;
    if runs != [] {
      AfterOvershoot(vol, offset + runs[0].offset * vol.clusterSizeB, runs[1..], buf, count);
      assert vol.BytesIn(0) == 0 by { NothingPending(vol); }
    }
  }

  /** A run right at the end of the disk cannot be read and counts nothing, but the next is read. */
  lemma FailedReadCountsNothing(vol: Volume, orig: byte)
    requires vol == Volume(Disk([5, 6, 7]), 0, 1)
    ensures CopyRuns(vol, 0, [Run(3, 1), Run(-2, 1)], [orig], 0) == Filled(Done(1), [6])
  {
    hide Overlay;
    assert [Run(3, 1), Run(-2, 1)][1..] == [Run(-2, 1)] && [Run(-2, 1)][1..] == [];
    OverlayNothing([orig], 0);
    OverlayAtStart([6], [orig]);
    assert vol.disk.bytes[1..2] == [6] == [6] + [orig][1..];
    assert CopyRuns(vol, 3, [Run(-2, 1)], [orig], 0) == Filled(Done(1), [6]);
  }

  /** A hole of two clusters and a cluster behind it, read into a buffer of one byte: a fault. */
  lemma HoleOvershoots(disk: Disk, orig: seq<byte>)
    requires disk.Size() >= 2 && |orig| == 1
    ensures CopyRuns(Volume(disk, 0, 1), 0, [Run(0, 2), Run(1, 1)], orig, 0).outcome == Panic
  {
    var vol := Volume(disk, 0, 1);
    var runs := [Run(0, 2), Run(1, 1)];
    assert runs[1..] == [Run(1, 1)] && ClustersAhead(vol, 0, [Run(1, 1)]);
    LocateDataFaults(vol, 0, runs, orig, 0);
  }

  /** Reads one run of LocateData: what is read is cut off at the end of the buffer, zeros are not. */
  method LocateRun(vol: Volume, dataToRead: array<byte>, run: Run, offset: int, readBytes: nat)
    returns (r: Outcome<nat>)
    modifies dataToRead
    ensures Filled(r, dataToRead[..]) == CopyRun(vol, offset, run, old(dataToRead[..]), readBytes)
  {
    hide vol.BytesIn, Overlay, Zeros;
    if run.offset != 0 && run.length > 0 {
      var left := dataToRead.Length - readBytes;
      if left < 0 {
        return Panic;
      }
      var toRead := vol.BytesIn(run.length);
      if toRead > left {
        toRead := left;
      }
      var data := vol.disk.ReadData(offset, toRead);
      Copy(dataToRead, readBytes, data);
      return Done(readBytes + |data|);
    } else if run.offset == 0 && run.length > 0 {
      if readBytes > dataToRead.Length {
        return Panic;
      }
      Copy(dataToRead, readBytes, Zeros(vol.BytesIn(run.length)));
      return Done(readBytes + |Zeros(vol.BytesIn(run.length))|);
    }
    return Done(readBytes);
  }

  /** What a run's bytes are in terms of the disk, whole and cut off. */
  lemma RunOnDisk(vol: Volume, at: int, run: Run, n: nat)
    requires vol.RunReadable(at, run) && run.length > 0 && n <= vol.BytesIn(run.length)
    ensures run.offset == 0 ==> vol.RunBytes(at, run) == Zeros(vol.BytesIn(run.length))
    ensures run.offset != 0 ==>
              vol.disk.InRange(vol.ByteOf(at), n) &&
              vol.RunBytes(at, run)[..n] == vol.disk.bytes[vol.ByteOf(at)..vol.ByteOf(at) + n]
  {
    hide vol.BytesIn, vol.ByteOf;
    if run.offset != 0 {
      SliceOfSlice(vol.disk.bytes, vol.ByteOf(at), vol.ByteOf(at) + vol.BytesIn(run.length), 0, n);
    }
  }

  lemma LocatedNothing(vol: Volume, runs: seq<Run>, orig: seq<byte>)
    ensures Located(vol, [], runs, orig, orig, 0)
  {
    NothingPending(vol);
    assert [] + runs == runs;
  }

  lemma LocatedAll(vol: Volume, runs: seq<Run>, orig: seq<byte>, buf: seq<byte>, count: nat)
    requires Located(vol, runs, [], orig, buf, count)
    ensures ReadCount(vol, |orig|, 0, runs) == Done(count) && buf == Overlay(orig, 0, vol.Meaning(0, runs))
  {
    assert runs + [] == runs;
  }

  /** What the state says about the next run: it can be read, and a count beyond the buffer faults. */
  lemma LocatedNext(vol: Volume, done: seq<Run>, run: Run, rest: seq<Run>, orig: seq<byte>, buf: seq<byte>, count: nat)
    requires Located(vol, done, [run] + rest, orig, buf, count) && vol.Readable(0, done + ([run] + rest))
    ensures |buf| == |orig|
    ensures vol.RunReadable(Shift(done) + run.offset, run)
    ensures |vol.RunBytes(Shift(done) + run.offset, run)| == vol.BytesIn(run.length)
    ensures run.length > 0 && count > |orig| ==> ReadCount(vol, |orig|, 0, done + ([run] + rest)).Panic?
  {
    hide Shift, vol.Meaning;
    vol.MeaningAppend(0, done, [run] + rest);
    assert ([run] + rest)[0] == run;
    assert 0 + Shift(done) == Shift(done);
  }

  lemma ByteOfNothing(vol: Volume)
    ensures vol.ByteOf(Shift([])) == vol.partitionOffsetB
  {
  }

  lemma NextByte(vol: Volume, cluster: int, offset: int)
    ensures vol.ByteOf(cluster + offset) == vol.ByteOf(cluster) + offset * vol.clusterSizeB
  {
    assert (cluster + offset) * vol.clusterSizeB == cluster * vol.clusterSizeB + offset * vol.clusterSizeB;
  }

  /** One run further. */
  lemma CopyRunNext(vol: Volume, done: seq<Run>, run: Run, rest: seq<Run>, orig: seq<byte>, buf: seq<byte>, count: nat)
    requires Located(vol, done, [run] + rest, orig, buf, count) && vol.Readable(0, done + ([run] + rest))
    ensures var f := CopyRun(vol, vol.ByteOf(Shift(done) + run.offset), run, buf, count);
            if f.outcome.Done? then Located(vol, done + [run], rest, orig, f.buf, f.outcome.value)
            else f.outcome == ReadCount(vol, |orig|, 0, done + ([run] + rest))
  {
    hide vol.BytesIn, Shift, TotalLength, vol.Readable, vol.Meaning, Overlay, Located, vol.ByteOf, ReadCount,
         vol.RunReadable, vol.RunBytes, Zeros;
    LocatedNext(vol, done, run, rest, orig, buf, count);
    if run.length == 0 {
      LocatedSkip(vol, done, run, rest, orig, buf, count);
    } else if count <= |orig| {
      var whole := vol.BytesIn(run.length);
      var n := if run.offset == 0 then whole else Min(whole, |orig| - count);
      var bytes := vol.RunBytes(Shift(done) + run.offset, run);
      RunOnDisk(vol, Shift(done) + run.offset, run, n);
      assert bytes[..|bytes|] == bytes;
      var at := vol.ByteOf(Shift(done) + run.offset);
      assert bytes[..n] == if run.offset == 0 then Zeros(whole) else vol.disk.ReadData(at, n);
      assert CopyRun(vol, at, run, buf, count) == Filled(Done(count + |bytes[..n]|), Overlay(buf, count, bytes[..n]));
      LocatedStep(vol, done, run, rest, orig, buf, count, bytes[..n]);
    }
  }

  /** On readable runs that lie on the disk, the rest of LocateData's work finishes what its state promises. */
  lemma {:induction false} CopyRunsFrom(vol: Volume, done: seq<Run>, rest: seq<Run>, orig: seq<byte>, buf: seq<byte>,
                                        count: nat)
    requires vol.Readable(0, done + rest) && Placed(vol, done + rest) && Located(vol, done, rest, orig, buf, count)
    ensures var f := CopyRuns(vol, vol.ByteOf(Shift(done)), rest, buf, count);
            f.outcome == ReadCount(vol, |orig|, 0, done + rest) &&
            (f.outcome.Done? ==> f.buf == Overlay(orig, 0, vol.Meaning(0, done + rest)))
    decreases |rest|
  {
    hide vol.BytesIn, Shift, TotalLength, vol.Readable, vol.Meaning, Overlay, Located, vol.ByteOf, ReadCount, Placed, CopyRun;
    if rest == [] {
      assert done + rest == done;
      LocatedAll(vol, done, orig, buf, count);
    } else {
      var run, later := rest[0], rest[1..];
      assert rest == [run] + later && done + rest == (done + [run]) + later;
      NextByte(vol, Shift(done), run.offset);
      PlacedNext(vol, done + rest, done, run, later);
      CopyRunNext(vol, done, run, later, orig, buf, count);
      AppendShift(done, run);
      var f := CopyRun(vol, vol.ByteOf(Shift(done) + run.offset), run, buf, count);
      if f.outcome.Done? {
        CopyRunsFrom(vol, done + [run], later, orig, f.buf, f.outcome.value);
      }
    }
  }

  /** On readable runs that lie on the disk, LocateData fills the buffer with the bytes of the runs as far as it
      reaches, and the result is the count above. */
  lemma CopyRunsMeaning(vol: Volume, runs: seq<Run>, orig: seq<byte>)
    requires vol.Readable(0, runs) && Placed(vol, runs)
    ensures var f := CopyRuns(vol, vol.partitionOffsetB, runs, orig, 0);
            f.outcome == ReadCount(vol, |orig|, 0, runs) &&
            (f.outcome.Done? ==> f.buf == Overlay(orig, 0, vol.Meaning(0, runs)))
  {
    hide vol.Readable, vol.Meaning, Overlay, Located, vol.ByteOf, ReadCount, Placed, CopyRuns, Shift;
    assert [] + runs == runs;
    LocatedNothing(vol, runs, orig);
    ByteOfNothing(vol);
    CopyRunsFrom(vol, [], runs, orig, orig, 0);
  }

  /** LocateData on a non-resident record, run by run. */
  method LocateData(vol: Volume, head: RunList?, dataToRead: array<byte>, ghost nodes: seq<RunList>,
                    ghost runs: seq<Run>) returns (r: Outcome<nat>)
    requires if head == null then runs == [] else IsList(nodes) && nodes[0] == head && Holds(nodes, runs)
    modifies dataToRead
    ensures Filled(r, dataToRead[..]) == CopyRuns(vol, vol.partitionOffsetB, runs, old(dataToRead[..]), 0)
  {
    hide IsList, Holds, CopyRun;
    ghost var goal := CopyRuns(vol, vol.partitionOffsetB, runs, dataToRead[..], 0);
    var readBytes: nat, offset := 0, vol.partitionOffsetB;
    if head == null {
      return Done(0);
    }
    HeadNode(nodes, runs);
    var runlist: RunList := head;
    ghost var i := 0;
    ghost var rest: seq<Run> := runs;
    while true
      invariant IsList(nodes) && Holds(nodes, runs)
      invariant 0 <= i < |nodes| && runlist == nodes[i] && runs[i] == Run(runlist.Offset, runlist.Length)
      invariant i <= |runs| && rest == runs[i..]
      invariant goal == CopyRuns(vol, offset, rest, dataToRead[..], readBytes)
      decreases |nodes| - i
    {
      assert rest[0] == Run(runlist.Offset, runlist.Length) && rest[1..] == runs[i + 1..];
      offset := offset + runlist.Offset * vol.clusterSizeB;
      if offset > vol.disk.Size() {
        return Done(readBytes);
      }
      var read := LocateRun(vol, dataToRead, Run(runlist.Offset, runlist.Length), offset, readBytes);
      if !read.Done? {
        return read;
      }
      readBytes, rest := read.value, rest[1..];
      var next := NextNode(runlist, i, nodes, runs);
      if next == null {
        assert rest == [];
        return Done(readBytes);
      }
      runlist := next;
      i := i + 1;
    }
  }

  lemma PlacedNext(vol: Volume, runs: seq<Run>, done: seq<Run>, run: Run, rest: seq<Run>)
    requires runs == done + ([run] + rest)
    ensures Placed(vol, runs) ==> vol.ByteOf(Shift(done) + run.offset) <= vol.disk.Size()
  {
    assert runs[..|done| + 1] == done + [run];
    AppendShift(done, run);
  }

  lemma AppendShift(done: seq<Run>, run: Run)
    ensures Shift(done + [run]) == Shift(done) + run.offset
  {
    ShiftAppend(done, [run]);
    assert Shift([run]) == run.offset;
  }

  /** A run beyond the disk at which LocateData stops although clusters are still to come. */
  predicate StopsShort(vol: Volume, runs: seq<Run>)
  {
    exists i | 0 <= i < |runs| :: vol.ByteOf(Shift(runs[..i + 1])) > vol.disk.Size() && TotalLength(runs[i..]) > 0
  }

  /** The number of runs before the first that lies beyond the disk. */
  lemma FirstUnplaced(vol: Volume, runs: seq<Run>) returns (k: nat)
    ensures k <= |runs| && Placed(vol, runs[..k])
    ensures k < |runs| ==> vol.ByteOf(Shift(runs[..k + 1])) > vol.disk.Size()
  {
    hide vol.ByteOf, Shift;
    k := 0;
    while k < |runs| && vol.ByteOf(Shift(runs[..k + 1])) <= vol.disk.Size()
      invariant k <= |runs| && forall i | 0 < i <= k :: vol.ByteOf(Shift(runs[..i])) <= vol.disk.Size()
    {
      k := k + 1;
    }
    forall i | 0 < i <= k
      ensures runs[..k][..i] == runs[..i]
    {
    }
  }

  /** LocateData does with a list what it does with the runs before the first beyond the disk. */
  lemma {:induction false} StopsAt(vol: Volume, done: seq<Run>, rest: seq<Run>, k: nat, buf: seq<byte>, count: nat)
    requires k <= |rest| && Placed(vol, done + rest[..k])
    requires k < |rest| ==> vol.ByteOf(Shift(done + rest[..k + 1])) > vol.disk.Size()
    ensures CopyRuns(vol, vol.ByteOf(Shift(done)), rest, buf, count) ==
            CopyRuns(vol, vol.ByteOf(Shift(done)), rest[..k], buf, count)
    decreases k
  {
    hide vol.ByteOf, Shift, Placed, CopyRun;
    if rest != [] {
      var run, later := rest[0], rest[1..];
      NextByte(vol, Shift(done), run.offset);
      AppendShift(done, run);
      if k == 0 {
        assert rest[..1] == [run];
      } else {
        assert rest[..k] == [run] + later[..k - 1] && done + rest[..k] == (done + [run]) + later[..k - 1];
        assert k < |rest| ==> done + rest[..k + 1] == (done + [run]) + later[..k];
        PlacedNext(vol, done + rest[..k], done, run, later[..k - 1]);
        assert rest[..k][0] == run && rest[..k][1..] == later[..k - 1];
        var f := CopyRun(vol, vol.ByteOf(Shift(done) + run.offset), run, buf, count);
        if f.outcome.Done? {
          StopsAt(vol, done + [run], later, k - 1, f.buf, f.outcome.value);
        }
      }
    }
  }

  /** The size and the meaning of a list in terms of a prefix. */
  lemma AcceptablePrefix(vol: Volume, runs: seq<Run>, k: nat, size: nat)
    requires Acceptable(vol, runs, size) && k <= |runs|
    ensures var prefix, rest := runs[..k], runs[k..];
            vol.Readable(0, prefix) && vol.BytesIn(TotalLength(prefix)) <= size &&
            vol.BytesIn(TotalLength(runs)) == vol.BytesIn(TotalLength(prefix)) + vol.BytesIn(TotalLength(rest)) &&
            (TotalLength(rest) == 0 ==> vol.Meaning(0, runs) == vol.Meaning(0, prefix))
  {
    hide vol.BytesIn, Shift, TotalLength, vol.Readable, vol.Meaning;
    var prefix, rest := runs[..k], runs[k..];
    assert runs == prefix + rest;
    vol.MeaningAppend(0, prefix, rest);
    TotalLengthAppend(prefix, rest);
    vol.BytesInSum(TotalLength(prefix), TotalLength(rest));
    if TotalLength(rest) == 0 {
      vol.NoClusters(0 + Shift(prefix), rest);
      assert vol.Meaning(0, prefix) + [] == vol.Meaning(0, prefix);
    }
  }

  lemma LaterClusters(runs: seq<Run>, k: nat, i: nat)
    requires k <= i <= |runs|
    ensures TotalLength(runs[k..]) >= TotalLength(runs[i..])
  {
    hide TotalLength;
    assert runs[k..] == runs[k..i] + runs[i..];
    TotalLengthAppend(runs[k..i], runs[i..]);
  }

  /** On a list that GetContent accepts, LocateData counts the whole list and leaves the same bytes exactly if no
      clusters are still to come at the first run beyond the disk. */
  lemma LocateDataAgrees(vol: Volume, runs: seq<Run>, orig: seq<byte>)
    requires vol.clusterSizeB > 0 && runs != [] && Acceptable(vol, runs, |orig|)
    ensures (CopyRuns(vol, vol.partitionOffsetB, runs, orig, 0) ==
             Filled(Done(vol.BytesIn(TotalLength(runs))), Content(vol, orig, runs).buf)) <==> !StopsShort(vol, runs)
  {
    hide vol.BytesIn, vol.ByteOf, Shift, TotalLength, vol.Readable, vol.Meaning, Overlay, Placed, CopyRuns, ReadCount,
         Content, Acceptable;
    var k := FirstUnplaced(vol, runs);
    var prefix, rest := runs[..k], runs[k..];
    AcceptablePrefix(vol, runs, k, |orig|);
    vol.WholeClusters(TotalLength(rest));
    assert [] + runs == runs && [] + prefix == prefix && [] + runs[..k] == runs[..k];
    assert k < |runs| ==> [] + runs[..k + 1] == runs[..k + 1];
    StopsAt(vol, [], runs, k, orig, 0);
    ByteOfNothing(vol);
    CopyRunsMeaning(vol, prefix, orig);
    ReadCountFits(vol, |orig|, 0, prefix);
    ContentMeaning(vol, runs, orig);
    if TotalLength(rest) == 0 {
      forall i | 0 <= i < |runs| && vol.ByteOf(Shift(runs[..i + 1])) > vol.disk.Size()
        ensures TotalLength(runs[i..]) == 0
      {
        UnplacedLater(vol, runs, k, i);
        LaterClusters(runs, k, i);
      }
    } else {
      NoClustersLeft(runs, k);
    }
  }

  lemma UnplacedLater(vol: Volume, runs: seq<Run>, k: nat, i: nat)
    requires k <= |runs| && Placed(vol, runs[..k])
    requires i < |runs| && vol.ByteOf(Shift(runs[..i + 1])) > vol.disk.Size()
    ensures k <= i
  {
    hide vol.ByteOf, Shift, Placed;
    if i < k {
      PlacedBefore(vol, runs, k, i);
      assert false;
    }
  }

  lemma PlacedBefore(vol: Volume, runs: seq<Run>, k: nat, i: nat)
    requires i < k <= |runs| && Placed(vol, runs[..k])
    ensures vol.ByteOf(Shift(runs[..i + 1])) <= vol.disk.Size()
  {
    hide vol.ByteOf, Shift;
    assert runs[..k][..i + 1] == runs[..i + 1];
  }

  lemma NoClustersLeft(runs: seq<Run>, k: nat)
    requires k <= |runs| && TotalLength(runs[k..]) > 0
    ensures k < |runs|
  {
  }

  /** A run without clusters beyond the disk, and one cluster behind it: GetContent reads it, LocateData stops. */
  lemma StopsBeforeCluster(orig: byte)
    ensures var vol := Volume(Disk(seq(10, i => if i == 1 then 7 else 0)), 0, 1);
            var runs := [Run(1000, 0), Run(-999, 1)];
            Acceptable(vol, runs, 1) && StopsShort(vol, runs) &&
            CopyRuns(vol, 0, runs, [orig], 0) == Filled(Done(0), [orig]) &&
            Content(vol, [orig], runs) == Filled(Done(()), [7])
  {
    var vol := Volume(Disk(seq(10, i => if i == 1 then 7 else 0)), 0, 1);
    var runs := [Run(1000, 0), Run(-999, 1)];
    assert runs[1..] == [Run(-999, 1)] && runs[..1] == [Run(1000, 0)] && runs[..2] == runs && runs[0..] == runs;
    assert runs[1..][1..] == [];
    var (first, second) := (runs[0], runs[1]);
    OneRunLength(first);
    OneRunLength(second);
    assert runs == [first] + [second];
    TotalLengthAppend([first], [second]);
    AppendShift([], first);
    AppendShift([first], second);
    assert [] + [first] == [first] && Shift([first]) == 1000 && Shift(runs) == 1;
    assert vol.ByteOf(Shift(runs[..0 + 1])) == 1000;
    assert vol.Readable(1000, runs[1..]) && vol.Readable(0, runs);
    assert vol.Meaning(1000, runs[1..]) == [7];
    assert vol.RunBytes(1000, runs[0]) == [] && vol.Meaning(0, runs) == [] + [7] == [7];
    assert forall i | 0 < i <= 2 :: runs[..i] == runs[..1] || runs[..i] == runs;
    ContentMeaning(vol, runs, [orig]);
  }

  /** What CollectMFTArea does with runs, the first of which is relative to a cluster. */
  function CollectRuns(vol: Volume, cluster: int, runs: seq<Run>, buf: seq<byte>, at: nat): Outcome<seq<byte>>
    decreases |runs|
  {
    if runs == [] then Done(buf)
    else if at > |buf| then Panic
    else
      var next, toRead := cluster + runs[0].offset, vol.BytesIn(runs[0].length);
      CollectRuns(vol, next, runs[1..], Overlay(buf, at, vol.disk.ReadData(vol.ByteOf(next), toRead)), at + toRead)
  }

  /** Reads the whole $MFT: every run as clusters, offset 0 or not, into a buffer of sizeCL clusters. */
  method CollectMFTArea(vol: Volume, sizeCL: nat, head: RunList?, ghost nodes: seq<RunList>, ghost runs: seq<Run>)
    returns (r: Outcome<seq<byte>>)
    requires if head == null then runs == [] else IsList(nodes) && nodes[0] == head && Holds(nodes, runs)
    ensures r == CollectRuns(vol, 0, runs, Zeros(vol.BytesIn(sizeCL)), 0)
  {
    hide vol.BytesIn, Overlay, vol.ByteOf, IsList, Holds;
    var dataToRead := new byte[vol.BytesIn(sizeCL)](_ => 0);
    assert dataToRead[..] == Zeros(vol.BytesIn(sizeCL));
    ghost var goal := CollectRuns(vol, 0, runs, dataToRead[..], 0);
    if head == null {
      return Done(dataToRead[..]);
    }
    HeadNode(nodes, runs);
    var runlist: RunList := head;
    var offset: int, readData: nat := 0, 0;
    ghost var i := 0;
    ghost var rest: seq<Run> := runs;
    while true
      invariant IsList(nodes) && Holds(nodes, runs)
      invariant 0 <= i < |nodes| && runlist == nodes[i] && runs[i] == Run(runlist.Offset, runlist.Length)
      invariant i <= |runs| && rest == runs[i..]
      invariant goal == CollectRuns(vol, offset, rest, dataToRead[..], readData)
      decreases |nodes| - i
    {
      assert rest[0] == Run(runlist.Offset, runlist.Length) && rest[1..] == runs[i + 1..];
      offset := offset + runlist.Offset;
      var toRead := vol.BytesIn(runlist.Length);
      var data := vol.disk.ReadData(vol.ByteOf(offset), toRead);
      if readData > dataToRead.Length {
        return Panic;
      }
      Copy(dataToRead, readData, data);
      rest := rest[1..];
      var next := NextNode(runlist, i, nodes, runs);
      if next == null {
        assert rest == [];
        break;
      }
      readData := readData + toRead;
      runlist := next;
      i := i + 1;
    }
    return Done(dataToRead[..]);
  }

  /** One more piece, or none in its place if its read fails. */
  lemma FetchedNext(vol: Volume, size: nat, done: seq<byte>, cluster: int, n: nat)
    requires |done| <= size
    ensures var data := vol.disk.ReadData(vol.ByteOf(cluster), vol.BytesIn(n));
            Overlay(Overlay(Zeros(size), 0, done), |done|, data) ==
            Overlay(Zeros(size), 0, done + vol.Fetched(cluster, n))
  {
    hide vol.BytesIn, vol.ByteOf;
    var data, whole := vol.disk.ReadData(vol.ByteOf(cluster), vol.BytesIn(n)), vol.Fetched(cluster, n);
    if vol.disk.InRange(vol.ByteOf(cluster), vol.BytesIn(n)) {
      assert whole[..|data|] == data;
      OverlayCapped(Zeros(size), done, data, whole);
    } else {
      OverlayZeros(size, done, |whole|);
    }
  }

  lemma OverlayZeros(size: nat, done: seq<byte>, n: nat)
    requires |done| <= size
    ensures Overlay(Overlay(Zeros(size), 0, done), |done|, []) == Overlay(Zeros(size), 0, done + Zeros(n))
  {
  }

  lemma {:induction false} CollectRunsFrom(vol: Volume, size: nat, cluster: int, runs: seq<Run>, done: seq<byte>)
    ensures CollectRuns(vol, cluster, runs, Overlay(Zeros(size), 0, done), |done|) ==
            if LastBeyond(vol, size, |done|, runs) then Panic
            else Done(Overlay(Zeros(size), 0, done + vol.FetchedAll(cluster, runs)))
    decreases |runs|
  {
    hide vol.BytesIn, vol.ByteOf, Overlay, vol.FetchedAll, vol.Fetched, LastBeyond;
    FetchedFirst(vol, cluster, runs, done);
    LastBeyondNext(vol, size, |done|, runs);
    if runs != [] && |done| <= size {
      var next, run := cluster + runs[0].offset, runs[0];
      FetchedNext(vol, size, done, next, run.length);
      CollectRunsFrom(vol, size, next, runs[1..], done + vol.Fetched(next, run.length));
    }
  }

  lemma FetchedFirst(vol: Volume, cluster: int, runs: seq<Run>, done: seq<byte>)
    ensures runs == [] ==> done + vol.FetchedAll(cluster, runs) == done
    ensures runs != [] ==>
              var next := cluster + runs[0].offset;
              done + vol.FetchedAll(cluster, runs) ==
              done + vol.Fetched(next, runs[0].length) + vol.FetchedAll(next, runs[1..])
  {
    hide vol.Fetched;
  }

  /** Behind count bytes, the last run begins beyond the end of a buffer. */
  predicate LastBeyond(vol: Volume, size: nat, count: nat, runs: seq<Run>)
  {
    runs != [] && count + vol.BytesIn(TotalLength(runs[..|runs| - 1])) > size
  }

  lemma LastBeyondNext(vol: Volume, size: nat, count: nat, runs: seq<Run>)
    ensures runs == [] ==> !LastBeyond(vol, size, count, runs)
    ensures runs != [] ==>
              (LastBeyond(vol, size, count, runs) <==>
               count > size || LastBeyond(vol, size, count + vol.BytesIn(runs[0].length), runs[1..]))
  {
    hide vol.BytesIn;
    NothingPending(vol);
    if |runs| == 1 {
      assert runs[..|runs| - 1] == [];
    } else if |runs| > 1 {
      var init := runs[..|runs| - 1];
      assert init == [runs[0]] + runs[1..][..|runs| - 2];
      TotalLengthAppend([runs[0]], runs[1..][..|runs| - 2]);
      OneRunLength(runs[0]);
      vol.BytesInSum(runs[0].length, TotalLength(runs[1..][..|runs| - 2]));
    }
  }

  /** Into a buffer of any size the reader collects every run as clusters, cut off at the end, and zeros where a read
      fails; it faults exactly if the last run begins beyond the end. */
  lemma CollectRunsExact(vol: Volume, size: nat, runs: seq<Run>)
    ensures CollectRuns(vol, 0, runs, Zeros(size), 0) ==
            if LastBeyond(vol, size, 0, runs) then Panic else Done(Overlay(Zeros(size), 0, vol.FetchedAll(0, runs)))
  {
    hide vol.FetchedAll, CollectRuns, LastBeyond;
    OverlayNothing(Zeros(size), 0);
    CollectRunsFrom(vol, size, 0, runs, []);
    assert [] + vol.FetchedAll(0, runs) == vol.FetchedAll(0, runs);
  }

  /** Into a buffer of the list's own length it collects exactly that. */
  lemma CollectRunsMeaning(vol: Volume, runs: seq<Run>)
    ensures CollectRuns(vol, 0, runs, Zeros(vol.BytesIn(TotalLength(runs))), 0) == Done(vol.FetchedAll(0, runs))
  {
    hide vol.FetchedAll, CollectRuns, vol.BytesIn, Overlay;
    var size := vol.BytesIn(TotalLength(runs));
    CollectRunsExact(vol, size, runs);
    vol.FetchedLength(0, runs);
    OverlayAtStart(vol.FetchedAll(0, runs), Zeros(size));
    var fetched := vol.FetchedAll(0, runs);
    assert fetched + Zeros(size)[size..] == fetched;
    LastFits(vol, runs);
  }

  lemma LastFits(vol: Volume, runs: seq<Run>)
    ensures !LastBeyond(vol, vol.BytesIn(TotalLength(runs)), 0, runs)
  {
    hide vol.BytesIn;
    if runs != [] {
      var init, last := runs[..|runs| - 1], runs[|runs| - 1];
      assert runs == init + [last];
      TotalLengthAppend(init, [last]);
      vol.BytesInSum(TotalLength(init), TotalLength([last]));
    }
  }

  /** On a list that can be read the reader gives what the list means, whatever is on the disk, exactly if no sparse
      run with clusters can be read as clusters. */
  lemma CollectMFTAreaExact(disk: Disk, part: int, clusterSizeB: nat, runs: seq<Run>)
    requires clusterSizeB > 0 && Volume(disk, part, clusterSizeB).Readable(0, runs)
    ensures AlwaysCollects(disk, part, clusterSizeB, runs) <==> !Volume(disk, part, clusterSizeB).HoleOnDisk(0, runs)
  {
    var vol := Volume(disk, part, clusterSizeB);
    if vol.HoleOnDisk(0, runs) {
      var ones := Volume(Disk(seq(disk.Size(), _ => 1)), part, clusterSizeB);
      SameRuns(vol, ones, 0, runs);
      CollectRunsMeaning(ones, runs);
      ones.OnesShowHole(0, runs);
      assert |ones.disk.bytes| == disk.Size();
    } else {
      forall bytes: seq<byte> | |bytes| == disk.Size()
        ensures Collects(Volume(Disk(bytes), part, clusterSizeB), runs)
      {
        var other := Volume(Disk(bytes), part, clusterSizeB);
        SameRuns(vol, other, 0, runs);
        CollectRunsMeaning(other, runs);
        other.FetchedIsMeaning(0, runs);
      }
    }
  }

  /** Into a buffer of the list's own length, the list's meaning is collected. */
  ghost predicate Collects(vol: Volume, runs: seq<Run>)
  {
    vol.Readable(0, runs) &&
    CollectRuns(vol, 0, runs, Zeros(vol.BytesIn(TotalLength(runs))), 0) == Done(vol.Meaning(0, runs))
  }

  ghost predicate AlwaysCollects(disk: Disk, part: int, clusterSizeB: nat, runs: seq<Run>)
  {
    forall bytes: seq<byte> | |bytes| == disk.Size() :: Collects(Volume(Disk(bytes), part, clusterSizeB), runs)
  }

  /** What can be read does not depend on what the disk holds. */
  lemma {:induction false} SameRuns(a: Volume, b: Volume, base: int, runs: seq<Run>)
    requires a.disk.Size() == b.disk.Size()
    requires a.partitionOffsetB == b.partitionOffsetB && a.clusterSizeB == b.clusterSizeB
    ensures a.Readable(base, runs) <==> b.Readable(base, runs)
    ensures a.HoleOnDisk(base, runs) <==> b.HoleOnDisk(base, runs)
    decreases |runs|
  {
    if runs != [] {
      SameRuns(a, b, base + runs[0].offset, runs[1..]);
    }
  }

  /** A cluster and a hole behind it: the hole is read as the cluster again. */
  lemma HoleReadAsCluster(vol: Volume, runs: seq<Run>)
    requires vol == Volume(Disk([0, 7]), 0, 1) && runs == [Run(1, 1), Run(0, 1)]
    ensures vol.Readable(0, runs) && vol.Meaning(0, runs) == [7, 0]
    ensures CollectRuns(vol, 0, runs, Zeros(vol.BytesIn(TotalLength(runs))), 0) == Done([7, 7])
  {
    hide CollectRuns, TotalLength, vol.BytesIn, vol.Readable, vol.Meaning, vol.FetchedAll;
    assert runs == [Run(1, 1)] + [Run(0, 1)];
    HoleMeans(vol, Run(1, 1), Run(0, 1));
    HoleFetched(vol, Run(1, 1), Run(0, 1));
    CollectRunsMeaning(vol, runs);
  }

  lemma HoleMeans(vol: Volume, cluster: Run, hole: Run)
    requires vol == Volume(Disk([0, 7]), 0, 1) && cluster == Run(1, 1) && hole == Run(0, 1)
    ensures vol.Readable(0, [cluster] + [hole]) && vol.Meaning(0, [cluster] + [hole]) == [7, 0]
  {
    vol.OneRun(0, cluster);
    vol.OneRun(1, hole);
    OneShift(cluster);
    vol.MeaningAppend(0, [cluster], [hole]);
  }

  lemma HoleFetched(vol: Volume, cluster: Run, hole: Run)
    requires vol == Volume(Disk([0, 7]), 0, 1) && cluster == Run(1, 1) && hole == Run(0, 1)
    ensures vol.FetchedAll(0, [cluster] + [hole]) == [7, 7]
  {
    var runs := [cluster] + [hole];
    assert runs[1..] == [hole] && [hole][1..] == [];
    assert vol.FetchedAll(1, []) == [];
    assert vol.Fetched(1, 1) == [7];
    assert vol.FetchedAll(1, [hole]) == [7] + [];
    assert vol.FetchedAll(0, runs) == [7] + [7];
  }

  lemma OneShift(run: Run)
    ensures Shift([run]) == run.offset
  {
  }
}
