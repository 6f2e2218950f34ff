/** What a run list means on a disk: zeros for sparse runs, clusters at the running sum otherwise. */
module RunContents {
  import opened Arithmetic
  import opened Bytes
  import opened Readers
  import opened RunLists

  /** The volume a run list refers to: where its partition starts, how many bytes a cluster has. */
  datatype Volume = Volume(disk: Disk, partitionOffsetB: int, clusterSizeB: nat) {

    /** The disk offset of a cluster. */
    function ByteOf(cluster: int): int
    {
      partitionOffsetB + cluster * clusterSizeB
    }

    /** The size in bytes of a number of clusters. */
    function BytesIn(clusters: nat): nat
    {
      clusters * clusterSizeB
    }

    lemma BytesInSum(a: nat, b: nat)
      ensures BytesIn(a + b) == BytesIn(a) + BytesIn(b)
    {
    }

    lemma ByteOfSum(cluster: int, n: nat)
      ensures ByteOf(cluster + n) == ByteOf(cluster) + BytesIn(n)
    {
      assert (cluster + n) * clusterSizeB == cluster * clusterSizeB + n * clusterSizeB;
    }

    lemma WholeClusters(n: nat)
      requires clusterSizeB > 0
      ensures BytesIn(n) / clusterSizeB == n && (BytesIn(n) == 0 <==> n == 0)
    {
      assert BytesIn(n) == clusterSizeB * n + 0;
      DivModUnique(clusterSizeB, n, 0);
    }

    /** Clusters that can be read: none at all, or a range of the disk that starts at a real cluster. */
    predicate HasClusters(cluster: int, n: nat)
    {
      n == 0 || (cluster >= 0 && disk.InRange(ByteOf(cluster), BytesIn(n)))
    }

    function Clusters(cluster: int, n: nat): (b: seq<byte>)
      requires HasClusters(cluster, n)
      ensures |b| == BytesIn(n)
    {
      if n == 0 then [] else disk.bytes[ByteOf(cluster)..ByteOf(cluster) + BytesIn(n)]
    }

    lemma NoneToRead(cluster: int)
      ensures HasClusters(cluster, 0) && Clusters(cluster, 0) == []
    {
    }

    /** Two adjacent ranges are readable exactly when their union is, and then read as one. */
    lemma JoinClusters(cluster: int, m: nat, n: nat)
      requires m > 0
      ensures HasClusters(cluster, m + n) <==> HasClusters(cluster, m) && HasClusters(cluster + m, n)
      ensures HasClusters(cluster, m + n) ==>
                Clusters(cluster, m + n) == Clusters(cluster, m) + Clusters(cluster + m, n)
    {
      hide BytesIn, ByteOf;
      BytesInSum(m, n);
      ByteOfSum(cluster, m);
      if HasClusters(cluster, m + n) {
        SplitSlice(disk.bytes, ByteOf(cluster), ByteOf(cluster + m), ByteOf(cluster) + BytesIn(m + n));
      }
    }

    // ---------- Run by run ----------

    predicate RunReadable(at: int, run: Run)
    {
      run.offset == 0 || HasClusters(at, run.length)
    }

    function RunBytes(at: int, run: Run): (b: seq<byte>)
      requires RunReadable(at, run)
      ensures |b| == BytesIn(run.length)
    {
      if run.offset == 0 then Zeros(BytesIn(run.length)) else Clusters(at, run.length)
    }

    /** Every run after a run at cluster base can be read. */
    predicate Readable(base: int, runs: seq<Run>)
      decreases |runs|
    {
      runs == [] || (RunReadable(base + runs[0].offset, runs[0]) && Readable(base + runs[0].offset, runs[1..]))
    }

    /** The bytes the runs stand for, one run after the other. */
    function Meaning(base: int, runs: seq<Run>): seq<byte>
      requires Readable(base, runs)
      decreases |runs|
    {
      if runs == [] then []
      else RunBytes(base + runs[0].offset, runs[0]) + Meaning(base + runs[0].offset, runs[1..])
    }

    lemma {:induction false} MeaningLength(base: int, runs: seq<Run>)
      requires Readable(base, runs)
      ensures |Meaning(base, runs)| == BytesIn(TotalLength(runs))
      decreases |runs|
    {
      if runs != [] {
        var at := base + runs[0].offset;
        MeaningLength(at, runs[1..]);
        BytesInSum(runs[0].length, TotalLength(runs[1..]));
        hide BytesIn, RunReadable, HasClusters;
        assert |RunBytes(at, runs[0])| == BytesIn(runs[0].length);
      }
    }

    lemma {:induction false} MeaningAppend(base: int, a: seq<Run>, b: seq<Run>)
      ensures Readable(base, a + b) <==> Readable(base, a) && Readable(base + Shift(a), b)
      ensures Readable(base, a + b) ==> Meaning(base, a + b) == Meaning(base, a) + Meaning(base + Shift(a), b)
      decreases |a|
    {
      hide BytesIn, RunBytes, RunReadable;
      if a == [] {
        assert a + b == b;
        if Readable(base, b) {
          assert [] + Meaning(base, b) == Meaning(base, b);
        }
      } else {
        var at := base + a[0].offset;
        assert (a + b)[0] == a[0] && (a + b)[1..] == a[1..] + b;
        MeaningAppend(at, a[1..], b);
        if Readable(base, a + b) {
          var m := Meaning(base + Shift(a), b);
          assert Meaning(base, a + b) == RunBytes(at, a[0]) + (Meaning(at, a[1..]) + m);
          assert RunBytes(at, a[0]) + (Meaning(at, a[1..]) + m) == (RunBytes(at, a[0]) + Meaning(at, a[1..])) + m;
        }
      }
    }

    lemma OneRun(base: int, run: Run)
      ensures Readable(base, [run]) <==> RunReadable(base + run.offset, run)
      ensures Readable(base, [run]) ==> Meaning(base, [run]) == RunBytes(base + run.offset, run)
    {
      assert [run][1..] == [] && Readable(base + run.offset, []);
    }

    // ---------- Every run read as clusters ----------

    /** What reading clusters, errors ignored, leaves in a zeroed buffer. */
    function Fetched(cluster: int, n: nat): (b: seq<byte>)
      ensures |b| == BytesIn(n)
    {
      if disk.InRange(ByteOf(cluster), BytesIn(n)) then disk.bytes[ByteOf(cluster)..ByteOf(cluster) + BytesIn(n)]
      else Zeros(BytesIn(n))
    }

    /** Every run taken as clusters at the running position, offset 0 or not. */
    function FetchedAll(base: int, runs: seq<Run>): seq<byte>
      decreases |runs|
    {
      if runs == [] then []
      else Fetched(base + runs[0].offset, runs[0].length) + FetchedAll(base + runs[0].offset, runs[1..])
    }

    lemma {:induction false} FetchedLength(base: int, runs: seq<Run>)
      ensures |FetchedAll(base, runs)| == BytesIn(TotalLength(runs))
      decreases |runs|
    {
      if runs != [] {
        FetchedLength(base + runs[0].offset, runs[1..]);
        BytesInSum(runs[0].length, TotalLength(runs[1..]));
        hide BytesIn;
        assert |Fetched(base + runs[0].offset, runs[0].length)| == BytesIn(runs[0].length);
      }
    }

    /** A sparse run with clusters, where the disk has as many from the running position on. */
    predicate HoleOnDisk(base: int, runs: seq<Run>)
      decreases |runs|
    {
      runs != [] &&
      var at := base + runs[0].offset;
      ((runs[0].offset == 0 && runs[0].length > 0 && disk.InRange(ByteOf(at), BytesIn(runs[0].length))) ||
       HoleOnDisk(at, runs[1..]))
    }

    lemma OneFetched(at: int, run: Run)
      requires RunReadable(at, run)
      requires run.offset == 0 && run.length > 0 ==> !disk.InRange(ByteOf(at), BytesIn(run.length))
      ensures Fetched(at, run.length) == RunBytes(at, run)
    {
      if run.length == 0 {
        NoneToRead(at);
        assert BytesIn(0) == 0 && Zeros(0) == [];
      }
    }

    /** Without such a run the two readings are the same. */
    lemma {:induction false} FetchedIsMeaning(base: int, runs: seq<Run>)
      requires Readable(base, runs) && !HoleOnDisk(base, runs)
      ensures FetchedAll(base, runs) == Meaning(base, runs)
      decreases |runs|
    {
      if runs != [] {
        var at := base + runs[0].offset;
        OneFetched(at, runs[0]);
        FetchedIsMeaning(at, runs[1..]);
      }
    }

    /** With one they differ on a disk of ones. */
    lemma {:induction false} OnesShowHole(base: int, runs: seq<Run>)
      requires clusterSizeB > 0 && Readable(base, runs) && HoleOnDisk(base, runs)
      requires forall b | b in disk.bytes :: b == 1
      ensures FetchedAll(base, runs) != Meaning(base, runs)
      decreases |runs|
    {
      hide BytesIn, ByteOf;
      var run, at := runs[0], base + runs[0].offset;
      var fetched, meant := Fetched(at, run.length), RunBytes(at, run);
      SplitEqual(fetched, FetchedAll(at, runs[1..]), meant, Meaning(at, runs[1..]));
      if run.offset == 0 && run.length > 0 && disk.InRange(ByteOf(at), BytesIn(run.length)) {
        WholeClusters(run.length);
        assert meant[0] == 0;
        assert fetched[0] in disk.bytes;
      } else {
        OnesShowHole(at, runs[1..]);
      }
    }

    // ---------- Both ----------

    /** A list without a single cluster means nothing and can always be read. */
    lemma {:induction false} NoClusters(base: int, runs: seq<Run>)
      requires TotalLength(runs) == 0
      ensures Readable(base, runs) && Meaning(base, runs) == []
      decreases |runs|
    {
      if runs != [] {
        NoClusters(base + runs[0].offset, runs[1..]);
      }
    }
  }

  /** A sparse run is zeros; any other run is the stretch of the disk that begins as many clusters behind the partition's
      start as the running sum says. */
  lemma WhereRunLies(vol: Volume, base: int, run: Run)
    ensures run.offset == 0 ==>
              vol.Readable(base, [run]) && vol.Meaning(base, [run]) == Zeros(run.length * vol.clusterSizeB)
    ensures var at := vol.partitionOffsetB + (base + run.offset) * vol.clusterSizeB;
            var size := run.length * vol.clusterSizeB;
            run.offset != 0 && base + run.offset >= 0 && 0 <= at && at + size <= |vol.disk.bytes| ==>
              vol.Readable(base, [run]) && vol.Meaning(base, [run]) == vol.disk.bytes[at..at + size]
  {
    vol.OneRun(base, run);
  }

  /** Three runs: the second, a hole, does not move the position, from which the third goes on. */
  lemma ThreeRuns(vol: Volume)
    requires vol == Volume(Disk([0, 1, 2, 3, 4, 5]), 1, 1)
    ensures vol.Readable(0, [Run(3, 1)] + [Run(0, 2)] + [Run(-1, 2)])
    ensures vol.Meaning(0, [Run(3, 1)] + [Run(0, 2)] + [Run(-1, 2)]) == [4, 0, 0, 3, 4]
  {
    var (a, b, c) := (Run(3, 1), Run(0, 2), Run(-1, 2));
    vol.OneRun(0, a);
    vol.OneRun(3, b);
    vol.OneRun(3, c);
    vol.MeaningAppend(0, [a], [b]);
    vol.MeaningAppend(0, [a] + [b], [c]);
    ShiftAppend([a], [b]);
    assert Shift([a]) == 3 && Shift([b]) == 0;
    assert vol.disk.bytes[4..5] == [4] && vol.disk.bytes[3..5] == [3, 4];
  }

  /** How far a list moves the cluster position. */
  function Shift(runs: seq<Run>): int
  {
    if runs == [] then 0 else runs[0].offset + Shift(runs[1..])
  }

  lemma {:induction false} ShiftAppend(a: seq<Run>, b: seq<Run>)
    ensures Shift(a + b) == Shift(a) + Shift(b)
    decreases |a|
  {
    if a == [] {
      assert a + b == b;
    } else {
      ShiftAppend(a[1..], b);
      assert (a + b)[1..] == a[1..] + b;
    }
  }

  /** None of the first n runs, other than the very first, is placed before cluster 0. */
  predicate NonNegative(runs: seq<Run>, n: nat)
    requires n <= |runs|
  {
    forall i | 1 < i <= n :: Shift(runs[..i]) >= 0
  }
}
