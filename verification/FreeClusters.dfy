/**
  Free clusters: the bitmap decoding loop (FS/NTFS/MFT/MFT.go) and the export of unallocated space in
  maximal runs (disk/disk.go).
*/
module FreeClusters {
  import opened Bytes
  import opened Readers
  import opened RunContents
  import opened Sorting

  // ---------- The bitmap ----------

  /** The mask of bit j. */
  function Mask(j: nat): byte
    requires j < 8
  {
    1 << j
  }

  predicate BitSet(b: byte, j: nat)
    requires j < 8
  {
    b & Mask(j) != 0
  }

  /** Bit 0 is the lowest. */
  lemma BitMasks(b: byte, j: nat)
    requires j < 8
    ensures BitSet(b, j) <==> b & [0x01, 0x02, 0x04, 0x08, 0x10, 0x20, 0x40, 0x80][j] != 0
  {
    assert j in {0, 1, 2, 3, 4, 5, 6, 7};
  }

  lemma MaskBelow128(j: nat)
    requires j < 8
    ensures Mask(j) < 128 <==> j < 7
  {
  }

  /** The status of the first n clusters: cluster 8i + j is allocated when bit j of byte i is set. */
  ghost predicate StatusUpTo(bitmap: seq<byte>, status: map<nat, bool>, n: nat)
    requires n <= 8 * |bitmap|
  {
    (forall c: nat :: c in status <==> c < n) &&
    forall c: nat | c < n :: c in status && (status[c] <==> BitSet(bitmap[c / 8], c % 8))
  }

  lemma NextStatus(bitmap: seq<byte>, status: map<nat, bool>, i: nat, j: nat)
    requires i < |bitmap| && j < 8 && StatusUpTo(bitmap, status, 8 * i + j)
    ensures StatusUpTo(bitmap, status[8 * i + j := BitSet(bitmap[i], j)], 8 * i + j + 1)
  {
    hide BitSet;
    assert (8 * i + j) / 8 == i && (8 * i + j) % 8 == j;
  }

  /** Decodes a bitmap with a mask that runs up to the top bit of each byte. */
  method GetClustersStatus(bitmap: seq<byte>) returns (status: map<nat, bool>)
    ensures StatusUpTo(bitmap, status, 8 * |bitmap|)
  {
    status := map[];
    assert StatusUpTo(bitmap, status, 0);
    hide BitSet, Mask, StatusUpTo;
    var pos := 0;
    for i := 0 to |bitmap|
      invariant pos == 8 * i
      invariant StatusUpTo(bitmap, status, pos)
    {
      var bitmask: byte := 0x01;
      var shifter := 0;
      while bitmask < 128
        invariant 0 <= shifter <= 8 && pos == 8 * i + shifter
        invariant bitmask < 128 <==> shifter < 8
        invariant StatusUpTo(bitmap, status, pos)
        decreases 8 - shifter
      {
        bitmask := Mask(shifter);
        MaskBelow128(shifter);
        BitByMask(bitmap[i], shifter);
        NextStatus(bitmap, status, i, shifter);
        status := status[pos := bitmap[i] & bitmask != 0x00];
        pos := pos + 1;
        shifter := shifter + 1;
      }
    }
  }

  lemma BitByMask(b: byte, j: nat)
    requires j < 8
    ensures b & Mask(j) != 0x00 <==> BitSet(b, j)
  {
  }

  function FreeSet(status: map<nat, bool>): set<nat>
  {
    set c | c in status && !status[c]
  }

  // ---------- Maximal runs ----------

  /** A block of count adjacent clusters. */
  datatype Block = Block(first: nat, count: nat)

  predicate InBlock(c: nat, b: Block)
  {
    b.first <= c < b.first + b.count
  }

  /** Blocks in ascending order, with a gap of at least one cluster between any two neighbours. */
  predicate Separated(blocks: seq<Block>)
  {
    (forall k | 0 <= k < |blocks| :: blocks[k].count > 0) &&
    forall k | 0 <= k < |blocks| - 1 :: blocks[k].first + blocks[k].count < blocks[k + 1].first
  }

  predicate Covered(blocks: seq<Block>, c: nat)
  {
    exists k | 0 <= k < |blocks| :: InBlock(c, blocks[k])
  }

  /** The maximal runs of a set: ascending, separated blocks that hold exactly its clusters. */
  ghost predicate MaximalRuns(blocks: seq<Block>, free: set<nat>)
  {
    Separated(blocks) && forall c: nat :: c in free <==> Covered(blocks, c)
  }

  /** Adjacent clusters from first on. */
  predicate IsStretch(s: seq<nat>, first: nat)
  {
    forall i | 0 <= i < |s| :: s[i] == first + i
  }

  function Upward(first: nat, count: nat): (s: seq<nat>)
    ensures |s| == count && IsStretch(s, first)
  {
    seq(count, i requires 0 <= i < count => first + i)
  }

  /** The clusters of the blocks, one after the other. */
  function Flatten(blocks: seq<Block>): seq<nat>
  {
    if blocks == [] then []
    else Flatten(blocks[..|blocks| - 1]) + Upward(blocks[|blocks| - 1].first, blocks[|blocks| - 1].count)
  }

  lemma FlattenSnoc(blocks: seq<Block>, b: Block)
    ensures Flatten(blocks + [b]) == Flatten(blocks) + Upward(b.first, b.count)
  {
    assert (blocks + [b])[..|blocks|] == blocks;
  }

  lemma {:induction false} FlattenCovers(blocks: seq<Block>, c: nat)
    ensures c in Flatten(blocks) <==> Covered(blocks, c)
  {
    if blocks != [] {
      var init, last := blocks[..|blocks| - 1], blocks[|blocks| - 1];
      FlattenCovers(init, c);
      var up := Upward(last.first, last.count);
      if InBlock(c, last) {
        assert up[c - last.first] == c;
      }
      assert c in Flatten(blocks) <==> c in Flatten(init) || c in up;
      if Covered(init, c) {
        var k :| 0 <= k < |init| && InBlock(c, init[k]);
        assert InBlock(c, blocks[k]);
      }
      if Covered(blocks, c) && !InBlock(c, last) {
        var k :| 0 <= k < |blocks| && InBlock(c, blocks[k]);
        assert InBlock(c, init[k]);
      }
    }
  }

  /** What is sent for a block: its clusters read at once, nothing if the read fails. */
  function ReadBlock(vol: Volume, b: Block): seq<byte>
  {
    vol.disk.ReadData(vol.ByteOf(b.first), vol.BytesIn(b.count))
  }

  ghost predicate SentFor(vol: Volume, blocks: seq<Block>, sent: seq<seq<byte>>)
  {
    |sent| == |blocks| && forall k | 0 <= k < |blocks| :: sent[k] == ReadBlock(vol, blocks[k])
  }

  /** After idx clusters: blocks are complete, the last blockSize clusters form the open block. */
  ghost predicate OpenBlock(clusters: seq<nat>, idx: nat, blockSize: nat, blocks: seq<Block>)
  {
    0 < blockSize <= idx <= |clusters| &&
    IsStretch(clusters[idx - blockSize..idx], clusters[idx - blockSize]) &&
    Flatten(blocks) == clusters[..idx - blockSize] &&
    Separated(blocks + [Block(clusters[idx - blockSize], blockSize)])
  }

  lemma OpenFirst(clusters: seq<nat>)
    requires clusters != []
    ensures OpenBlock(clusters, 1, 1, [])
  {
  }

  lemma SeparatedSnoc(blocks: seq<Block>, last: Block, next: Block)
    requires Separated(blocks + [last]) && next.count > 0 && last.first + last.count < next.first
    ensures Separated(blocks + [last] + [next])
  {
    var old', new' := blocks + [last], blocks + [last] + [next];
    forall k | 0 <= k < |new'| - 1
      ensures new'[k].first + new'[k].count < new'[k + 1].first
    {
      assert k < |blocks| ==> old'[k].first + old'[k].count < old'[k + 1].first;
    }
  }

  lemma SeparatedLonger(blocks: seq<Block>, last: Block)
    requires Separated(blocks + [last])
    ensures Separated(blocks + [last.(count := last.count + 1)])
  {
    var old', new' := blocks + [last], blocks + [last.(count := last.count + 1)];
    forall k | 0 <= k < |new'| - 1
      ensures new'[k].first + new'[k].count < new'[k + 1].first
    {
      assert old'[k].first + old'[k].count < old'[k + 1].first;
    }
    forall k | 0 <= k < |new'|
      ensures new'[k].count > 0
    {
      assert old'[k].count > 0;
    }
  }

  lemma StretchSnoc(s: seq<nat>, from: nat, idx: nat)
    requires from < idx < |s| && IsStretch(s[from..idx], s[from])
    ensures s[idx - 1] == s[from] + (idx - 1 - from)
    ensures s[idx] == s[idx - 1] + 1 ==> IsStretch(s[from..idx + 1], s[from])
  {
    assert s[from..idx][idx - 1 - from] == s[idx - 1];
    assert s[from..idx + 1] == s[from..idx] + [s[idx]];
  }

  lemma ExtendOpen(clusters: seq<nat>, idx: nat, blockSize: nat, blocks: seq<Block>)
    requires OpenBlock(clusters, idx, blockSize, blocks) && idx < |clusters| && StrictlyAscending(clusters)
    requires clusters[idx] <= clusters[idx - 1] + 1
    ensures OpenBlock(clusters, idx + 1, blockSize + 1, blocks)
  {
    hide Flatten, StrictlyAscending, Separated, IsStretch;
    NextIsLarger(clusters, idx - 1, idx);
    StretchSnoc(clusters, idx - blockSize, idx);
    SeparatedLonger(blocks, Block(clusters[idx - blockSize], blockSize));
  }

  lemma NextIsLarger(clusters: seq<nat>, i: nat, j: nat)
    requires StrictlyAscending(clusters) && i < j < |clusters|
    ensures clusters[i] < clusters[j]
  {
  }

  /** The open block, complete. */
  lemma CloseOpen(clusters: seq<nat>, idx: nat, blockSize: nat, blocks: seq<Block>)
    requires OpenBlock(clusters, idx, blockSize, blocks)
    ensures Flatten(blocks + [Block(clusters[idx - blockSize], blockSize)]) == clusters[..idx]
  {
    var first := clusters[idx - blockSize];
    FlattenSnoc(blocks, Block(first, blockSize));
    assert clusters[idx - blockSize..idx] == Upward(first, blockSize);
    assert clusters[..idx] == clusters[..idx - blockSize] + clusters[idx - blockSize..idx];
  }

  lemma StartNext(clusters: seq<nat>, idx: nat, blockSize: nat, blocks: seq<Block>)
    requires OpenBlock(clusters, idx, blockSize, blocks) && idx < |clusters|
    requires clusters[idx] > clusters[idx - 1] + 1
    ensures OpenBlock(clusters, idx + 1, 1, blocks + [Block(clusters[idx - blockSize], blockSize)])
  {
    hide Flatten, Separated;
    CloseOpen(clusters, idx, blockSize, blocks);
    StretchSnoc(clusters, idx - blockSize, idx);
    SeparatedSnoc(blocks, Block(clusters[idx - blockSize], blockSize), Block(clusters[idx], 1));
    assert clusters[idx..idx + 1] == [clusters[idx]];
  }

  /** Sends the clusters of a sorted list, adjacent ones in one block, by counting back from the index. */
  method SendBlocks(vol: Volume, unallocatedClusters: seq<nat>) returns (sent: seq<seq<byte>>)
    requires unallocatedClusters != [] && StrictlyAscending(unallocatedClusters)
    ensures exists blocks | Separated(blocks) && Flatten(blocks) == unallocatedClusters :: SentFor(vol, blocks, sent)
  {
    hide OpenBlock, Flatten, Separated, StrictlyAscending, ReadBlock;
    var clusters := unallocatedClusters;
    sent := [];
    ghost var blocks: seq<Block> := [];
    var blockSize := 1;
    var prevClusterOffset := clusters[0];
    OpenFirst(clusters);
    for idx := 1 to |clusters|
      invariant 0 < blockSize <= idx && prevClusterOffset == clusters[idx - 1]
      invariant OpenBlock(clusters, idx, blockSize, blocks)
      invariant SentFor(vol, blocks, sent)
    {
      var unallocatedCluster := clusters[idx];
      if unallocatedCluster <= prevClusterOffset + 1 {
        ExtendOpen(clusters, idx, blockSize, blocks);
        blockSize := blockSize + 1;
      } else {
        StartNext(clusters, idx, blockSize, blocks);
        var firstBlockCluster := clusters[idx - blockSize];
        sent := sent + [ReadBlock(vol, Block(firstBlockCluster, blockSize))];
        blocks := blocks + [Block(firstBlockCluster, blockSize)];
        blockSize := 1;
      }
      prevClusterOffset := unallocatedCluster;
    }
    CloseOpen(clusters, |clusters|, blockSize, blocks);
    OpenIsSeparated(clusters, |clusters|, blockSize, blocks);
    var firstBlockCluster := clusters[|clusters| - blockSize];
    sent := sent + [ReadBlock(vol, Block(firstBlockCluster, blockSize))];
    blocks := blocks + [Block(firstBlockCluster, blockSize)];
    assert clusters[..|clusters|] == clusters;
  }

  lemma OpenIsSeparated(clusters: seq<nat>, idx: nat, blockSize: nat, blocks: seq<Block>)
    requires OpenBlock(clusters, idx, blockSize, blocks)
    ensures Separated(blocks + [Block(clusters[idx - blockSize], blockSize)])
  {
  }

  // ---------- The export ----------

  /** The keys of a map whose value is false, in whatever order the map gives them. */
  method FreeKeys(status: map<nat, bool>) returns (r: seq<nat>)
    ensures NoRepeats(r) && forall c :: c in r <==> c in FreeSet(status)
  {
    r := [];
    var keys := status.Keys;
    while keys != {}
      invariant keys <= status.Keys && NoRepeats(r)
      invariant forall c :: c in r <==> c in FreeSet(status) && c !in keys
      decreases keys
    {
      var cluster :| cluster in keys;
      keys := keys - {cluster};
      if !status[cluster] {
        r := r + [cluster];
      }
    }
  }

  /** Exports a volume's free clusters: one read for each maximal run, in ascending order. */
  method CollectUnallocated(vol: Volume, status: map<nat, bool>) returns (sent: seq<seq<byte>>)
    ensures exists blocks | MaximalRuns(blocks, FreeSet(status)) :: SentFor(vol, blocks, sent)
  {
    hide Separated, Covered, ReadBlock, SortInts, Flatten, NoRepeats;
    var unallocatedClusters := FreeKeys(status);
    if |unallocatedClusters| == 0 {
      NoBlocks();
      assert forall c :: c !in FreeSet(status);
      assert MaximalRuns([], FreeSet(status)) && SentFor(vol, [], []);
      return [];
    }
    var sorted := SortInts(unallocatedClusters);
    assert unallocatedClusters[0] in sorted;
    sent := SendBlocks(vol, sorted);
    ghost var blocks :| Separated(blocks) && Flatten(blocks) == sorted && SentFor(vol, blocks, sent);
    forall c: nat
      ensures c in FreeSet(status) <==> Covered(blocks, c)
    {
      FlattenCovers(blocks, c);
    }
    assert MaximalRuns(blocks, FreeSet(status));
  }

  lemma NoBlocks()
    ensures Separated([]) && forall c :: !Covered([], c)
  {
  }

  // ---------- What the runs are ----------

  /** A set has only one list of maximal runs. */
  lemma {:induction false} MaximalRunsUnique(a: seq<Block>, b: seq<Block>, free: set<nat>)
    requires MaximalRuns(a, free) && MaximalRuns(b, free)
    ensures a == b
    decreases |a|
  {
    NoBlocksNoClusters(a, free);
    NoBlocksNoClusters(b, free);
    if a != [] {
      FirstBlockIs(a, free);
      FirstBlockIs(b, free);
      var x, y := a[0], b[0];
      assert x.first == y.first;
      assert !InBlock(x.first + x.count, y) && !InBlock(y.first + y.count, x);
      var rest := set c | c in free && !InBlock(c, x);
      TailRuns(a, free, rest);
      TailRuns(b, free, rest);
      MaximalRunsUnique(a[1..], b[1..], rest);
    }
  }

  lemma NoBlocksNoClusters(blocks: seq<Block>, free: set<nat>)
    requires MaximalRuns(blocks, free)
    ensures blocks == [] <==> free == {}
  {
    if blocks == [] {
      assert forall c :: c !in free;
    } else {
      assert InBlock(blocks[0].first, blocks[0]);
      assert Covered(blocks, blocks[0].first);
    }
  }

  lemma {:induction false} LaterBlocks(blocks: seq<Block>, k: nat)
    requires Separated(blocks) && 0 < k < |blocks|
    ensures blocks[0].first + blocks[0].count < blocks[k].first
    decreases k
  {
    assert blocks[k - 1].first + blocks[k - 1].count < blocks[k].first;
    if k > 1 {
      LaterBlocks(blocks, k - 1);
    }
  }

  /** The first block starts at the least cluster, and the cluster after it is not in the set. */
  lemma FirstBlockIs(blocks: seq<Block>, free: set<nat>)
    requires MaximalRuns(blocks, free) && blocks != []
    ensures var b := blocks[0];
            b.first in free && (forall c | c in free :: b.first <= c) &&
            (forall c: nat | InBlock(c, b) :: c in free) && b.first + b.count !in free
  {
    var b := blocks[0];
    forall c: nat | InBlock(c, b)
      ensures c in free
    {
      assert Covered(blocks, c);
    }
    assert InBlock(b.first, b);
    forall c: nat | Covered(blocks, c)
      ensures b.first <= c && c != b.first + b.count
    {
      var k :| 0 <= k < |blocks| && InBlock(c, blocks[k]);
      if k > 0 {
        LaterBlocks(blocks, k);
      }
    }
  }

  lemma TailRuns(blocks: seq<Block>, free: set<nat>, rest: set<nat>)
    requires MaximalRuns(blocks, free) && blocks != []
    requires rest == set c | c in free && !InBlock(c, blocks[0])
    ensures MaximalRuns(blocks[1..], rest)
  {
    var tail := blocks[1..];
    forall k | 0 <= k < |tail| - 1
      ensures tail[k].first + tail[k].count < tail[k + 1].first
    {
      assert blocks[k + 1].first + blocks[k + 1].count < blocks[k + 2].first;
    }
    forall c: nat
      ensures c in rest <==> Covered(tail, c)
    {
      if Covered(tail, c) {
        var k :| 0 <= k < |tail| && InBlock(c, tail[k]);
        LaterBlocks(blocks, k + 1);
        assert InBlock(c, blocks[k + 1]);
        assert Covered(blocks, c);
      }
      if c in rest {
        var k :| 0 <= k < |blocks| && InBlock(c, blocks[k]);
        assert InBlock(c, tail[k - 1]);
      }
    }
  }

  // ---------- The bytes sent ----------

  function Concat(pieces: seq<seq<byte>>): seq<byte>
  {
    if pieces == [] then [] else Concat(pieces[..|pieces| - 1]) + pieces[|pieces| - 1]
  }

  /** The clusters of a list read one by one. */
  function OneByOne(vol: Volume, clusters: seq<nat>): seq<byte>
    requires forall c | c in clusters :: vol.HasClusters(c, 1)
  {
    if clusters == [] then []
    else OneByOne(vol, clusters[..|clusters| - 1]) + vol.Clusters(clusters[|clusters| - 1], 1)
  }

  lemma {:induction false} OneByOneAppend(vol: Volume, a: seq<nat>, b: seq<nat>)
    requires forall c | c in a + b :: vol.HasClusters(c, 1)
    ensures OneByOne(vol, a + b) == OneByOne(vol, a) + OneByOne(vol, b)
    decreases |b|
  {
    hide vol.HasClusters, vol.Clusters;
    assert forall c | c in a :: c in a + b;
    assert forall c | c in b :: c in a + b;
    if b == [] {
      assert a + b == a && OneByOne(vol, a) + [] == OneByOne(vol, a);
    } else {
      var init, last := b[..|b| - 1], b[|b| - 1];
      assert (a + b)[..|a + b| - 1] == a + init && (a + b)[|a + b| - 1] == last;
      assert forall c | c in a + init :: c in a + b;
      OneByOneAppend(vol, a, init);
      assert (OneByOne(vol, a) + OneByOne(vol, init)) + vol.Clusters(last, 1) ==
             OneByOne(vol, a) + (OneByOne(vol, init) + vol.Clusters(last, 1));
    }
  }

  /** A block read at once is its clusters read one by one. */
  lemma {:induction false} BlockOneByOne(vol: Volume, first: nat, count: nat)
    requires vol.clusterSizeB > 0 && forall c | c in Upward(first, count) :: vol.HasClusters(c, 1)
    ensures vol.HasClusters(first, count)
    ensures OneByOne(vol, Upward(first, count)) == vol.Clusters(first, count)
    decreases count
  {
    hide vol.HasClusters, vol.Clusters;
    vol.NoneToRead(first);
    if count > 0 {
      var up, init := Upward(first, count), Upward(first, count - 1);
      assert up[..count - 1] == init && up[count - 1] == first + (count - 1);
      assert forall c | c in init :: c in up;
      BlockOneByOne(vol, first, count - 1);
      assert first + (count - 1) in up;
      if count > 1 {
        vol.JoinClusters(first, count - 1, 1);
      } else {
        assert [] + vol.Clusters(first, 1) == vol.Clusters(first, 1);
      }
    }
  }

  lemma BlockRead(vol: Volume, b: Block)
    requires vol.HasClusters(b.first, b.count) && b.count > 0
    ensures ReadBlock(vol, b) == vol.Clusters(b.first, b.count)
  {
  }

  /** The export is exact: what is sent, put together, is the free clusters read one by one in order. */
  lemma {:induction false} ExportIsOneByOne(vol: Volume, blocks: seq<Block>, sent: seq<seq<byte>>)
    requires vol.clusterSizeB > 0 && Separated(blocks) && SentFor(vol, blocks, sent)
    requires forall c | c in Flatten(blocks) :: vol.HasClusters(c, 1)
    ensures Concat(sent) == OneByOne(vol, Flatten(blocks))
    decreases |blocks|
  {
    hide vol.HasClusters, vol.Clusters, ReadBlock;
    if blocks != [] {
      var init, last := blocks[..|blocks| - 1], blocks[|blocks| - 1];
      var up := Upward(last.first, last.count);
      assert forall c | c in Flatten(init) :: c in Flatten(blocks);
      assert forall c | c in up :: c in Flatten(blocks);
      SeparatedPrefix(blocks);
      ExportIsOneByOne(vol, init, sent[..|sent| - 1]);
      OneByOneAppend(vol, Flatten(init), up);
      BlockOneByOne(vol, last.first, last.count);
      BlockRead(vol, last);
    }
  }

  lemma SeparatedPrefix(blocks: seq<Block>)
    requires Separated(blocks) && blocks != []
    ensures Separated(blocks[..|blocks| - 1]) && blocks[|blocks| - 1].count > 0
  {
    var init := blocks[..|blocks| - 1];
    forall k | 0 <= k < |init| - 1
      ensures init[k].first + init[k].count < init[k + 1].first
    {
      assert blocks[k].first + blocks[k].count < blocks[k + 1].first;
    }
  }
}
