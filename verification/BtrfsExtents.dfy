/** The extents of a file and their grouping into adjacent stretches (FS/BTRFS/filedirentry.go). */
module BtrfsExtents {
  import opened BtrfsInodes
  import opened BtrfsNodes
  import opened MapOrder
  import opened Sorting

  // ---------- The extents in item order ----------

  /** An extent and where in the file it begins. */
  datatype FileExtent = FileExtent(fileOffset: nat, extent: Extent)

  predicate IsFileExtent(item: Key, dataItem: DataItem)
  {
    item.itemType == EXTENT_DATA && dataItem.ExtentData?
  }

  function FileExtents(items: seq<Key>, dataItems: seq<DataItem>): seq<FileExtent>
    requires |items| == |dataItems|
  {
    if items == [] then []
    else
      var n := |items| - 1;
      FileExtents(items[..n], dataItems[..n]) +
      if IsFileExtent(items[n], dataItems[n]) then [FileExtent(items[n].offset, dataItems[n].extent)] else []
  }

  function Extents(fes: seq<FileExtent>): (r: seq<Extent>)
    ensures |r| == |fes|
  {
    seq(|fes|, k requires 0 <= k < |fes| => fes[k].extent)
  }

  lemma NextItem(items: seq<Key>, dataItems: seq<DataItem>, n: nat)
    requires |items| == |dataItems| && n < |items|
    ensures FileExtents(items[..n + 1], dataItems[..n + 1]) ==
            if IsFileExtent(items[n], dataItems[n])
            then FileExtents(items[..n], dataItems[..n]) + [FileExtent(items[n].offset, dataItems[n].extent)]
            else FileExtents(items[..n], dataItems[..n])
  {
    assert items[..n + 1][..n] == items[..n] && dataItems[..n + 1][..n] == dataItems[..n];
  }

  method GetExtents(entry: FileDirEntry) returns (extents: seq<Extent>)
    requires |entry.items| == |entry.dataItems|
    ensures extents == Extents(FileExtents(entry.items, entry.dataItems))
  {
    hide FileExtents;
    extents := [];
    NoItems();
    for idx := 0 to |entry.items|
      invariant extents == Extents(FileExtents(entry.items[..idx], entry.dataItems[..idx]))
    {
      NextItem(entry.items, entry.dataItems, idx);
      if entry.items[idx].itemType != EXTENT_DATA {
        continue;
      }
      if !entry.dataItems[idx].ExtentData? {
        continue;
      }
      extents := extents + [entry.dataItems[idx].extent];
    }
    assert entry.items[..|entry.items|] == entry.items && entry.dataItems[..|entry.items|] == entry.dataItems;
  }

  lemma NoItems()
    ensures FileExtents([], []) == []
  {
  }

  // ---------- The extents by file offset ----------

  /** Items of type 0x6C whose data is an extent count, at their key's offset, and no others. */
  lemma WhichItemsCount(x: Extent, y: Extent)
    ensures FileExtents([Key(5, 0x6C, 4096), Key(5, 0x60, 7), Key(5, 0x6C, 8)], [ExtentData(x), ExtentData(y), OtherData([])]) ==
            [FileExtent(4096, x)]
  {
    var items := [Key(5, 0x6C, 4096), Key(5, 0x60, 7), Key(5, 0x6C, 8)];
    var data := [ExtentData(x), ExtentData(y), OtherData([])];
    assert items[..3] == items && data[..3] == data && items[..0] == [] && data[..0] == [];
    NoItems();
    NextItem(items, data, 0);
    NextItem(items, data, 1);
    NextItem(items, data, 2);
  }

  /** A map holds, for every offset that occurs, the last extent filed under it. */
  ghost predicate LastByOffset(m: map<nat, Extent>, fes: seq<FileExtent>)
  {
    (forall fe | fe in fes :: fe.fileOffset in m) &&
    forall offset | offset in m :: exists k | 0 <= k < |fes| ::
      fes[k] == FileExtent(offset, m[offset]) && forall j | k < j < |fes| :: fes[j].fileOffset != offset
  }

  lemma LastByOffsetSnoc(m: map<nat, Extent>, fes: seq<FileExtent>, fe: FileExtent)
    requires LastByOffset(m, fes)
    ensures LastByOffset(m[fe.fileOffset := fe.extent], fes + [fe])
  {
    var longer, m' := fes + [fe], m[fe.fileOffset := fe.extent];
    forall offset | offset in m'
      ensures exists k | 0 <= k < |longer| ::
                longer[k] == FileExtent(offset, m'[offset]) && forall j | k < j < |longer| :: longer[j].fileOffset != offset
    {
      if offset == fe.fileOffset {
        assert longer[|fes|] == FileExtent(offset, m'[offset]);
      } else {
        var k :| 0 <= k < |fes| && fes[k] == FileExtent(offset, m[offset]) &&
                 forall j | k < j < |fes| :: fes[j].fileOffset != offset;
        assert longer[k] == FileExtent(offset, m'[offset]);
      }
    }
  }

  method GetExtentsMap(entry: FileDirEntry) returns (extentsMap: map<nat, Extent>)
    requires |entry.items| == |entry.dataItems|
    ensures LastByOffset(extentsMap, FileExtents(entry.items, entry.dataItems))
  {
    hide FileExtents, LastByOffset;
    extentsMap := map[];
    NoItems();
    NothingFiled();
    for idx := 0 to |entry.items|
      invariant LastByOffset(extentsMap, FileExtents(entry.items[..idx], entry.dataItems[..idx]))
    {
      NextItem(entry.items, entry.dataItems, idx);
      if entry.items[idx].itemType != EXTENT_DATA {
        continue;
      }
      if !entry.dataItems[idx].ExtentData? {
        continue;
      }
      LastByOffsetSnoc(extentsMap, FileExtents(entry.items[..idx], entry.dataItems[..idx]),
                       FileExtent(entry.items[idx].offset, entry.dataItems[idx].extent));
      extentsMap := extentsMap[entry.items[idx].offset := entry.dataItems[idx].extent];
    }
    assert entry.items[..|entry.items|] == entry.items && entry.dataItems[..|entry.items|] == entry.dataItems;
  }

  lemma NothingFiled()
    ensures LastByOffset(map[], [])
  {
  }

  /** A list holds a map's extents by ascending file offset. */
  ghost predicate InOffsetOrder(extents: seq<Extent>, m: map<nat, Extent>, offsets: seq<nat>)
  {
    StrictlyAscending(offsets) && (forall offset :: offset in offsets <==> offset in m) && |extents| == |offsets| &&
    forall k | 0 <= k < |offsets| :: offsets[k] in m && extents[k] == m[offsets[k]]
  }

  function Offsets(fes: seq<FileExtent>): (r: seq<nat>)
    ensures |r| == |fes|
  {
    seq(|fes|, k requires 0 <= k < |fes| => fes[k].fileOffset)
  }

  /** Extents whose items already come in file order are the same either way. */
  lemma FileOrder(extents: seq<Extent>, m: map<nat, Extent>, offsets: seq<nat>, fes: seq<FileExtent>)
    requires LastByOffset(m, fes) && InOffsetOrder(extents, m, offsets) && StrictlyAscending(Offsets(fes))
    ensures extents == Extents(fes)
  {
    var sorted := Offsets(fes);
    forall offset
      ensures offset in sorted <==> offset in offsets
    {
      if offset in sorted {
        var k :| 0 <= k < |fes| && sorted[k] == offset;
        assert fes[k] in fes;
      }
      if offset in offsets {
        var k :| 0 <= k < |fes| && fes[k] == FileExtent(offset, m[offset]);
        assert sorted[k] == offset;
      }
    }
    AscendingUnique(sorted, offsets);
    forall k | 0 <= k < |fes|
      ensures extents[k] == fes[k].extent
    {
      assert offsets[k] == sorted[k] == fes[k].fileOffset;
      var j :| 0 <= j < |fes| && fes[j] == FileExtent(offsets[k], m[offsets[k]]);
      assert sorted[j] == sorted[k];
    }
  }

  // ---------- Groups ----------

  /** An extent that begins where its predecessor's ends, is used from its beginning and is no hole. */
  predicate Joins(prev: Extent, cur: Extent)
  {
    prev.logicalAddress + prev.lSize == cur.logicalAddress && cur.offset == 0 && cur.logicalAddress != 0
  }

  /** A non-empty list of extents each of which joins its predecessor. */
  predicate IsGroup(g: seq<Extent>)
  {
    g != [] && forall i | 0 < i < |g| :: Joins(g[i - 1], g[i])
  }

  predicate Apart(g: seq<Extent>, h: seq<Extent>)
  {
    g != [] && h != [] && !Joins(g[|g| - 1], h[0])
  }

  /** Groups that do not join each other. */
  predicate AreGroups(groups: seq<seq<Extent>>)
  {
    (forall k | 0 <= k < |groups| :: IsGroup(groups[k])) &&
    forall k | 0 < k < |groups| :: Apart(groups[k - 1], groups[k])
  }

  /** A group goes on at the very next address, not behind a gap, not with an extent used from its middle and not with a
      hole; but its head may be used from its middle or be a hole. */
  lemma WhereGroupsEnd(a: nat)
    requires a > 0
    ensures AreGroups([[Extent(a, 4, 16), Extent(a + 16, 0, 8)], [Extent(a + 24, 1, 8)], [Extent(a + 33, 0, 8)],
                       [Extent(0, 0, 8)], [Extent(0, 0, a), Extent(a, 0, 8)], [Extent(0, 0, 0)], [Extent(0, 0, 8)]])
  {
  }

  function Flatten(groups: seq<seq<Extent>>): seq<Extent>
  {
    if groups == [] then [] else Flatten(groups[..|groups| - 1]) + groups[|groups| - 1]
  }

  lemma FlattenSnoc(groups: seq<seq<Extent>>, g: seq<Extent>)
    ensures Flatten(groups + [g]) == Flatten(groups) + g
  {
    assert (groups + [g])[..|groups|] == groups;
  }

  lemma LastExtent(groups: seq<seq<Extent>>, g: seq<Extent>)
    requires g != []
    ensures var f := Flatten(groups + [g]); f != [] && f[|f| - 1] == g[|g| - 1]
  {
    FlattenSnoc(groups, g);
  }

  /** A list can be cut into such groups in one way only. */
  lemma {:induction false} GroupsUnique(a: seq<seq<Extent>>, b: seq<seq<Extent>>)
    requires AreGroups(a) && AreGroups(b) && Flatten(a) == Flatten(b)
    ensures a == b
    decreases |a|
  {
    NoGroups(a);
    NoGroups(b);
    if a != [] && b != [] {
      var a', g, b', h := a[..|a| - 1], a[|a| - 1], b[..|b| - 1], b[|b| - 1];
      assert a == a' + [g] && b == b' + [h];
      GroupsAreGroups(a', g);
      GroupsAreGroups(b', h);
      if |g| < |h| {
        LongerLastGroup(b', h, a', g);
        assert false;
      }
      if |h| < |g| {
        LongerLastGroup(a', g, b', h);
        assert false;
      }
      var f := Flatten(a);
      assert g == f[|f| - |g|..] == h && Flatten(a') == f[..|f| - |g|] == Flatten(b');
      GroupsUnique(a', b');
    }
  }

  lemma GroupsAreGroups(groups: seq<seq<Extent>>, g: seq<Extent>)
    requires AreGroups(groups + [g])
    ensures AreGroups(groups) && IsGroup(g)
  {
    var all := groups + [g];
    assert IsGroup(all[|groups|]);
    forall k | 0 <= k < |groups|
      ensures IsGroup(groups[k])
      ensures k > 0 ==> Apart(groups[k - 1], groups[k])
    {
      assert IsGroup(all[k]) && all[k] == groups[k];
      assert k > 0 ==> Apart(all[k - 1], all[k]);
    }
  }

  lemma NoGroups(groups: seq<seq<Extent>>)
    requires AreGroups(groups)
    ensures groups == [] <==> Flatten(groups) == []
  {
    assert groups != [] ==> IsGroup(groups[|groups| - 1]);
  }

  /** The last group cannot be longer in one cut than in another. */
  lemma LongerLastGroup(a: seq<seq<Extent>>, g: seq<Extent>, b: seq<seq<Extent>>, h: seq<Extent>)
    requires IsGroup(g) && h != [] && (forall k | 0 <= k < |b| :: b[k] != [])
    requires Flatten(a) + g == Flatten(b) + h && |h| < |g|
    ensures !AreGroups(b + [h])
  {
    var f, n := Flatten(a) + g, |Flatten(b)|;
    var i := n - |Flatten(a)|;
    assert g[i] == f[n] == h[0] && g[i - 1] == f[n - 1] == Flatten(b)[n - 1];
    assert Joins(g[i - 1], g[i]);
    assert b != [];
    var last := b[|b| - 1];
    assert last == (b + [h])[|b| - 1] && b == b[..|b| - 1] + [last];
    LastExtent(b[..|b| - 1], last);
    assert !Apart((b + [h])[|b| - 1], (b + [h])[|b|]);
  }

  /** The closed groups and the open one cover the first extents; the open one joins on. */
  ghost predicate Grouped(extents: seq<Extent>, n: nat, groups: seq<seq<Extent>>, current: seq<Extent>)
  {
    n <= |extents| && Flatten(groups) + current == extents[..n] &&
    if n == 0 then groups == [] && current == [] else AreGroups(groups + [current])
  }

  lemma NextJoins(extents: seq<Extent>, n: nat, groups: seq<seq<Extent>>, current: seq<Extent>)
    requires Grouped(extents, n, groups, current) && n < |extents|
    requires n == 0 || Joins(extents[n - 1], extents[n])
    ensures Grouped(extents, n + 1, groups, current + [extents[n]])
  {
    assert extents[..n + 1] == extents[..n] + [extents[n]];
    var g := current + [extents[n]];
    if n > 0 {
      assert IsGroup((groups + [current])[|groups|]);
      assert current[|current| - 1] == extents[..n][n - 1];
      var longer, before := groups + [g], groups + [current];
      forall k | 0 <= k < |longer|
        ensures IsGroup(longer[k])
        ensures k > 0 ==> Apart(longer[k - 1], longer[k])
      {
        assert IsGroup(before[k]) && (k > 0 ==> Apart(before[k - 1], before[k]));
      }
    }
  }

  lemma NextStarts(extents: seq<Extent>, n: nat, groups: seq<seq<Extent>>, current: seq<Extent>)
    requires Grouped(extents, n, groups, current) && 0 < n < |extents|
    requires !Joins(extents[n - 1], extents[n])
    ensures Grouped(extents, n + 1, groups + [current], [extents[n]])
  {
    assert extents[..n + 1] == extents[..n] + [extents[n]];
    FlattenSnoc(groups, current);
    assert IsGroup((groups + [current])[|groups|]);
    assert current[|current| - 1] == extents[..n][n - 1];
    var before, longer := groups + [current], groups + [current] + [[extents[n]]];
    forall k | 0 <= k < |longer|
      ensures IsGroup(longer[k])
      ensures k > 0 ==> Apart(longer[k - 1], longer[k])
    {
      if k < |before| {
        assert IsGroup(before[k]) && (k > 0 ==> Apart(before[k - 1], before[k]));
      }
    }
  }

  /** The map's keys in whatever order the map gives them. */
  method ListKeys(m: map<nat, Extent>) returns (r: seq<nat>)
    ensures NoRepeats(r) && forall offset :: offset in r <==> offset in m
  {
    r := [];
    var rest := m.Keys;
    while rest != {}
      invariant rest <= m.Keys && NoRepeats(r)
      invariant forall offset :: offset in r <==> offset in m && offset !in rest
      decreases |rest|
    {
      var offset := Pick(rest);
      rest, r := rest - {offset}, r + [offset];
    }
  }

  /** Cuts a file's extents, by ascending file offset, into maximal adjacent groups. */
  method GetGroupedExtents(entry: FileDirEntry)
    returns (groupedExtents: seq<seq<Extent>>, ghost m: map<nat, Extent>, ghost offsets: seq<nat>)
    requires |entry.items| == |entry.dataItems|
    ensures LastByOffset(m, FileExtents(entry.items, entry.dataItems))
    ensures AreGroups(groupedExtents) && InOffsetOrder(Flatten(groupedExtents), m, offsets)
  {
    hide FileExtents, LastByOffset, Flatten, AreGroups, SortInts, Grouped, Joins, StrictlyAscending, NoRepeats, InOffsetOrder;
    var extentsMap := GetExtentsMap(entry);
    var logicalOffsetsInfile := ListKeys(extentsMap);
    logicalOffsetsInfile := SortInts(logicalOffsetsInfile);
    assert forall k | 0 <= k < |logicalOffsetsInfile| :: logicalOffsetsInfile[k] in logicalOffsetsInfile;
    var extents: seq<Extent> := [];
    groupedExtents := [];
    m, offsets := extentsMap, logicalOffsetsInfile;
    ghost var all := ByOffset(m, offsets);
    NothingGrouped(all);
    for idx := 0 to |logicalOffsetsInfile|
      invariant Grouped(all, idx, groupedExtents, extents)
    {
      var cur := extentsMap[logicalOffsetsInfile[idx]];
      if idx == 0 || Joins(extentsMap[logicalOffsetsInfile[idx - 1]], cur) {
        NextJoins(all, idx, groupedExtents, extents);
        extents := extents + [cur];
      } else {
        NextStarts(all, idx, groupedExtents, extents);
        groupedExtents := groupedExtents + [extents];
        extents := [cur];
      }
    }
    AllGrouped(all, groupedExtents, extents);
    InOrder(m, offsets);
    if |extents| > 0 {
      groupedExtents := groupedExtents + [extents];
    }
  }

  /** The extents of a map at a list of its keys. */
  ghost function ByOffset(m: map<nat, Extent>, offsets: seq<nat>): (r: seq<Extent>)
    requires forall k | 0 <= k < |offsets| :: offsets[k] in m
    ensures |r| == |offsets| && forall k | 0 <= k < |offsets| :: r[k] == m[offsets[k]]
  {
    seq(|offsets|, k requires 0 <= k < |offsets| => m[offsets[k]])
  }

  lemma InOrder(m: map<nat, Extent>, offsets: seq<nat>)
    requires StrictlyAscending(offsets) && forall offset :: offset in offsets <==> offset in m
    requires forall k | 0 <= k < |offsets| :: offsets[k] in m
    ensures InOffsetOrder(ByOffset(m, offsets), m, offsets)
  {
  }

  lemma NothingGrouped(extents: seq<Extent>)
    ensures Grouped(extents, 0, [], [])
  {
  }

  lemma AllGrouped(extents: seq<Extent>, groups: seq<seq<Extent>>, current: seq<Extent>)
    requires Grouped(extents, |extents|, groups, current)
    ensures var r := if |current| > 0 then groups + [current] else groups; AreGroups(r) && Flatten(r) == extents
  {
    FlattenSnoc(groups, current);
    if |extents| > 0 {
      assert IsGroup((groups + [current])[|groups|]);
    }
  }
}
