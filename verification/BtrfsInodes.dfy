/** Grouping leaf items into one entry per inode (FS/BTRFS/btrfs.go, FS/BTRFS/filedirentry.go). */
module BtrfsInodes {
  import opened BtrfsNodes
  import opened BtrfsWalk
  import opened Wrappers

  /** What is known of an inode. Parent and children are the inode numbers they were filed under. */
  datatype FileDirEntry = FileDirEntry(id: nat, index: nat, parent: Option<nat>, children: seq<nat>,
                                       items: seq<Key>, dataItems: seq<DataItem>)

  const NO_ENTRY := FileDirEntry(0, 0, None, [], [], [])

  /** An item with its data, as it comes out of a leaf. */
  datatype Piece = Piece(key: Key, data: DataItem)

  predicate IsInodeItem(p: Piece, inode: nat)
  {
    p.key.itemType == INODE_ITEM && p.key.objectId == inode
  }

  predicate IsHandled(itemType: nat)
  {
    itemType in {INODE_ITEM, DIR_ITEM, DIR_INDEX, INODE_REF, EXTENT_DATA}
  }

  // ---------- The entry a stream of items gives an inode ----------

  /** The place of an inode's last INODE_ITEM, or the beginning of the stream. */
  function Start(s: seq<Piece>, inode: nat): (k: nat)
    ensures k <= |s|
  {
    if s == [] then 0
    else if IsInodeItem(s[|s| - 1], inode) then |s| - 1
    else Start(s[..|s| - 1], inode)
  }

  lemma {:induction false} StartIsLast(s: seq<Piece>, inode: nat)
    ensures forall k | Start(s, inode) < k < |s| :: !IsInodeItem(s[k], inode)
    ensures Start(s, inode) > 0 ==> Start(s, inode) < |s| && IsInodeItem(s[Start(s, inode)], inode)
    ensures Start(s, inode) == 0 ==> forall k | 0 < k < |s| :: !IsInodeItem(s[k], inode)
  {
    if s != [] {
      StartIsLast(s[..|s| - 1], inode);
    }
  }

  /** The handled items with an inode's object id. */
  function Own(s: seq<Piece>, inode: nat): seq<Piece>
  {
    if s == [] then []
    else
      var last := s[|s| - 1];
      Own(s[..|s| - 1], inode) + if IsHandled(last.key.itemType) && last.key.objectId == inode then [last] else []
  }

  predicate NamesChild(p: Piece, inode: nat)
  {
    p.key.itemType == INODE_REF && p.key.offset == inode && p.key.objectId != inode
  }

  /** The inodes that refer to an inode as their parent, without itself. */
  function Children(s: seq<Piece>, inode: nat): seq<nat>
  {
    if s == [] then []
    else
      var last := s[|s| - 1];
      Children(s[..|s| - 1], inode) + if NamesChild(last, inode) then [last.key.objectId] else []
  }

  /** The offset of the last item of a type. */
  function LastOffset(own: seq<Piece>, itemType: nat): Option<nat>
  {
    if own == [] then None
    else if own[|own| - 1].key.itemType == itemType then Some(own[|own| - 1].key.offset)
    else LastOffset(own[..|own| - 1], itemType)
  }

  function Keys(s: seq<Piece>): (r: seq<Key>)
    ensures |r| == |s|
  {
    seq(|s|, k requires 0 <= k < |s| => s[k].key)
  }

  function Data(s: seq<Piece>): (r: seq<DataItem>)
    ensures |r| == |s|
  {
    seq(|s|, k requires 0 <= k < |s| => s[k].data)
  }

  predicate Seen(s: seq<Piece>, inode: nat)
  {
    exists p :: p in s && IsInodeItem(p, inode)
  }

  /** An inode is mentioned by a handled item of its own or by an INODE_REF that names it as the parent. */
  predicate Mentioned(s: seq<Piece>, inode: nat)
  {
    exists p :: p in s &&
      ((IsHandled(p.key.itemType) && p.key.objectId == inode) || (p.key.itemType == INODE_REF && p.key.offset == inode))
  }

  /** Everything since an inode's last INODE_ITEM, and nothing else. */
  function EntryOf(s: seq<Piece>, inode: nat): FileDirEntry
  {
    var since := s[Start(s, inode)..];
    var own := Own(since, inode);
    FileDirEntry(
      if Seen(s, inode) then inode else 0,
      match LastOffset(own, DIR_INDEX) { case None => 0 case Some(offset) => offset },
      LastOffset(own, INODE_REF),
      Children(since, inode),
      Keys(own),
      Data(own))
  }

  // ---------- One more item ----------

  /** What one more item does to an inode's entry. */
  function Next(e: FileDirEntry, p: Piece, inode: nat): FileDirEntry
  {
    var key := p.key;
    if IsHandled(key.itemType) && key.objectId == inode then
      if key.itemType == INODE_ITEM then FileDirEntry(inode, 0, None, [], [key], [p.data])
      else
        e.(index := if key.itemType == DIR_INDEX then key.offset else e.index,
           parent := if key.itemType == INODE_REF then Some(key.offset) else e.parent,
           items := e.items + [key],
           dataItems := e.dataItems + [p.data])
    else if NamesChild(p, inode) then e.(children := e.children + [key.objectId])
    else e
  }

  lemma OwnSnoc(s: seq<Piece>, p: Piece, inode: nat)
    ensures Own(s + [p], inode) ==
            if IsHandled(p.key.itemType) && p.key.objectId == inode then Own(s, inode) + [p] else Own(s, inode)
    ensures Children(s + [p], inode) ==
            if NamesChild(p, inode) then Children(s, inode) + [p.key.objectId] else Children(s, inode)
  {
    assert (s + [p])[..|s|] == s;
  }

  lemma LastOffsetSnoc(own: seq<Piece>, p: Piece, itemType: nat)
    ensures LastOffset(own + [p], itemType) ==
            if p.key.itemType == itemType then Some(p.key.offset) else LastOffset(own, itemType)
  {
    assert (own + [p])[..|own|] == own;
  }

  lemma SinceSnoc(s: seq<Piece>, p: Piece, inode: nat)
    ensures var t := s + [p];
            t[Start(t, inode)..] == if IsInodeItem(p, inode) then [p] else s[Start(s, inode)..] + [p]
    ensures Seen(s + [p], inode) <==> Seen(s, inode) || IsInodeItem(p, inode)
  {
    var t := s + [p];
    assert t[..|s|] == s;
    assert forall q :: q in t <==> q in s || q == p;
  }

  /** The entry of a longer stream is one step away. */
  lemma EntrySnoc(s: seq<Piece>, p: Piece, inode: nat)
    ensures EntryOf(s + [p], inode) == Next(EntryOf(s, inode), p, inode)
  {
    hide Start, Own, Children, LastOffset, Seen;
    var since := s[Start(s, inode)..];
    SinceSnoc(s, p, inode);
    if IsInodeItem(p, inode) {
      Fresh(p, inode);
    } else {
      OwnSnoc(since, p, inode);
      var own := Own(since, inode);
      LastOffsetSnoc(own, p, DIR_INDEX);
      LastOffsetSnoc(own, p, INODE_REF);
      assert Keys(own + [p]) == Keys(own) + [p.key] && Data(own + [p]) == Data(own) + [p.data];
    }
  }

  lemma Fresh(p: Piece, inode: nat)
    requires IsInodeItem(p, inode)
    ensures Own([p], inode) == [p] && Children([p], inode) == []
    ensures LastOffset([p], DIR_INDEX) == None && LastOffset([p], INODE_REF) == None
    ensures Keys([p]) == [p.key] && Data([p]) == [p.data]
  {
    assert [p][..0] == [];
  }

  lemma MentionedSnoc(s: seq<Piece>, p: Piece, inode: nat)
    ensures Mentioned(s + [p], inode) <==>
            Mentioned(s, inode) || (IsHandled(p.key.itemType) && p.key.objectId == inode) ||
            (p.key.itemType == INODE_REF && p.key.offset == inode)
  {
    assert forall q :: q in s + [p] <==> q in s || q == p;
  }

  lemma {:induction false} NotMentioned(s: seq<Piece>, inode: nat)
    requires !Mentioned(s, inode)
    ensures EntryOf(s, inode) == NO_ENTRY
  {
    if s == [] {
      assert s[Start(s, inode)..] == [];
    } else {
      var init, p := s[..|s| - 1], s[|s| - 1];
      assert s == init + [p];
      MentionedSnoc(init, p, inode);
      NotMentioned(init, inode);
      EntrySnoc(init, p, inode);
    }
  }

  // ---------- The map ----------

  type FilesDirsMap = map<nat, FileDirEntry>

  /** The map holds every mentioned inode's entry. */
  ghost predicate Describes(m: FilesDirsMap, s: seq<Piece>)
  {
    forall inode: nat :: (inode in m <==> Mentioned(s, inode)) && (inode in m ==> m[inode] == EntryOf(s, inode))
  }

  function Lookup(m: FilesDirsMap, inode: nat): FileDirEntry
  {
    if inode in m then m[inode] else NO_ENTRY
  }

  lemma LookupIsEntry(m: FilesDirsMap, s: seq<Piece>, inode: nat)
    requires Describes(m, s)
    ensures Lookup(m, inode) == EntryOf(s, inode)
  {
    if inode !in m {
      NotMentioned(s, inode);
    }
  }

  /** A map updated at the inodes an item mentions, by one step each, describes the longer stream. */
  lemma DescribesSnoc(m: FilesDirsMap, s: seq<Piece>, p: Piece, m': FilesDirsMap)
    requires Describes(m, s)
    requires forall inode: nat ::
      inode in m' <==> inode in m || (IsHandled(p.key.itemType) && p.key.objectId == inode) ||
                       (p.key.itemType == INODE_REF && p.key.offset == inode)
    requires forall inode: nat | inode in m' :: m'[inode] == Next(Lookup(m, inode), p, inode)
    ensures Describes(m', s + [p])
  {
    hide Mentioned, EntryOf, Next;
    forall inode: nat
      ensures (inode in m' <==> Mentioned(s + [p], inode)) && (inode in m' ==> m'[inode] == EntryOf(s + [p], inode))
    {
      MentionedSnoc(s, p, inode);
      EntrySnoc(s, p, inode);
      LookupIsEntry(m, s, inode);
    }
  }

  function PiecesOf(node: GenericNode): seq<Piece>
    requires node.LeafNode? && |node.items| == |node.dataItems|
  {
    seq(|node.items|, k requires 0 <= k < |node.items| => Piece(node.items[k], node.dataItems[k]))
  }

  predicate IsLeaf(node: GenericNode)
  {
    node.LeafNode? && |node.items| == |node.dataItems|
  }

  predicate AllLeaves(nodes: seq<GenericNode>)
  {
    forall k | 0 <= k < |nodes| :: IsLeaf(nodes[k])
  }

  /** The items of a stream of leaves. */
  function Stream(leaves: seq<GenericNode>): seq<Piece>
    requires AllLeaves(leaves)
  {
    if leaves == [] then [] else Stream(leaves[..|leaves| - 1]) + PiecesOf(leaves[|leaves| - 1])
  }

  class FsTree {
    var Nodes: seq<GenericNode>
    var FilesDirsMap: FilesDirsMap

    constructor ()
      ensures Nodes == [] && FilesDirsMap == map[]
    {
      Nodes, FilesDirsMap := [], map[];
    }

    ghost predicate Valid()
      reads this
    {
      AllLeaves(Nodes) && Describes(FilesDirsMap, Stream(Nodes))
    }

    /** Files one item under the inodes it mentions. */
    method File(item: Key, dataItem: DataItem, ghost s: seq<Piece>)
      requires Describes(FilesDirsMap, s)
      modifies this`FilesDirsMap
      ensures Describes(FilesDirsMap, s + [Piece(item, dataItem)])
    {
      hide Describes;
      ghost var m, p := FilesDirsMap, Piece(item, dataItem);
      var fileDirEntry := Lookup(FilesDirsMap, item.objectId);
      if item.itemType == INODE_ITEM {
        FilesDirsMap := FilesDirsMap[item.objectId := FileDirEntry(item.objectId, 0, None, [], [item], [dataItem])];
      } else if item.itemType == DIR_ITEM || item.itemType == EXTENT_DATA {
        FilesDirsMap := FilesDirsMap[item.objectId := fileDirEntry.(items := fileDirEntry.items + [item],
                                                                    dataItems := fileDirEntry.dataItems + [dataItem])];
      } else if item.itemType == DIR_INDEX {
        FilesDirsMap := FilesDirsMap[item.objectId := fileDirEntry.(index := item.offset, items := fileDirEntry.items + [item],
                                                                    dataItems := fileDirEntry.dataItems + [dataItem])];
      } else if item.itemType == INODE_REF {
        var fileDirParent := Lookup(FilesDirsMap, item.offset);
        fileDirEntry := fileDirEntry.(parent := Some(item.offset));
        fileDirParent := fileDirParent.(children := fileDirParent.children + [item.objectId]);
        fileDirEntry := fileDirEntry.(items := fileDirEntry.items + [item], dataItems := fileDirEntry.dataItems + [dataItem]);
        FilesDirsMap := FilesDirsMap[item.offset := fileDirParent];
        FilesDirsMap := FilesDirsMap[item.objectId := fileDirEntry];
      }
      DescribesSnoc(m, s, p, FilesDirsMap);
    }

    method FileLeaf(node: GenericNode, ghost s: seq<Piece>)
      requires IsLeaf(node) && Describes(FilesDirsMap, s)
      modifies this`FilesDirsMap
      ensures Describes(FilesDirsMap, s + PiecesOf(node))
    {
      hide Describes;
      ghost var pieces := PiecesOf(node);
      assert s + pieces[..0] == s;
      for idx := 0 to |node.items|
        invariant Describes(FilesDirsMap, s + pieces[..idx])
      {
        File(node.items[idx], node.dataItems[idx], s + pieces[..idx]);
        assert s + pieces[..idx] + [pieces[idx]] == s + pieces[..idx + 1];
      }
      assert pieces[..|node.items|] == pieces;
    }

    /** Files the items of every leaf received, in order. */
    method Update(nodesLeaf: seq<GenericNode>)
      requires Valid() && AllLeaves(nodesLeaf)
      modifies this
      ensures Valid() && Nodes == old(Nodes) + nodesLeaf
    {
      hide Describes;
      for k := 0 to |nodesLeaf|
        invariant Valid() && Nodes == old(Nodes) + nodesLeaf[..k]
      {
        ghost var before := Nodes;
        Nodes := Nodes + [nodesLeaf[k]];
        FileLeaf(nodesLeaf[k], Stream(before));
        assert Nodes[..|Nodes| - 1] == before;
      }
    }
  }

  // ---------- What the entries hold ----------

  lemma OwnNothing(inode: nat)
    ensures Own([], inode) == []
  {
  }

  lemma {:induction false} OwnAppend(a: seq<Piece>, b: seq<Piece>, inode: nat)
    ensures Own(a + b, inode) == Own(a, inode) + Own(b, inode)
  {
    hide Own;
    if b == [] {
      assert a + b == a;
      OwnNothing(inode);
    } else {
      var init, last := b[..|b| - 1], b[|b| - 1];
      assert a + b == (a + init) + [last] && b == init + [last];
      OwnSnoc(a + init, last, inode);
      OwnSnoc(init, last, inode);
      OwnAppend(a, init, inode);
    }
  }

  /** A handled item is in its inode's entry exactly if no later INODE_ITEM replaced the entry, and then in stream order. */
  lemma ItemKept(s: seq<Piece>, k: nat)
    requires k < |s| && IsHandled(s[k].key.itemType)
    ensures var inode := s[k].key.objectId;
            var e, start := EntryOf(s, inode), Start(s, inode);
            (start <= k <==> forall j | k < j < |s| :: !IsInodeItem(s[j], inode)) &&
            (start <= k ==>
               var at := |Own(s[start..k], inode)|;
               at < |e.items| == |e.dataItems| && e.items[at] == s[k].key && e.dataItems[at] == s[k].data)
  {
    hide Own, Start, Children, LastOffset, Seen;
    var inode, p := s[k].key.objectId, s[k];
    var start := Start(s, inode);
    StartIsLast(s, inode);
    if start <= k {
      var left, right := s[start..k], s[k + 1..];
      assert s[start..] == left + [p] + right;
      OwnAppend(left + [p], right, inode);
      OwnSnoc(left, p, inode);
      var own := Own(s[start..], inode);
      assert own[|Own(left, inode)|] == p;
    }
  }

  /** Nothing else is in an entry: every item of it is one of the stream's, filed under its own object id. */
  lemma {:induction false} OnlyOwnItems(s: seq<Piece>, inode: nat, at: nat) returns (k: nat)
    requires at < |Own(s, inode)|
    ensures k < |s| && s[k] == Own(s, inode)[at] && at == |Own(s[..k], inode)|
    ensures IsHandled(s[k].key.itemType) && s[k].key.objectId == inode
  {
    var init := s[..|s| - 1];
    if at < |Own(init, inode)| {
      k := OnlyOwnItems(init, inode, at);
      assert init[..k] == s[..k];
    } else {
      k := |s| - 1;
    }
  }

  lemma NothingMisfiled(s: seq<Piece>, inode: nat, at: nat) returns (k: nat)
    requires at < |EntryOf(s, inode).items|
    ensures var e := EntryOf(s, inode);
            Start(s, inode) <= k < |s| && |e.items| == |e.dataItems| &&
            s[k].key == e.items[at] && s[k].data == e.dataItems[at] &&
            s[k].key.objectId == inode && IsHandled(s[k].key.itemType) && at == |Own(s[Start(s, inode)..k], inode)|
  {
    var start := Start(s, inode);
    var j := OnlyOwnItems(s[start..], inode, at);
    k := start + j;
    assert s[start..][..j] == s[start..k];
  }

  // ---------- The fields of an entry ----------

  lemma {:induction false} LastOffsetExact(own: seq<Piece>, itemType: nat)
    ensures LastOffset(own, itemType).None? <==> forall k | 0 <= k < |own| :: own[k].key.itemType != itemType
    ensures forall k | 0 <= k < |own| && own[k].key.itemType == itemType &&
                       (forall l | k < l < |own| :: own[l].key.itemType != itemType) ::
              LastOffset(own, itemType) == Some(own[k].key.offset)
  {
    if own != [] {
      LastOffsetExact(own[..|own| - 1], itemType);
    }
  }

  /** The item at a place is the last of its type and object id. */
  predicate IsLast(s: seq<Piece>, k: nat, itemType: nat, inode: nat)
  {
    k < |s| && s[k].key.itemType == itemType && s[k].key.objectId == inode &&
    forall l | k < l < |s| :: !(s[l].key.itemType == itemType && s[l].key.objectId == inode)
  }

  lemma {:induction false} OwnLast(s: seq<Piece>, inode: nat, itemType: nat)
    requires IsHandled(itemType)
    ensures LastOffset(Own(s, inode), itemType).None? <==>
            forall k | 0 <= k < |s| :: !(s[k].key.itemType == itemType && s[k].key.objectId == inode)
    ensures forall k: nat | IsLast(s, k, itemType, inode) :: LastOffset(Own(s, inode), itemType) == Some(s[k].key.offset)
  {
    hide IsHandled;
    if s != [] {
      var init, last := s[..|s| - 1], s[|s| - 1];
      assert s == init + [last];
      OwnLast(init, inode, itemType);
      OwnSnoc(init, last, inode);
      LastOffsetSnoc(Own(init, inode), last, itemType);
      forall k: nat | IsLast(s, k, itemType, inode)
        ensures LastOffset(Own(s, inode), itemType) == Some(s[k].key.offset)
      {
        if k < |init| {
          assert IsLast(init, k, itemType, inode);
          assert !(s[|init|].key.itemType == itemType && s[|init|].key.objectId == inode);
        }
      }
    }
  }

  /** The number of an entry: the inode's once it has an INODE_ITEM. Its index is the offset of the last DIR_INDEX since
      the last INODE_ITEM, its parent that of the last INODE_REF. */
  lemma EntryNumbers(s: seq<Piece>, inode: nat)
    ensures var e, start := EntryOf(s, inode), Start(s, inode);
            var since := s[start..];
            e.id == (if exists p :: p in s && p.key.itemType == 0x01 && p.key.objectId == inode then inode else 0) &&
            ((forall k: nat | IsLast(since, k, 0x60, inode) :: e.index == since[k].key.offset) &&
             ((forall p | p in since :: !(p.key.itemType == 0x60 && p.key.objectId == inode)) ==> e.index == 0)) &&
            ((forall k: nat | IsLast(since, k, 0x0C, inode) :: e.parent == Some(since[k].key.offset)) &&
             ((forall p | p in since :: !(p.key.itemType == 0x0C && p.key.objectId == inode)) ==> e.parent == None))
  {
    hide Start, Own, LastOffset, Children;
    var since := s[Start(s, inode)..];
    OwnLast(since, inode, 0x60);
    OwnLast(since, inode, 0x0C);
  }

  lemma {:induction false} ChildrenAre(s: seq<Piece>, inode: nat, c: nat)
    ensures c in Children(s, inode) <==>
            c != inode && exists p :: p in s && p.key == Key(c, 0x0C, inode)
  {
    if s != [] {
      var init, last := s[..|s| - 1], s[|s| - 1];
      assert s == init + [last];
      ChildrenAre(init, inode, c);
      if last.key == Key(c, 0x0C, inode) {
        assert last in s;
      }
      if c in Children(s, inode) && c !in Children(init, inode) {
        assert last.key == Key(c, 0x0C, inode);
      }
    }
  }

  /** The children of an entry: the inodes whose INODE_REF since its last INODE_ITEM names it as the parent, but itself. */
  lemma EntryChildren(s: seq<Piece>, inode: nat, c: nat)
    ensures c in EntryOf(s, inode).children <==>
            c != inode && exists p :: p in s[Start(s, inode)..] && p.key == Key(c, 0x0C, inode)
  {
    ChildrenAre(s[Start(s, inode)..], inode, c);
  }

  /** Which items are filed under their object id. */
  lemma HandledTypes(itemType: nat)
    ensures IsHandled(itemType) <==> itemType in {0x01, 0x0C, 0x54, 0x60, 0x6C}
  {
  }

  /** The entries of a short stream: an inode, its parent, its index, two children, its data, and an item of another
      type. */
  lemma SmallStream(d: DataItem)
    ensures var s := [Piece(Key(5, 0x01, 0), d), Piece(Key(5, 0x0C, 2), d), Piece(Key(5, 0x60, 7), d),
                      Piece(Key(6, 0x0C, 5), d), Piece(Key(8, 0x0C, 5), d), Piece(Key(5, 0x6C, 0), d),
                      Piece(Key(5, 0x84, 0), d)];
            EntryOf(s, 5) == FileDirEntry(5, 7, Some(2), [6, 8],
                                          [Key(5, 0x01, 0), Key(5, 0x0C, 2), Key(5, 0x60, 7), Key(5, 0x6C, 0)],
                                          [d, d, d, d]) &&
            EntryOf(s, 2) == FileDirEntry(0, 0, None, [5], [], [])
  {
    hide EntryOf;
    var s := [Piece(Key(5, 0x01, 0), d), Piece(Key(5, 0x0C, 2), d), Piece(Key(5, 0x60, 7), d), Piece(Key(6, 0x0C, 5), d),
              Piece(Key(8, 0x0C, 5), d), Piece(Key(5, 0x6C, 0), d), Piece(Key(5, 0x84, 0), d)];
    SevenSteps(s, 5);
    SevenSteps(s, 2);
  }

  lemma SevenSteps(s: seq<Piece>, inode: nat)
    requires |s| == 7
    ensures EntryOf(s, inode) ==
            Next(Next(Next(Next(Next(Next(Next(NO_ENTRY, s[0], inode), s[1], inode), s[2], inode), s[3], inode), s[4], inode),
                      s[5], inode), s[6], inode)
  {
    hide EntryOf, Next;
    NotMentioned(s[..0], inode);
    NextEntry(s, 0, inode);
    NextEntry(s, 1, inode);
    NextEntry(s, 2, inode);
    NextEntry(s, 3, inode);
    NextEntry(s, 4, inode);
    NextEntry(s, 5, inode);
    NextEntry(s, 6, inode);
    assert s[..7] == s;
  }

  lemma NextEntry(s: seq<Piece>, k: nat, inode: nat)
    requires k < |s|
    ensures EntryOf(s[..k + 1], inode) == Next(EntryOf(s[..k], inode), s[k], inode)
  {
    hide EntryOf, Next;
    assert s[..k + 1] == s[..k] + [s[k]];
    EntrySnoc(s[..k], s[k], inode);
  }

  /** An INODE_REF that names its own inode as the parent sets the parent but leaves no child. */
  lemma SelfReference(s: seq<Piece>, p: Piece)
    requires p.key.itemType == INODE_REF && p.key.objectId == p.key.offset
    ensures var inode := p.key.objectId;
            EntryOf(s + [p], inode) ==
            EntryOf(s, inode).(parent := Some(inode), items := EntryOf(s, inode).items + [p.key],
                               dataItems := EntryOf(s, inode).dataItems + [p.data])
  {
    EntrySnoc(s, p, p.key.objectId);
  }

  /** Walks a tree and files its leaves: the entries are those of the items in walk order. */
  method DescendTree(v: Volume, logicalOffset: nat, ghost t: Tree) returns (fsTree: FsTree)
    requires Disjoint(v.chunks) && Represents(v, logicalOffset, t) && AllLeaves(Walk(t))
    ensures fresh(fsTree) && fsTree.Nodes == Walk(t)
    ensures Describes(fsTree.FilesDirsMap, Stream(Walk(t)))
  {
    hide Describes, Walk, Represents;
    var nodesLeaf := new Channel();
    fsTree := new FsTree();
    ParseTreeNodeCh(v, logicalOffset, nodesLeaf, t);
    assert nodesLeaf.sent == Walk(t);
    NothingDescribed();
    fsTree.Update(nodesLeaf.sent);
    assert fsTree.Nodes == Walk(t);
  }

  lemma NothingDescribed()
    ensures Describes(map[], Stream([]))
  {
  }
}
