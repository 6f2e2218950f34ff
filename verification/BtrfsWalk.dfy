/** The B-tree walk with an explicit stack and the recursive walk it stands for (disk/volume/btrfs.go, FS/BTRFS/btrfs.go). */
module BtrfsWalk {
  import opened Bytes
  import opened BtrfsNodes
  import opened Readers
  import opened Wrappers

  /** A BTRFS volume: its chunk map, what the disk reader returns, and what node bytes decode to. */
  datatype Volume = Volume(chunks: ChunkMap, partitionOffsetB: int, nodeSize: nat, verify: bool,
                           read: (int, int) -> seq<byte>, checksumMatches: seq<byte> -> bool,
                           parse: seq<byte> -> GenericNode)

  /** The node at a logical address: an unmapped address stops the program, a wrong checksum is an error. */
  ghost function NodeAt(v: Volume, address: nat): Outcome<GenericNode>
  {
    if !Mapped(v.chunks, address) then Panic
    else NodeIn(v, KeyOf(v.chunks, address), address)
  }

  /** The node at an address that a chunk covers. */
  function NodeIn(v: Volume, key: nat, address: nat): Outcome<GenericNode>
    requires Covers(v.chunks, key, address)
  {
    var place := PlaceIn(v.chunks, key, address);
    var data := v.read(place.offset + v.partitionOffsetB, Min(v.nodeSize, place.chunkSize));
    if v.verify && !v.checksumMatches(data) then Error else Done(v.parse(data))
  }

  /** Whichever chunk covers the address; if chunks are disjoint there is one at most. */
  method CreateNode(v: Volume, logicalOffset: nat) returns (r: Outcome<GenericNode>)
    ensures !Mapped(v.chunks, logicalOffset) ==> r == Panic
    ensures Mapped(v.chunks, logicalOffset) ==>
              exists key | Covers(v.chunks, key, logicalOffset) :: r == NodeIn(v, key, logicalOffset)
    ensures Disjoint(v.chunks) ==> r == NodeAt(v, logicalOffset)
  {
    var place := LocatePhysicalOffsetSize(v.chunks, logicalOffset);
    if place.Failure? {
      return Panic;
    }
    var size := v.nodeSize;
    if place.value.chunkSize < size {
      size := place.value.chunkSize;
    }
    var data := v.read(place.value.offset + v.partitionOffsetB, size);
    if v.verify && !v.checksumMatches(data) {
      return Error;
    }
    return Done(v.parse(data));
  }

  /** On a disk image the node of an address stands behind the partition's start, the chunk's stripe and the address's
      distance from the chunk's, and is no longer than the chunk. */
  lemma NodeOnDisk(v: Volume, image: seq<byte>, key: nat, address: nat)
    requires Disjoint(v.chunks) && key in v.chunks && key <= address < key + v.chunks[key].size
    requires forall offset, size :: v.read(offset, size) == Disk(image).ReadData(offset, size)
    requires var at := v.partitionOffsetB + v.chunks[key].stripeOffset + (address - key);
             0 <= at && at + v.nodeSize <= |image| && at + v.chunks[key].size <= |image|
    ensures var at := v.partitionOffsetB + v.chunks[key].stripeOffset + (address - key);
            var size := if v.nodeSize <= v.chunks[key].size then v.nodeSize else v.chunks[key].size;
            var data := image[at..at + size];
            NodeAt(v, address) == if v.verify && !v.checksumMatches(data) then Error else Done(v.parse(data))
  {
    assert Covers(v.chunks, key, address);
    assert KeyOf(v.chunks, address) == key;
  }

  /** A volume that begins p bytes later, with all that is read of it. */
  function MovedBy(v: Volume, p: int): Volume
  {
    v.(partitionOffsetB := v.partitionOffsetB + p, read := (offset, size) => v.read(offset - p, size))
  }

  /** Its nodes are the same. */
  lemma NodeMoves(v: Volume, p: int, address: nat)
    ensures NodeAt(MovedBy(v, p), address) == NodeAt(v, address)
  {
    if Mapped(v.chunks, address) {
      var place := PlaceIn(v.chunks, KeyOf(v.chunks, address), address);
      assert place.offset + (v.partitionOffsetB + p) - p == place.offset + v.partitionOffsetB;
    }
  }

  // ---------- The tree below an address ----------

  datatype Tree = Bad | Leaf(node: GenericNode) | Internal(children: seq<Tree>)

  /** The finite tree that the nodes reachable from an address form, a node that fails verification being Bad. */
  ghost predicate Represents(v: Volume, address: nat, t: Tree)
    decreases t, 1
  {
    match NodeAt(v, address)
    case Panic => false
    case Error => t.Bad?
    case Done(node) => NodeTree(v, node, t)
  }

  ghost predicate NodeTree(v: Volume, node: GenericNode, t: Tree)
    decreases t, 0
  {
    if node.LeafNode? then t == Leaf(node)
    else
      t.Internal? && |t.children| == |node.children| &&
      forall i | 0 <= i < |t.children| :: Represents(v, node.children[i], t.children[i])
  }

  /** The address of a child. */
  ghost function ChildAddress(v: Volume, address: nat, t: Tree, i: nat): (a: nat)
    requires Represents(v, address, t) && t.Internal? && i < |t.children|
    ensures Represents(v, a, t.children[i])
  {
    assert NodeAt(v, address).Done? && NodeTree(v, NodeAt(v, address).value, t);
    NodeAt(v, address).value.children[i]
  }

  lemma Kind(v: Volume, address: nat, t: Tree)
    requires Represents(v, address, t)
    ensures !NodeAt(v, address).Panic? && (t.Bad? <==> NodeAt(v, address).Error?)
    ensures NodeAt(v, address).Done? ==>
              var node := NodeAt(v, address).value;
              NodeTree(v, node, t) && (node.LeafNode? ==> t == Leaf(node)) && (node.InternalNode? ==> t.Internal?)
  {
  }

  lemma {:induction false} TreeUnique(v: Volume, address: nat, t: Tree, u: Tree)
    requires Represents(v, address, t) && Represents(v, address, u)
    ensures t == u
    decreases t
  {
    if t.Internal? {
      var children := NodeAt(v, address).value.children;
      forall i | 0 <= i < |children|
        ensures t.children[i] == u.children[i]
      {
        TreeUnique(v, children[i], t.children[i], u.children[i]);
      }
    }
  }

  /** A volume that begins later has the same trees. */
  lemma {:induction false} TreeMoves(v: Volume, p: int, address: nat, t: Tree)
    ensures Represents(MovedBy(v, p), address, t) <==> Represents(v, address, t)
    decreases t
  {
    hide NodeAt, MovedBy;
    NodeMoves(v, p, address);
    if t.Internal? && NodeAt(v, address).Done? && NodeAt(v, address).value.InternalNode? {
      var node := NodeAt(v, address).value;
      forall i | 0 <= i < |t.children| && |t.children| == |node.children|
        ensures Represents(MovedBy(v, p), node.children[i], t.children[i]) <==>
                Represents(v, node.children[i], t.children[i])
      {
        TreeMoves(v, p, node.children[i], t.children[i]);
      }
    }
  }

  // ---------- The recursive walk ----------

  function LeavesOf(children: seq<Tree>): seq<GenericNode>
  {
    if children == [] then []
    else
      var last := children[|children| - 1];
      LeavesOf(children[..|children| - 1]) + if last.Leaf? then [last.node] else []
  }

  /** A node's leaf children in item order, then its internal children's subtrees from the last to the first. */
  function Walk(t: Tree): seq<GenericNode>
    decreases t
  {
    match t
    case Bad => []
    case Leaf(node) => [node]
    case Internal(children) => LeavesOf(children) + WalkInternals(children)
  }

  function WalkInternals(children: seq<Tree>): seq<GenericNode>
    decreases children
  {
    if children == [] then []
    else
      var last := children[|children| - 1];
      (if last.Internal? then Walk(last) else []) + WalkInternals(children[..|children| - 1])
  }

  /** The order on a tree with leaves in between: a node's own leaves first, then the last subtree before the first. */
  lemma WalkOrder(a: GenericNode, b: GenericNode, c: GenericNode, d: GenericNode)
    ensures Walk(Internal([Internal([Leaf(a), Bad]), Leaf(b), Internal([Leaf(c)]), Leaf(d)])) == [b, d, c, a]
  {
    var x, y := Internal([Leaf(a), Bad]), Internal([Leaf(c)]);
    OneLeaf(a);
    OneLeaf(c);
    assert [Leaf(a), Bad][..1] == [Leaf(a)];
    assert Walk(x) == [a] + [] && Walk(y) == [c] + [];
    var all := [x, Leaf(b), y, Leaf(d)];
    assert all[..3][..2] == all[..2] && all[..2][..1] == [x] && [x][..0] == [];
    assert LeavesOf([x]) == [] && LeavesOf(all[..2]) == [b] && LeavesOf(all[..3]) == [b] && LeavesOf(all) == [b, d];
    assert WalkInternals([x]) == [a] + [] && WalkInternals(all[..2]) == [a] && WalkInternals(all[..3]) == [c] + [a];
    assert WalkInternals(all) == [] + ([c] + [a]);
  }

  lemma OneLeaf(a: GenericNode)
    ensures LeavesOf([Leaf(a)]) == [a] && WalkInternals([Leaf(a)]) == []
  {
    assert [Leaf(a)][..0] == [];
  }

  /** All leaves of a tree from left to right. */
  function InOrder(t: Tree): seq<GenericNode>
    decreases t
  {
    match t
    case Bad => []
    case Leaf(node) => [node]
    case Internal(children) => InOrderAll(children)
  }

  function InOrderAll(children: seq<Tree>): seq<GenericNode>
    decreases children
  {
    if children == [] then []
    else InOrderAll(children[..|children| - 1]) + InOrder(children[|children| - 1])
  }

  /** The walk visits every leaf exactly as often as it is in the tree. */
  lemma {:induction false} WalkVisitsEachLeaf(t: Tree)
    ensures multiset(Walk(t)) == multiset(InOrder(t))
    decreases t
  {
    if t.Internal? {
      ChildrenVisitEachLeaf(t.children);
    }
  }

  lemma {:induction false} ChildrenVisitEachLeaf(children: seq<Tree>)
    ensures multiset(LeavesOf(children)) + multiset(WalkInternals(children)) == multiset(InOrderAll(children))
    decreases children
  {
    if children != [] {
      ChildrenVisitEachLeaf(children[..|children| - 1]);
      WalkVisitsEachLeaf(children[|children| - 1]);
    }
  }

  lemma {:induction false} LeavesOfAppend(a: seq<Tree>, b: seq<Tree>)
    ensures LeavesOf(a + b) == LeavesOf(a) + LeavesOf(b)
  {
    if b == [] {
      assert a + b == a;
    } else {
      assert (a + b)[..|a + b| - 1] == a + b[..|b| - 1];
      LeavesOfAppend(a, b[..|b| - 1]);
    }
  }

  lemma {:induction false} WalkInternalsAppend(a: seq<Tree>, b: seq<Tree>)
    ensures WalkInternals(a + b) == WalkInternals(b) + WalkInternals(a)
  {
    if b == [] {
      assert a + b == a;
    } else {
      assert (a + b)[..|a + b| - 1] == a + b[..|b| - 1];
      WalkInternalsAppend(a, b[..|b| - 1]);
    }
  }

  // ---------- The stack of pending nodes ----------

  class Stack {
    var nodes: seq<GenericNode>

    constructor ()
      ensures nodes == []
    {
      nodes := [];
    }

    method Push(node: GenericNode)
      modifies this
      ensures nodes == old(nodes) + [node]
    {
      nodes := nodes + [node];
    }

    method Pop() returns (topNode: GenericNode)
      requires nodes != []
      modifies this
      ensures old(nodes) == nodes + [topNode]
    {
      topNode := nodes[|nodes| - 1];
      nodes := nodes[..|nodes| - 1];
    }

    predicate IsEmpty()
      reads this
    {
      |nodes| == 0
    }
  }

  function InternalsOf(children: seq<Tree>): seq<Tree>
  {
    if children == [] then []
    else
      var last := children[|children| - 1];
      InternalsOf(children[..|children| - 1]) + if last.Internal? then [last] else []
  }

  lemma {:induction false} WalkPushed(children: seq<Tree>)
    ensures WalkInternals(InternalsOf(children)) == WalkInternals(children)
  {
    if children != [] {
      var init, last := children[..|children| - 1], children[|children| - 1];
      WalkPushed(init);
      WalkInternalsAppend(InternalsOf(init), if last.Internal? then [last] else []);
      assert [last][..0] == [];
    }
  }

  function Size(t: Tree): nat
    decreases t
  {
    1 + if t.Internal? then SizeAll(t.children) else 0
  }

  function SizeAll(trees: seq<Tree>): nat
    decreases trees
  {
    if trees == [] then 0 else SizeAll(trees[..|trees| - 1]) + Size(trees[|trees| - 1])
  }

  lemma {:induction false} SizeAllAppend(a: seq<Tree>, b: seq<Tree>)
    ensures SizeAll(a + b) == SizeAll(a) + SizeAll(b)
  {
    if b == [] {
      assert a + b == a;
    } else {
      assert (a + b)[..|a + b| - 1] == a + b[..|b| - 1];
      SizeAllAppend(a, b[..|b| - 1]);
    }
  }

  lemma {:induction false} SizePushed(children: seq<Tree>)
    ensures SizeAll(InternalsOf(children)) <= SizeAll(children)
  {
    if children != [] {
      var init, last := children[..|children| - 1], children[|children| - 1];
      SizePushed(init);
      SizeAllAppend(InternalsOf(init), if last.Internal? then [last] else []);
      assert [last][..0] == [];
    }
  }

  /** The internal nodes on the stack and the trees they stand for. */
  ghost predicate Pending(v: Volume, nodes: seq<GenericNode>, trees: seq<Tree>)
  {
    |nodes| == |trees| && forall i | 0 <= i < |nodes| :: nodes[i].InternalNode? && NodeTree(v, nodes[i], trees[i])
  }

  /** What popping the top node and expanding it leaves to do. */
  lemma Expanded(below: seq<Tree>, top: Tree)
    requires top.Internal?
    ensures var after := below + InternalsOf(top.children);
            SizeAll(after) < SizeAll(below + [top]) &&
            LeavesOf(top.children) + WalkInternals(after) == WalkInternals(below + [top])
  {
    hide LeavesOf, InternalsOf, Size, SizeAll, Walk, WalkInternals;
    var children := top.children;
    SizePushed(children);
    SizeAllAppend(below, InternalsOf(children));
    SizeAllAppend(below, [top]);
    WalkPushed(children);
    WalkInternalsAppend(below, InternalsOf(children));
    WalkInternalsAppend(below, [top]);
    OnlyTop(top);
    assert LeavesOf(children) + (WalkInternals(children) + WalkInternals(below)) == Walk(top) + WalkInternals(below);
  }

  lemma OnlyTop(top: Tree)
    requires top.Internal?
    ensures WalkInternals([top]) == Walk(top) == LeavesOf(top.children) + WalkInternals(top.children)
    ensures SizeAll([top]) == 1 + SizeAll(top.children)
  {
    assert [top][..0] == [];
    assert SizeAll([]) == 0;
  }

  lemma PendingOne(v: Volume, node: GenericNode, t: Tree)
    requires node.InternalNode? && NodeTree(v, node, t)
    ensures Pending(v, [node], [t]) && WalkInternals([t]) == Walk(t)
  {
    assert [t][..0] == [];
  }

  /** The internal nodes among some addresses, in order: what expanding a node pushes. */
  ghost function Pushed(v: Volume, addresses: seq<nat>): seq<GenericNode>
  {
    if addresses == [] then []
    else
      var n := |addresses| - 1;
      var r := NodeAt(v, addresses[n]);
      Pushed(v, addresses[..n]) + if r.Done? && r.value.InternalNode? then [r.value] else []
  }

  lemma PushedNothing(v: Volume)
    ensures Pushed(v, []) == []
  {
  }

  lemma PushedNext(v: Volume, addresses: seq<nat>, k: nat)
    requires k < |addresses|
    ensures var r := NodeAt(v, addresses[k]);
            Pushed(v, addresses[..k + 1]) ==
            if r.Done? && r.value.InternalNode? then Pushed(v, addresses[..k]) + [r.value] else Pushed(v, addresses[..k])
  {
    hide NodeAt;
    assert addresses[..k + 1][..k] == addresses[..k];
  }

  /** One more child of an internal node. */
  lemma NextChild(children: seq<Tree>, k: nat)
    requires k < |children|
    ensures LeavesOf(children[..k + 1]) ==
            if children[k].Leaf? then LeavesOf(children[..k]) + [children[k].node] else LeavesOf(children[..k])
    ensures InternalsOf(children[..k + 1]) ==
            if children[k].Internal? then InternalsOf(children[..k]) + [children[k]] else InternalsOf(children[..k])
  {
    assert children[..k + 1][..k] == children[..k];
  }

  /** Reads the children of an internal node: leaves are collected, internal nodes pushed, failing ones skipped. */
  method Expand(v: Volume, node: GenericNode, internalNodes: Stack, leafNodes: seq<GenericNode>,
                ghost below: seq<Tree>, ghost t: Tree) returns (r: seq<GenericNode>)
    requires Disjoint(v.chunks) && node.InternalNode? && NodeTree(v, node, t) && Pending(v, internalNodes.nodes, below)
    modifies internalNodes
    ensures r == leafNodes + LeavesOf(t.children)
    ensures internalNodes.nodes == old(internalNodes.nodes) + Pushed(v, node.children)
    ensures Pending(v, internalNodes.nodes, below + InternalsOf(t.children))
  {
    hide NodeAt, NodeIn, Covers, Mapped, LeavesOf, InternalsOf, Pushed;
    r := leafNodes;
    ghost var children := t.children;
    EmptyChildren(children);
    PushedNothing(v);
    assert node.children[..0] == [] && internalNodes.nodes + [] == internalNodes.nodes;
    for k := 0 to |node.children|
      invariant r == leafNodes + LeavesOf(children[..k])
      invariant internalNodes.nodes == old(internalNodes.nodes) + Pushed(v, node.children[..k])
      invariant Pending(v, internalNodes.nodes, below + InternalsOf(children[..k]))
    {
      NextChild(children, k);
      Kind(v, node.children[k], children[k]);
      PushedNext(v, node.children, k);
      var child := CreateNode(v, node.children[k]);
      if child.Error? {
        continue;
      }
      if child.value.InternalNode? {
        internalNodes.Push(child.value);
      } else {
        r := r + [child.value];
        assert r == leafNodes + (LeavesOf(children[..k]) + [child.value]);
      }
    }
    assert children[..|node.children|] == children && node.children[..|node.children|] == node.children;
  }

  lemma EmptyChildren(children: seq<Tree>)
    ensures LeavesOf(children[..0]) == [] && InternalsOf(children[..0]) == []
  {
  }

  /** What has been found, followed by what the waiting trees are still to give, is the whole walk. */
  ghost predicate Walking(found: seq<GenericNode>, trees: seq<Tree>, t: Tree)
  {
    found + WalkInternals(trees) == Walk(t)
  }

  lemma WalkingOn(found: seq<GenericNode>, below: seq<Tree>, top: Tree, t: Tree)
    requires top.Internal? && Walking(found, below + [top], t)
    ensures var after := below + InternalsOf(top.children);
            SizeAll(after) < SizeAll(below + [top]) && Walking(found + LeavesOf(top.children), after, t)
  {
    hide WalkInternals, Walk, LeavesOf, InternalsOf, SizeAll;
    Expanded(below, top);
    var after := below + InternalsOf(top.children);
    assert found + LeavesOf(top.children) + WalkInternals(after) == found + (LeavesOf(top.children) + WalkInternals(after));
  }

  lemma WalkingStarts(v: Volume, node: GenericNode, t: Tree)
    requires NodeTree(v, node, t)
    ensures if node.InternalNode? then Pending(v, [node], [t]) && Walking([], [t], t)
            else Pending(v, [], []) && Walking([node], [], t)
  {
    hide Walk, WalkInternals;
    NothingPending(v);
    Start(t);
    if node.InternalNode? {
      PendingOne(v, node, t);
      assert [] + Walk(t) == Walk(t);
    } else {
      assert [node] + [] == [node];
    }
  }

  lemma WalkingEnds(v: Volume, found: seq<GenericNode>, nodes: seq<GenericNode>, trees: seq<Tree>, t: Tree)
    requires Pending(v, nodes, trees) && nodes == [] && Walking(found, trees, t)
    ensures found == Walk(t)
  {
    hide Walk;
    PendingNone(v, nodes, trees);
    assert found + [] == found;
  }

  /** The leaf nodes of a tree, or an error if its root fails. */
  method ParseTreeNode(v: Volume, logicalOffset: nat, ghost t: Tree) returns (r: Result<seq<GenericNode>>)
    requires Disjoint(v.chunks) && Represents(v, logicalOffset, t)
    ensures r == if t.Bad? then Failure else Success(Walk(t))
  {
    hide NodeAt, NodeIn, Covers, Mapped, Disjoint, LeavesOf, InternalsOf, Walking, Pending, Walk, SizeAll, Represents,
         NodeTree;
    Kind(v, logicalOffset, t);
    var internalNodes := new Stack();
    var root := CreateNode(v, logicalOffset);
    if root.Error? {
      return Failure;
    }
    WalkingStarts(v, root.value, t);
    var leafNodes: seq<GenericNode> := [];
    ghost var trees: seq<Tree> := [];
    if root.value.InternalNode? {
      internalNodes.Push(root.value);
      trees := [t];
      assert internalNodes.nodes == [root.value];
    } else {
      leafNodes := leafNodes + [root.value];
      assert leafNodes == [root.value] && internalNodes.nodes == [];
    }
    while !internalNodes.IsEmpty()
      invariant Pending(v, internalNodes.nodes, trees) && Walking(leafNodes, trees, t)
      decreases SizeAll(trees)
    {
      ghost var top, below := PendingTop(v, internalNodes.nodes, trees);
      WalkingOn(leafNodes, below, top, t);
      var node := internalNodes.Pop();
      leafNodes := Expand(v, node, internalNodes, leafNodes, below, top);
      trees := below + InternalsOf(top.children);
    }
    WalkingEnds(v, leafNodes, internalNodes.nodes, trees, t);
    return Success(leafNodes);
  }

  lemma NothingPending(v: Volume)
    ensures Pending(v, [], []) && WalkInternals([]) == []
  {
  }

  lemma Start(t: Tree)
    ensures t.Leaf? ==> Walk(t) == [t.node]
    ensures t.Bad? ==> Walk(t) == []
  {
  }

  lemma PendingTop(v: Volume, nodes: seq<GenericNode>, trees: seq<Tree>) returns (top: Tree, below: seq<Tree>)
    requires Pending(v, nodes, trees) && nodes != []
    ensures trees == below + [top] && Pending(v, nodes[..|nodes| - 1], below)
    ensures var node := nodes[|nodes| - 1]; node.InternalNode? && NodeTree(v, node, top)
  {
    top, below := trees[|trees| - 1], trees[..|trees| - 1];
  }

  lemma PendingNone(v: Volume, nodes: seq<GenericNode>, trees: seq<Tree>)
    requires Pending(v, nodes, trees) && nodes == []
    ensures WalkInternals(trees) == []
  {
  }

  // ---------- The channel form ----------

  class Channel {
    var sent: seq<GenericNode>
    var closed: bool

    constructor ()
      ensures sent == [] && !closed
    {
      sent, closed := [], false;
    }

    method Send(node: GenericNode)
      requires !closed
      modifies this
      ensures sent == old(sent) + [node] && !closed
    {
      sent := sent + [node];
    }

    method Close()
      requires !closed
      modifies this
      ensures sent == old(sent) && closed
    {
      closed := true;
    }
  }

  method ExpandCh(v: Volume, node: GenericNode, internalNodes: Stack, leafNodes: Channel,
                  ghost below: seq<Tree>, ghost t: Tree)
    requires Disjoint(v.chunks) && node.InternalNode? && NodeTree(v, node, t) && Pending(v, internalNodes.nodes, below)
    requires !leafNodes.closed
    modifies internalNodes, leafNodes
    ensures !leafNodes.closed && leafNodes.sent == old(leafNodes.sent) + LeavesOf(t.children)
    ensures internalNodes.nodes == old(internalNodes.nodes) + Pushed(v, node.children)
    ensures Pending(v, internalNodes.nodes, below + InternalsOf(t.children))
  {
    hide NodeAt, NodeIn, Covers, Mapped, LeavesOf, InternalsOf, Pushed;
    ghost var children := t.children;
    EmptyChildren(children);
    PushedNothing(v);
    assert node.children[..0] == [] && internalNodes.nodes + [] == internalNodes.nodes;
    for k := 0 to |node.children|
      invariant !leafNodes.closed && leafNodes.sent == old(leafNodes.sent) + LeavesOf(children[..k])
      invariant internalNodes.nodes == old(internalNodes.nodes) + Pushed(v, node.children[..k])
      invariant Pending(v, internalNodes.nodes, below + InternalsOf(children[..k]))
    {
      NextChild(children, k);
      Kind(v, node.children[k], children[k]);
      PushedNext(v, node.children, k);
      var child := CreateNode(v, node.children[k]);
      if child.Error? {
        continue;
      }
      if child.value.InternalNode? {
        internalNodes.Push(child.value);
      } else {
        leafNodes.Send(child.value);
        assert leafNodes.sent == old(leafNodes.sent) + (LeavesOf(children[..k]) + [child.value]);
      }
    }
    assert children[..|node.children|] == children && node.children[..|node.children|] == node.children;
  }

  /** Sends the leaf nodes of a tree and closes the channel; a failing root sends nothing. */
  method ParseTreeNodeCh(v: Volume, logicalOffset: nat, leafNodes: Channel, ghost t: Tree)
    requires Disjoint(v.chunks) && Represents(v, logicalOffset, t) && !leafNodes.closed
    modifies leafNodes
    ensures leafNodes.closed && leafNodes.sent == old(leafNodes.sent) + Walk(t)
  {
    hide NodeAt, NodeIn, Covers, Mapped, Disjoint, LeavesOf, InternalsOf, WalkInternals, Pending, Walk, SizeAll, Represents,
         NodeTree;
    Kind(v, logicalOffset, t);
    var internalNodes := new Stack();
    var root := CreateNode(v, logicalOffset);
    NothingPending(v);
    Start(t);
    if root.Error? {
      leafNodes.Close();
      return;
    }
    ghost var trees: seq<Tree> := [];
    if root.value.InternalNode? {
      internalNodes.Push(root.value);
      trees := [t];
      PendingOne(v, root.value, t);
      assert internalNodes.nodes == [root.value];
    } else {
      leafNodes.Send(root.value);
    }
    assert leafNodes.sent + WalkInternals(trees) == old(leafNodes.sent) + Walk(t);
    while !internalNodes.IsEmpty()
      invariant Pending(v, internalNodes.nodes, trees) && !leafNodes.closed
      invariant leafNodes.sent + WalkInternals(trees) == old(leafNodes.sent) + Walk(t)
      decreases SizeAll(trees)
    {
      ghost var top, below := PendingTop(v, internalNodes.nodes, trees);
      ghost var sent := leafNodes.sent;
      var node := internalNodes.Pop();
      Expanded(below, top);
      ExpandCh(v, node, internalNodes, leafNodes, below, top);
      trees := below + InternalsOf(top.children);
      assert leafNodes.sent + WalkInternals(trees) == sent + (LeavesOf(top.children) + WalkInternals(trees));
    }
    PendingNone(v, internalNodes.nodes, trees);
    leafNodes.Close();
  }

  // ---------- A node that fails ----------

  predicate ValidPath(t: Tree, path: seq<nat>)
  {
    path == [] || (t.Internal? && path[0] < |t.children| && ValidPath(t.children[path[0]], path[1..]))
  }

  function At(t: Tree, path: seq<nat>): Tree
    requires ValidPath(t, path)
  {
    if path == [] then t else At(t.children[path[0]], path[1..])
  }

  /** The tree with the node at a path failing. */
  function Fail(t: Tree, path: seq<nat>): Tree
    requires ValidPath(t, path)
  {
    if path == [] then Bad
    else Internal(t.children[path[0] := Fail(t.children[path[0]], path[1..])])
  }

  /** A failing node's subtree is one stretch of the walk, and the walk without it is the rest. */
  lemma {:induction false} FailureDropsSubtree(t: Tree, path: seq<nat>)
    returns (before: seq<GenericNode>, after: seq<GenericNode>)
    requires ValidPath(t, path)
    ensures Walk(t) == before + Walk(At(t, path)) + after
    ensures Walk(Fail(t, path)) == before + after
    decreases path
  {
    hide LeavesOf, WalkInternals, Walk;
    if path == [] {
      before, after := [], [];
      Start(Bad);
    } else {
      var k, children := path[0], t.children;
      var child, failed := children[k], Fail(children[k], path[1..]);
      var b, a := FailureDropsSubtree(child, path[1..]);
      SplitWalk(children, k, child);
      SplitWalk(children, k, failed);
      assert children == children[k := child];
      before, after := Around(children[..k], children[k + 1..], child, failed, b, a, Walk(At(t, path)));
    }
  }

  /** The walk of a node as the pieces left and right of one child and the child's own. */
  function Pieces(left: seq<Tree>, right: seq<Tree>, child: Tree): seq<GenericNode>
  {
    LeavesOf(left) + (if child.Leaf? then [child.node] else []) + LeavesOf(right) +
    WalkInternals(right) + (if child.Internal? then Walk(child) else []) + WalkInternals(left)
  }

  lemma Around(left: seq<Tree>, right: seq<Tree>, child: Tree, failed: Tree, b: seq<GenericNode>, a: seq<GenericNode>,
               middle: seq<GenericNode>) returns (before: seq<GenericNode>, after: seq<GenericNode>)
    requires Walk(child) == b + middle + a && Walk(failed) == b + a
    requires failed.Bad? || (failed.Internal? && child.Internal?)
    ensures Pieces(left, right, child) == before + middle + after
    ensures Pieces(left, right, failed) == before + after
  {
    hide LeavesOf, WalkInternals, Walk, Pieces;
    var leaves, left', right' := LeavesOf(left), WalkInternals(left), LeavesOf(right) + WalkInternals(right);
    Start(child);
    Start(failed);
    Unfolded(left, right, child);
    Unfolded(left, right, failed);
    if child.Leaf? {
      assert b == [] && a == [] && middle == [child.node];
      before, after := leaves, right' + left';
    } else if child.Bad? {
      assert b == [] && a == [] && middle == [];
      before, after := leaves + right', left';
    } else {
      before, after := leaves + right' + b, a + left';
      if failed.Bad? {
        assert b == [] && a == [];
      }
    }
  }

  lemma Unfolded(left: seq<Tree>, right: seq<Tree>, child: Tree)
    ensures var leaves, left', right' := LeavesOf(left), WalkInternals(left), LeavesOf(right) + WalkInternals(right);
            Pieces(left, right, child) ==
            match child
            case Bad => leaves + right' + left'
            case Leaf(node) => leaves + [node] + (right' + left')
            case Internal(_) => leaves + right' + Walk(child) + left'
  {
    hide LeavesOf, WalkInternals, Walk;
  }

  lemma SplitWalk(children: seq<Tree>, k: nat, child: Tree)
    requires k < |children|
    ensures var left, right := children[..k], children[k + 1..];
            Walk(Internal(children[k := child])) == Pieces(left, right, child)
  {
    var left, right := children[..k], children[k + 1..];
    assert children[k := child] == left + [child] + right;
    LeavesOfAppend(left + [child], right);
    LeavesOfAppend(left, [child]);
    WalkInternalsAppend(left + [child], right);
    WalkInternalsAppend(left, [child]);
    assert [child][..0] == [];
  }

  /** The logical address of the node at a path. */
  ghost function AddressAt(v: Volume, address: nat, t: Tree, path: seq<nat>): nat
    requires Represents(v, address, t) && ValidPath(t, path)
    decreases path
  {
    if path == [] then address else AddressAt(v, ChildAddress(v, address, t, path[0]), t.children[path[0]], path[1..])
  }

  /** Two volumes whose nodes are the same except that one address fails in the second. */
  ghost predicate FailsOnly(v: Volume, v': Volume, address: nat)
  {
    NodeAt(v', address) == Error && forall a: nat | a != address :: NodeAt(v', a) == NodeAt(v, a)
  }

  lemma {:induction false} Untouched(v: Volume, v': Volume, bad: nat, address: nat, t: Tree)
    requires FailsOnly(v, v', bad) && Represents(v, address, t)
    requires forall path | ValidPath(t, path) :: AddressAt(v, address, t, path) != bad
    ensures Represents(v', address, t)
    decreases t
  {
    assert ValidPath(t, []) && AddressAt(v, address, t, []) == address;
    if t.Internal? {
      var children := NodeAt(v, address).value.children;
      forall i | 0 <= i < |children|
        ensures Represents(v', children[i], t.children[i])
      {
        forall path | ValidPath(t.children[i], path)
          ensures AddressAt(v, children[i], t.children[i], path) != bad
        {
          BelowChild(v, address, t, i, path);
        }
        Untouched(v, v', bad, children[i], t.children[i]);
      }
    }
  }

  lemma BelowChild(v: Volume, address: nat, t: Tree, i: nat, path: seq<nat>)
    requires Represents(v, address, t) && t.Internal? && i < |t.children| && ValidPath(t.children[i], path)
    ensures ValidPath(t, [i] + path)
    ensures AddressAt(v, address, t, [i] + path) == AddressAt(v, ChildAddress(v, address, t, i), t.children[i], path)
  {
    assert ([i] + path)[1..] == path;
  }

  /** When the node at one path fails its checksum, the volume represents the tree with that node failed. */
  lemma {:induction false} CorruptNode(v: Volume, v': Volume, address: nat, t: Tree, path: seq<nat>)
    requires Represents(v, address, t) && ValidPath(t, path) && FailsOnly(v, v', AddressAt(v, address, t, path))
    requires forall q | ValidPath(t, q) && AddressAt(v, address, t, q) == AddressAt(v, address, t, path) :: q == path
    ensures Represents(v', address, Fail(t, path))
    decreases t
  {
    if path != [] {
      var bad := AddressAt(v, address, t, path);
      assert ValidPath(t, []) && AddressAt(v, address, t, []) == address;
      var children := NodeAt(v, address).value.children;
      forall i | 0 <= i < |children|
        ensures Represents(v', children[i], Fail(t, path).children[i])
      {
        forall q | ValidPath(t.children[i], q) && AddressAt(v, children[i], t.children[i], q) == bad
          ensures i == path[0] && q == path[1..]
        {
          BelowChild(v, address, t, i, q);
          assert [i] + q == path;
        }
        if i == path[0] {
          CorruptNode(v, v', children[i], t.children[i], path[1..]);
        } else {
          Untouched(v, v', bad, children[i], t.children[i]);
        }
      }
    }
  }

  /** So the walk of the damaged volume is that of the sound one without the damaged node's subtree. */
  lemma DamageDropsSubtree(v: Volume, v': Volume, address: nat, t: Tree, path: seq<nat>, t': Tree)
    returns (before: seq<GenericNode>, after: seq<GenericNode>)
    requires Represents(v, address, t) && ValidPath(t, path) && FailsOnly(v, v', AddressAt(v, address, t, path))
    requires forall q | ValidPath(t, q) && AddressAt(v, address, t, q) == AddressAt(v, address, t, path) :: q == path
    requires Represents(v', address, t')
    ensures Walk(t) == before + Walk(At(t, path)) + after && Walk(t') == before + after
  {
    CorruptNode(v, v', address, t, path);
    TreeUnique(v', address, t', Fail(t, path));
    before, after := FailureDropsSubtree(t, path);
  }

  // ---------- Which volumes have a tree ----------

  ghost predicate IsChild(v: Volume, parent: nat, child: nat)
  {
    NodeAt(v, parent).Done? && NodeAt(v, parent).value.InternalNode? && child in NodeAt(v, parent).value.children
  }

  /** Addresses each of which is a child of the one before. */
  ghost predicate IsPath(v: Volume, path: seq<nat>)
  {
    path != [] && forall i | 0 < i < |path| :: IsChild(v, path[i - 1], path[i])
  }

  /** The second address can be reached from the first, perhaps as itself. */
  ghost predicate Reaches(v: Volume, a: nat, b: nat)
  {
    exists path | IsPath(v, path) :: path[0] == a && path[|path| - 1] == b
  }

  /** An address that can be reached from one of its own children. */
  ghost predicate LiesBelowItself(v: Volume, a: nat)
  {
    exists path | IsPath(v, path) :: |path| > 1 && path[0] == a && path[|path| - 1] == a
  }

  /** Every address that can be reached is mapped, and none lies below itself. */
  ghost predicate Walkable(v: Volume, address: nat)
  {
    forall b: nat | Reaches(v, address, b) :: Mapped(v.chunks, b) && !LiesBelowItself(v, b)
  }

  lemma PathSnoc(v: Volume, path: seq<nat>, child: nat)
    requires IsPath(v, path) && IsChild(v, path[|path| - 1], child)
    ensures IsPath(v, path + [child])
  {
  }

  lemma PathTail(v: Volume, path: seq<nat>, k: nat)
    requires IsPath(v, path) && k < |path|
    ensures IsPath(v, path[k..])
  {
  }

  /** Along a path from an address with a tree the subtrees get smaller. */
  lemma {:induction false} TreeAlong(v: Volume, t: Tree, path: seq<nat>) returns (u: Tree)
    requires IsPath(v, path) && Represents(v, path[0], t)
    ensures Represents(v, path[|path| - 1], u)
    ensures Size(u) + |path| - 1 <= Size(t)
    decreases |path|
  {
    if |path| == 1 {
      u := t;
    } else {
      assert IsChild(v, path[0], path[1]);
      Kind(v, path[0], t);
      var children := NodeAt(v, path[0]).value.children;
      var i :| 0 <= i < |children| && children[i] == path[1];
      assert Represents(v, children[i], t.children[i]);
      SizeOfChild(t.children, i);
      PathTail(v, path, 1);
      u := TreeAlong(v, t.children[i], path[1..]);
    }
  }

  lemma {:induction false} SizeOfChild(trees: seq<Tree>, k: nat)
    requires k < |trees|
    ensures Size(trees[k]) <= SizeAll(trees)
  {
    if k < |trees| - 1 {
      SizeOfChild(trees[..|trees| - 1], k);
    }
  }

  /** An address with a tree is walkable. */
  lemma TreeIsWalkable(v: Volume, address: nat, t: Tree)
    requires Represents(v, address, t)
    ensures Walkable(v, address)
  {
    forall b: nat | Reaches(v, address, b)
      ensures Mapped(v.chunks, b) && !LiesBelowItself(v, b)
    {
      var path :| IsPath(v, path) && path[0] == address && path[|path| - 1] == b;
      var u := TreeAlong(v, t, path);
      Kind(v, b, u);
      if LiesBelowItself(v, b) {
        var cycle :| IsPath(v, cycle) && |cycle| > 1 && cycle[0] == b && cycle[|cycle| - 1] == b;
        var w := TreeAlong(v, u, cycle);
        TreeUnique(v, b, u, w);
        assert false;
      }
    }
  }

  /** An address beyond some chunks. */
  ghost function Beyond(chunks: ChunkMap, keys: set<nat>): (bound: nat)
    requires keys <= chunks.Keys
    ensures forall key | key in keys :: key + chunks[key].size <= bound
    decreases |keys|
  {
    if keys == {} then 0
    else
      var key :| key in keys;
      var end, others := key + chunks[key].size, Beyond(chunks, keys - {key});
      if end < others then others else end
  }

  /** The addresses of a chunk map. */
  ghost function MappedAddresses(chunks: ChunkMap): (s: set<nat>)
    ensures forall a: nat :: a in s <==> Mapped(chunks, a)
  {
    set a: nat | a < Beyond(chunks, chunks.Keys) && Mapped(chunks, a)
  }

  ghost function Elements(path: seq<nat>): set<nat>
  {
    set a | a in path
  }

  /** The tree below the end of a path from a walkable address: each step leaves one mapped address fewer. */
  lemma {:induction false} BuildTree(v: Volume, root: nat, path: seq<nat>) returns (t: Tree)
    requires Walkable(v, root) && IsPath(v, path) && path[0] == root
    ensures Represents(v, path[|path| - 1], t)
    decreases MappedAddresses(v.chunks) - Elements(path), 1
  {
    hide NodeAt, MappedAddresses, Elements;
    var address := path[|path| - 1];
    assert Reaches(v, root, address);
    var r := NodeAt(v, address);
    MappedNode(v, address);
    if r.Error? {
      t := Bad;
    } else if r.value.LeafNode? {
      t := Leaf(r.value);
    } else {
      var children := BuildChildren(v, root, path, r.value.children);
      t := Internal(children);
    }
  }

  lemma MappedNode(v: Volume, address: nat)
    requires Mapped(v.chunks, address)
    ensures !NodeAt(v, address).Panic?
  {
  }

  lemma {:induction false} BuildChildren(v: Volume, root: nat, path: seq<nat>, addresses: seq<nat>)
    returns (children: seq<Tree>)
    requires Walkable(v, root) && IsPath(v, path) && path[0] == root
    requires forall i | 0 <= i < |addresses| :: IsChild(v, path[|path| - 1], addresses[i])
    ensures |children| == |addresses| && forall i | 0 <= i < |addresses| :: Represents(v, addresses[i], children[i])
    decreases MappedAddresses(v.chunks) - Elements(path), 0, |addresses|
  {
    hide NodeAt, MappedAddresses, Elements, Walkable, IsPath, IsChild, Represents;
    children := [];
    if addresses != [] {
      var n := |addresses| - 1;
      var init := BuildChildren(v, root, path, addresses[..n]);
      NewAddress(v, root, path, addresses[n]);
      var last := BuildTree(v, root, path + [addresses[n]]);
      children := init + [last];
    }
  }

  lemma ClosesCycle(v: Volume, path: seq<nat>, child: nat)
    requires IsPath(v, path) && IsChild(v, path[|path| - 1], child) && child in path
    ensures LiesBelowItself(v, child)
  {
    hide IsChild;
    PathSnoc(v, path, child);
    var k :| 0 <= k < |path| && path[k] == child;
    var cycle := (path + [child])[k..];
    PathTail(v, path + [child], k);
    assert |cycle| > 1 && cycle[0] == child && cycle[|cycle| - 1] == child;
  }

  lemma NewAddress(v: Volume, root: nat, path: seq<nat>, child: nat)
    requires Walkable(v, root) && IsPath(v, path) && path[0] == root && IsChild(v, path[|path| - 1], child)
    ensures IsPath(v, path + [child]) && (path + [child])[0] == root
    ensures MappedAddresses(v.chunks) - Elements(path + [child]) < MappedAddresses(v.chunks) - Elements(path)
  {
    PathSnoc(v, path, child);
    var longer := path + [child];
    assert longer[0] == root && longer[|longer| - 1] == child;
    assert Reaches(v, root, child);
    if child in path {
      ClosesCycle(v, path, child);
      assert false;
    }
    assert Elements(longer) == Elements(path) + {child};
    assert child in MappedAddresses(v.chunks) - Elements(path);
    assert child !in MappedAddresses(v.chunks) - Elements(longer);
  }

  /** There is a finite tree below an address, which is what the walk asks for, exactly if all addresses that can be
      reached from it are mapped and none lies below itself. */
  lemma TreeExistsExact(v: Volume, address: nat)
    ensures (exists t :: Represents(v, address, t)) <==> Walkable(v, address)
  {
    hide Walkable;
    if exists t :: Represents(v, address, t) {
      var t :| Represents(v, address, t);
      TreeIsWalkable(v, address, t);
    }
    if Walkable(v, address) {
      var path := [address];
      assert IsPath(v, path) && path[|path| - 1] == address;
      var t := BuildTree(v, address, path);
      assert Represents(v, address, t);
    }
  }

  /** A set of mapped addresses that is closed under children and in which levels descend. */
  ghost predicate LevelsDescend(v: Volume, addresses: set<nat>)
  {
    forall a | a in addresses :: Mapped(v.chunks, a) &&
      forall b: nat | IsChild(v, a, b) ::
        b in addresses &&
        (NodeAt(v, b).Done? && NodeAt(v, b).value.InternalNode? ==> NodeAt(v, b).value.level < NodeAt(v, a).value.level)
  }

  lemma {:induction false} LevelsAlong(v: Volume, addresses: set<nat>, path: seq<nat>)
    requires LevelsDescend(v, addresses) && IsPath(v, path) && path[0] in addresses
    ensures var last := path[|path| - 1];
            last in addresses &&
            (|path| > 1 && NodeAt(v, last).Done? && NodeAt(v, last).value.InternalNode? ==>
               NodeAt(v, path[0]).Done? && NodeAt(v, path[0]).value.InternalNode? &&
               NodeAt(v, last).value.level < NodeAt(v, path[0]).value.level)
    decreases |path|
  {
    hide NodeAt;
    if |path| > 1 {
      var init := path[..|path| - 1];
      assert IsPath(v, init) && IsChild(v, init[|init| - 1], path[|path| - 1]);
      LevelsAlong(v, addresses, init);
    }
  }

  /** In particular there is a tree below every address of such a set. */
  lemma TreeExists(v: Volume, addresses: set<nat>, address: nat)
    requires LevelsDescend(v, addresses) && address in addresses
    ensures exists t :: Represents(v, address, t)
  {
    hide NodeAt;
    forall b: nat | Reaches(v, address, b)
      ensures Mapped(v.chunks, b) && !LiesBelowItself(v, b)
    {
      var path :| IsPath(v, path) && path[0] == address && path[|path| - 1] == b;
      LevelsAlong(v, addresses, path);
      if LiesBelowItself(v, b) {
        var cycle :| IsPath(v, cycle) && |cycle| > 1 && cycle[0] == b && cycle[|cycle| - 1] == b;
        assert IsChild(v, cycle[0], cycle[1]);
        LevelsAlong(v, addresses, cycle);
        assert false;
      }
    }
    TreeExistsExact(v, address);
  }

  /** A volume of three nodes in a partition from byte 1000 on: a root at address 16 and its two leaves behind it. */
  function SmallVolume(): Volume
  {
    Volume(map[16 := Chunk(3, 100)], 1000, 8, false, (offset, size) => if offset == 1100 && size == 3 then [] else [0],
           data => true, data => if data == [] then InternalNode(1, [17, 18]) else LeafNode([], []))
  }

  lemma SmallNodes()
    ensures var v, leaf := SmallVolume(), LeafNode([], []);
            Disjoint(v.chunks) && Mapped(v.chunks, 16) && Mapped(v.chunks, 17) && Mapped(v.chunks, 18) &&
            NodeAt(v, 16) == Done(InternalNode(1, [17, 18])) && NodeAt(v, 17) == Done(leaf) && NodeAt(v, 18) == Done(leaf)
  {
    var chunks := SmallVolume().chunks;
    forall key: nat, a: nat
      ensures Covers(chunks, key, a) <==> key == 16 && 16 <= a < 19
    {
    }
    assert 16 in chunks && Covers(chunks, 16, 16) && Covers(chunks, 16, 17) && Covers(chunks, 16, 18);
    assert KeyOf(chunks, 16) == 16 && KeyOf(chunks, 17) == 16 && KeyOf(chunks, 18) == 16;
  }

  lemma TwoLeaves(leaf: GenericNode)
    ensures Walk(Internal([Leaf(leaf), Leaf(leaf)])) == [leaf, leaf]
  {
    var one, two := [Leaf(leaf)], [Leaf(leaf), Leaf(leaf)];
    assert one[..0] == [] && two[..1] == one;
    assert LeavesOf([]) == [] && WalkInternals([]) == [];
    assert LeavesOf(one) == [leaf] && WalkInternals(one) == [];
    assert LeavesOf(two) == [leaf] + [leaf] && WalkInternals(two) == [];
  }

  /** Its levels descend, and the walk of its tree gives the two leaves. */
  lemma SmallTree()
    ensures var v, leaf := SmallVolume(), LeafNode([], []);
            LevelsDescend(v, {16, 17, 18}) && Represents(v, 16, Internal([Leaf(leaf), Leaf(leaf)])) &&
            Walk(Internal([Leaf(leaf), Leaf(leaf)])) == [leaf, leaf]
  {
    hide NodeAt, SmallVolume;
    var v, leaf := SmallVolume(), LeafNode([], []);
    SmallNodes();
    assert Represents(v, 17, Leaf(leaf)) && Represents(v, 18, Leaf(leaf));
    var children := [Leaf(leaf), Leaf(leaf)];
    assert NodeTree(v, InternalNode(1, [17, 18]), Internal(children));
    TwoLeaves(leaf);
  }

  /** A volume of one internal node that is its own child. */
  function CyclicVolume(): Volume
  {
    Volume(map[1 := Chunk(1, 0)], 0, 1, false, (offset, size) => [], data => true, data => InternalNode(1, [1]))
  }

  lemma CyclicNode()
    ensures var v := CyclicVolume();
            Disjoint(v.chunks) && Mapped(v.chunks, 1) && NodeAt(v, 1) == Done(InternalNode(1, [1]))
  {
    var chunks := CyclicVolume().chunks;
    forall key: nat, a: nat
      ensures Covers(chunks, key, a) <==> key == 1 && a == 1
    {
    }
    assert 1 in chunks && Covers(chunks, 1, 1);
  }

  // ---------- On which volumes the walk ends ----------

  /** A stack of internal nodes is empty after at most n turns of the walk's loop, in which no unmapped address stops
      the program. */
  ghost predicate EndsWithin(v: Volume, nodes: seq<GenericNode>, n: nat)
    decreases n
  {
    nodes == [] ||
    (n > 0 && nodes[|nodes| - 1].InternalNode? &&
     var top := nodes[|nodes| - 1];
     (forall i | 0 <= i < |top.children| :: !NodeAt(v, top.children[i]).Panic?) &&
     EndsWithin(v, nodes[..|nodes| - 1] + Pushed(v, top.children), n - 1))
  }

  /** If the loop ends, each node it began with has a tree. */
  lemma {:induction false} EndedHasTrees(v: Volume, nodes: seq<GenericNode>, n: nat) returns (trees: seq<Tree>)
    requires EndsWithin(v, nodes, n)
    ensures Pending(v, nodes, trees)
    decreases n
  {
    hide NodeAt, Pushed, Represents;
    trees := [];
    if nodes != [] {
      var below, top := nodes[..|nodes| - 1], nodes[|nodes| - 1];
      var later := EndedHasTrees(v, below + Pushed(v, top.children), n - 1);
      var lower, upper := PendingParts(v, below, Pushed(v, top.children), later);
      var children := TreesOfChildren(v, top.children, upper);
      trees := lower + [Internal(children)];
      PendingSnoc(v, below, lower, top, children);
      assert nodes == below + [top];
    }
  }

  lemma PendingParts(v: Volume, a: seq<GenericNode>, b: seq<GenericNode>, trees: seq<Tree>)
    returns (lower: seq<Tree>, upper: seq<Tree>)
    requires Pending(v, a + b, trees)
    ensures Pending(v, a, lower) && Pending(v, b, upper)
  {
    hide NodeTree;
    lower, upper := trees[..|a|], trees[|a|..];
    assert forall i | 0 <= i < |a| :: (a + b)[i] == a[i];
    assert forall i | 0 <= i < |b| :: (a + b)[|a| + i] == b[i];
  }

  lemma PendingSnoc(v: Volume, below: seq<GenericNode>, lower: seq<Tree>, top: GenericNode, children: seq<Tree>)
    requires Pending(v, below, lower) && top.InternalNode? && |children| == |top.children|
    requires forall i | 0 <= i < |children| :: Represents(v, top.children[i], children[i])
    ensures Pending(v, below + [top], lower + [Internal(children)])
  {
    hide NodeAt;
    assert NodeTree(v, top, Internal(children));
  }

  lemma {:induction false} TreesOfChildren(v: Volume, addresses: seq<nat>, trees: seq<Tree>) returns (children: seq<Tree>)
    requires Pending(v, Pushed(v, addresses), trees)
    requires forall i | 0 <= i < |addresses| :: !NodeAt(v, addresses[i]).Panic?
    ensures |children| == |addresses| && forall i | 0 <= i < |addresses| :: Represents(v, addresses[i], children[i])
    decreases |addresses|
  {
    hide NodeAt, Pushed, Pending;
    children := [];
    if addresses != [] {
      var n := |addresses| - 1;
      var init, r := addresses[..n], NodeAt(v, addresses[n]);
      PushedNext(v, addresses, n);
      assert addresses[..n + 1] == addresses;
      var before, last;
      if r.Done? && r.value.InternalNode? {
        var lower, upper := PendingParts(v, Pushed(v, init), [r.value], trees);
        before := TreesOfChildren(v, init, lower);
        last := OnePending(v, r.value, upper);
      } else {
        before := TreesOfChildren(v, init, trees);
        last := if r.Error? then Bad else Leaf(r.value);
      }
      assert Represents(v, addresses[n], last);
      children := before + [last];
    }
  }

  lemma OnePending(v: Volume, node: GenericNode, trees: seq<Tree>) returns (t: Tree)
    requires Pending(v, [node], trees)
    ensures NodeTree(v, node, t)
  {
    t := trees[0];
    assert [node][0] == node;
  }

  /** Expanding a node with a tree pushes its internal children. */
  lemma {:induction false} PushedPending(v: Volume, addresses: seq<nat>, children: seq<Tree>)
    requires |children| == |addresses| && forall i | 0 <= i < |addresses| :: Represents(v, addresses[i], children[i])
    ensures Pending(v, Pushed(v, addresses), InternalsOf(children))
    decreases |addresses|
  {
    hide NodeAt;
    if addresses != [] {
      var n := |addresses| - 1;
      PushedPending(v, addresses[..n], children[..n]);
      Kind(v, addresses[n], children[n]);
    }
  }

  /** Nodes with trees are worked off in no more turns than their trees have nodes. */
  lemma {:induction false} TreesEnd(v: Volume, nodes: seq<GenericNode>, trees: seq<Tree>, n: nat)
    requires Pending(v, nodes, trees) && SizeAll(trees) <= n
    ensures EndsWithin(v, nodes, n)
    decreases n
  {
    hide NodeAt, Pushed, InternalsOf, WalkInternals, LeavesOf, SizeAll;
    if nodes != [] {
      var top, below := PendingTop(v, nodes, trees);
      var node := nodes[|nodes| - 1];
      Expanded(below, top);
      var children := top.children;
      forall i | 0 <= i < |node.children|
        ensures !NodeAt(v, node.children[i]).Panic? && Represents(v, node.children[i], children[i])
      {
        Kind(v, node.children[i], children[i]);
      }
      PushedPending(v, node.children, children);
      var after := below + InternalsOf(children);
      assert Pending(v, nodes[..|nodes| - 1] + Pushed(v, node.children), after);
      TreesEnd(v, nodes[..|nodes| - 1] + Pushed(v, node.children), after, n - 1);
    }
  }

  /** From a root with an internal node the loop ends exactly if all addresses that can be reached are mapped and none
      lies below itself: on a cyclic volume the walk goes on forever. */
  lemma WalkEndsExact(v: Volume, address: nat)
    requires NodeAt(v, address).Done? && NodeAt(v, address).value.InternalNode?
    ensures (exists n :: EndsWithin(v, [NodeAt(v, address).value], n)) <==> Walkable(v, address)
  {
    hide EndsWithin, Walkable, NodeAt;
    var node := NodeAt(v, address).value;
    TreeExistsExact(v, address);
    if n :| EndsWithin(v, [node], n) {
      var trees := EndedHasTrees(v, [node], n);
      assert NodeTree(v, [node][0], trees[0]);
      assert Represents(v, address, trees[0]);
    }
    if t :| Represents(v, address, t) {
      Kind(v, address, t);
      PendingOne(v, node, t);
      TreesEnd(v, [node], [t], SizeAll([t]));
    }
  }

  /** On it the walk never ends. */
  lemma WalkGoesOn(n: nat)
    ensures var v := CyclicVolume();
            NodeAt(v, 1).Done? && !Walkable(v, 1) && !EndsWithin(v, [NodeAt(v, 1).value], n)
  {
    hide NodeAt, EndsWithin, CyclicVolume;
    var v := CyclicVolume();
    CyclicNode();
    var path := [1, 1];
    assert IsChild(v, 1, 1) && IsPath(v, path) && path[0] == 1 && path[|path| - 1] == 1;
    assert Reaches(v, 1, 1) && LiesBelowItself(v, 1);
    assert !Walkable(v, 1);
    WalkEndsExact(v, 1);
  }
}
