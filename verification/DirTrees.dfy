/**
  The directory tree built from untrusted parent numbers, and its descent (tree/builder.go).
*/
module DirTrees {
  import opened MapOrder
  import opened Wrappers

  /** The record number of the root directory. */
  const ROOT := 5

  /** What the builder asks of a file record. */
  datatype Record = Record(id: int, parentId: int, isBase: bool)

  /** Records below the root's number, extension records and records without a parent get no node. */
  predicate Selected(r: Record)
  {
    r.id >= ROOT && r.isBase && r.parentId != -1
  }

  /** The parent number of each node: the last selected record of a number decides. */
  function ParentNumbers(records: seq<Record>): map<int, int>
  {
    if records == [] then map[]
    else
      var rest, r := ParentNumbers(records[..|records| - 1]), records[|records| - 1];
      if Selected(r) then rest[r.id := r.parentId] else rest
  }

  /** A node's parent number is that of the last base record of its number, from 5 on, that has a parent. */
  lemma {:induction false} ParentNumbersExact(records: seq<Record>, x: int, q: int)
    ensures var p := ParentNumbers(records);
            (x in p && p[x] == q) <==>
            x >= 5 && q != -1 &&
            exists k | 0 <= k < |records| ::
              records[k] == Record(x, q, true) &&
              forall l | k < l < |records| :: records[l].id == x && records[l].isBase ==> records[l].parentId == -1
  {
    if records != [] {
      var n := |records| - 1;
      var init, last := records[..n], records[n];
      ParentNumbersExact(init, x, q);
      if Selected(last) && last.id == x {
        assert last.parentId == q ==> records[n] == Record(x, q, true);
      } else if x in ParentNumbers(init) && ParentNumbers(init)[x] == q {
        var k :| 0 <= k < n && init[k] == Record(x, q, true) &&
                 forall l | k < l < n :: init[l].id == x && init[l].isBase ==> init[l].parentId == -1;
        forall l | k < l < |records| && records[l].id == x && records[l].isBase
          ensures records[l].parentId == -1
        {
          if l < n {
            assert init[l] == records[l];
          }
        }
        assert records[k] == Record(x, q, true);
      }
      if k :| 0 <= k < |records| && records[k] == Record(x, q, true) && x >= 5 && q != -1 &&
              forall l | k < l < |records| :: records[l].id == x && records[l].isBase ==> records[l].parentId == -1 {
        if k < n {
          assert init[k] == Record(x, q, true);
          assert forall l | k < l < n :: init[l] == records[l];
        }
      }
    }
  }

  // ---------- Chains of parents ----------

  /** The parent a node hangs below. The root hangs below nothing, whatever its record says. */
  function ParentOf(p: map<int, int>, x: int): Option<int>
  {
    if x in p && x != ROOT && p[x] in p then Some(p[x]) else None
  }

  /** n steps up from x lead to r. */
  predicate Reaches(p: map<int, int>, x: int, r: int, n: nat)
    decreases n
  {
    x in p &&
    if n == 0 then x == r
    else ParentOf(p, x).Some? && Reaches(p, ParentOf(p, x).value, r, n - 1)
  }

  /** x hangs below r, directly, indirectly or by being r. */
  ghost predicate IsUnder(p: map<int, int>, x: int, r: int)
  {
    exists n: nat :: Reaches(p, x, r, n)
  }

  /** Record 5 is the root whatever its parent number; 6 and 7 hang below it, 8 and 9 only below each other, 10 nowhere. */
  lemma SmallDirectory(p: map<int, int>)
    requires p == map[5 := 7, 6 := 5, 7 := 6, 8 := 9, 9 := 8, 10 := 99]
    ensures IsUnder(p, 5, 5) && IsUnder(p, 6, 5) && IsUnder(p, 7, 5) && ParentOf(p, 5) == None
    ensures !IsUnder(p, 8, 5) && !IsUnder(p, 9, 5) && !IsUnder(p, 10, 5) && ParentOf(p, 10) == None
  {
    assert Reaches(p, 5, 5, 0) && Reaches(p, 6, 5, 1) && Reaches(p, 7, 5, 2);
    forall n: nat
      ensures !Reaches(p, 8, 5, n) && !Reaches(p, 9, 5, n) && !Reaches(p, 10, 5, n)
    {
      CycleOfTwo(p, n);
    }
  }

  lemma {:induction false} CycleOfTwo(p: map<int, int>, n: nat)
    requires p == map[5 := 7, 6 := 5, 7 := 6, 8 := 9, 9 := 8, 10 := 99]
    ensures !Reaches(p, 8, 5, n) && !Reaches(p, 9, 5, n) && !Reaches(p, 10, 5, n)
  {
    if n > 0 {
      CycleOfTwo(p, n - 1);
    }
  }

  lemma {:induction false} ReachesThrough(p: map<int, int>, x: int, y: int, r: int, m: nat, n: nat)
    requires Reaches(p, x, y, m) && Reaches(p, y, r, n)
    ensures Reaches(p, x, r, m + n)
    decreases m
  {
    if m > 0 {
      ReachesThrough(p, ParentOf(p, x).value, y, r, m - 1, n);
    }
  }

  /** A number of steps leads to one place only. */
  lemma {:induction false} StepsDetermine(p: map<int, int>, x: int, y: int, z: int, n: nat)
    requires Reaches(p, x, y, n) && Reaches(p, x, z, n)
    ensures y == z
    decreases n
  {
    if n > 0 {
      StepsDetermine(p, ParentOf(p, x).value, y, z, n - 1);
    }
  }

  /** The root is reached after one number of steps only. */
  lemma {:induction false} DepthUnique(p: map<int, int>, x: int, m: nat, n: nat)
    requires Reaches(p, x, ROOT, m) && Reaches(p, x, ROOT, n)
    ensures m == n
    decreases m
  {
    if m > 0 && n > 0 {
      DepthUnique(p, ParentOf(p, x).value, m - 1, n - 1);
    }
  }

  function Ancestors(p: map<int, int>, x: int, n: nat): set<int>
    requires Reaches(p, x, ROOT, n)
    decreases n
  {
    if n == 0 then {x} else {x} + Ancestors(p, ParentOf(p, x).value, n - 1)
  }

  /** The root is at most n steps up. */
  ghost predicate RootWithin(p: map<int, int>, y: int, n: nat)
  {
    exists k: nat :: k <= n && Reaches(p, y, ROOT, k)
  }

  lemma {:induction false} AncestorsAreDistinct(p: map<int, int>, x: int, n: nat)
    requires Reaches(p, x, ROOT, n)
    ensures Ancestors(p, x, n) <= p.Keys && |Ancestors(p, x, n)| == n + 1
    ensures forall y | y in Ancestors(p, x, n) :: RootWithin(p, y, n)
    decreases n
  {
    if n == 0 {
      assert Reaches(p, x, ROOT, 0);
    } else {
      var q := ParentOf(p, x).value;
      AncestorsAreDistinct(p, q, n - 1);
      if x in Ancestors(p, q, n - 1) {
        var k: nat :| k <= n - 1 && Reaches(p, x, ROOT, k);
        DepthUnique(p, x, k, n);
        assert false;
      }
      forall y | y in Ancestors(p, x, n)
        ensures RootWithin(p, y, n)
      {
        if y in Ancestors(p, q, n - 1) {
          var k: nat :| k <= n - 1 && Reaches(p, y, ROOT, k);
          assert k <= n;
        } else {
          assert Reaches(p, y, ROOT, n);
        }
      }
    }
  }

  /** A node's depth is less than the number of nodes. */
  lemma DepthBound(p: map<int, int>, x: int, n: nat)
    requires Reaches(p, x, ROOT, n)
    ensures n < |p|
  {
    AncestorsAreDistinct(p, x, n);
    var a := Ancestors(p, x, n);
    assert p.Keys == a + (p.Keys - a);
  }

  /** Nodes that hang below two different children of one node are different. */
  lemma SubtreesDisjoint(p: map<int, int>, x: int, a: int, b: int, parent: int, depth: nat)
    requires Reaches(p, parent, ROOT, depth)
    requires ParentOf(p, a) == Some(parent) && ParentOf(p, b) == Some(parent)
    requires IsUnder(p, x, a) && IsUnder(p, x, b)
    ensures a == b
  {
    var m: nat :| Reaches(p, x, a, m);
    var n: nat :| Reaches(p, x, b, n);
    ReachesThrough(p, x, a, ROOT, m, depth + 1);
    ReachesThrough(p, x, b, ROOT, n, depth + 1);
    DepthUnique(p, x, m + (depth + 1), n + (depth + 1));
    StepsDetermine(p, x, a, b, m);
  }

  /** A node does not hang below its own child. */
  lemma NotUnderChild(p: map<int, int>, a: int, parent: int, depth: nat)
    requires Reaches(p, parent, ROOT, depth) && ParentOf(p, a) == Some(parent)
    ensures !IsUnder(p, parent, a)
  {
    if IsUnder(p, parent, a) {
      var n: nat :| Reaches(p, parent, a, n);
      ReachesThrough(p, parent, a, ROOT, n, depth + 1);
      DepthUnique(p, parent, depth, n + (depth + 1));
      assert false;
    }
  }

  /** What hangs below a node: the node and what hangs below its children. */
  lemma UnderChildren(p: map<int, int>, x: int, r: int)
    requires r in p
    ensures IsUnder(p, x, r) <==> x == r || exists c :: ParentOf(p, c) == Some(r) && IsUnder(p, x, c)
  {
    if IsUnder(p, x, r) && x != r {
      var n: nat :| Reaches(p, x, r, n);
      LastStep(p, x, r, n);
    }
    if x == r {
      assert Reaches(p, x, r, 0);
    }
    if c :| ParentOf(p, c) == Some(r) && IsUnder(p, x, c) {
      var n: nat :| Reaches(p, x, c, n);
      assert Reaches(p, c, r, 1) by {
        assert Reaches(p, r, r, 0);
      }
      ReachesThrough(p, x, c, r, n, 1);
    }
  }

  lemma {:induction false} LastStep(p: map<int, int>, x: int, r: int, n: nat)
    requires Reaches(p, x, r, n) && n > 0
    ensures exists c :: ParentOf(p, c) == Some(r) && IsUnder(p, x, c)
    decreases n
  {
    var q := ParentOf(p, x).value;
    if n == 1 {
      assert Reaches(p, x, x, 0);
      assert ParentOf(p, x) == Some(r) && IsUnder(p, x, x);
    } else {
      LastStep(p, q, r, n - 1);
      var c :| ParentOf(p, c) == Some(r) && IsUnder(p, q, c);
      var k: nat :| Reaches(p, q, c, k);
      assert Reaches(p, x, c, k + 1);
    }
  }

  // ---------- The tree ----------

  class Node {
    const ID: int
    const ParentID: int
    var parent: Node?
    var children: seq<Node>

    constructor (id: int, parentId: int)
      ensures ID == id && ParentID == parentId && parent == null && children == []
    {
      ID, ParentID, parent, children := id, parentId, null, [];
    }
  }

  /** The nodes of the map are the nodes of the parent numbers. */
  ghost predicate IsNodeMap(p: map<int, int>, nodeMap: map<int, Node>)
  {
    nodeMap.Keys == p.Keys && forall x | x in p :: nodeMap[x].ID == x && nodeMap[x].ParentID == p[x]
  }

  ghost predicate DistinctNodes(s: seq<Node>)
  {
    forall i, j | 0 <= i < j < |s| :: s[i] != s[j]
  }

  /** The children list of a node: exactly the nodes in done that hang below it, each once. */
  ghost predicate ChildrenOf(p: map<int, int>, nodeMap: map<int, Node>, done: set<int>, x: int)
    requires IsNodeMap(p, nodeMap) && done <= p.Keys && x in p
    reads nodeMap[x]
  {
    var c := nodeMap[x].children;
    DistinctNodes(c) &&
    (forall n | n in c :: n.ID in done && n == nodeMap[n.ID] && ParentOf(p, n.ID) == Some(x)) &&
    forall y | y in done && ParentOf(p, y) == Some(x) :: nodeMap[y] in c
  }

  /** The tree after the nodes in done have been linked. */
  ghost predicate Linked(p: map<int, int>, nodeMap: map<int, Node>, done: set<int>)
    requires IsNodeMap(p, nodeMap) && done <= p.Keys
    reads nodeMap.Values
  {
    (forall x | x in p :: ChildrenOf(p, nodeMap, done, x)) &&
    forall x | x in p ::
      nodeMap[x].parent == if x in done && ParentOf(p, x).Some? then nodeMap[p[x]] else null
  }

  /** The orphans among the nodes in done: neither the root nor below a known node. */
  ghost predicate AreOrphans(p: map<int, int>, nodeMap: map<int, Node>, done: set<int>, orphans: seq<Node>)
    requires IsNodeMap(p, nodeMap) && done <= p.Keys
  {
    DistinctNodes(orphans) &&
    (forall n | n in orphans :: n.ID in done && n == nodeMap[n.ID]) &&
    forall x | x in done :: nodeMap[x] in orphans <==> x != ROOT && ParentOf(p, x).None?
  }

  class Tree {
    var root: Node?
    var OrphanedNodes: seq<Node>

    constructor ()
      ensures root == null && OrphanedNodes == []
    {
      root, OrphanedNodes := null, [];
    }

    /** Fills the node map: one node for each selected number. */
    static method MakeNodes(records: seq<Record>) returns (nodeMap: map<int, Node>)
      ensures IsNodeMap(ParentNumbers(records), nodeMap)
      ensures forall x | x in nodeMap :: fresh(nodeMap[x]) && nodeMap[x].parent == null && nodeMap[x].children == []
    {
      nodeMap := map[];
      for idx := 0 to |records|
        invariant IsNodeMap(ParentNumbers(records[..idx]), nodeMap)
        invariant forall x | x in nodeMap :: fresh(nodeMap[x])
        invariant forall x | x in nodeMap :: nodeMap[x].parent == null && nodeMap[x].children == []
      {
        assert records[..idx + 1][..idx] == records[..idx];
        if Selected(records[idx]) {
          var node := new Node(records[idx].id, records[idx].parentId);
          nodeMap := nodeMap[records[idx].id := node];
        }
      }
      assert records[..|records|] == records;
    }

    /** Links one node: the root is remembered, a node below a known node is hung there, any other node is
        an orphan. */
    method LinkNode(node: Node, nodes: map<int, Node>, ghost p: map<int, int>, ghost done: set<int>,
                    ghost orphans: seq<Node>) returns (ghost orphans': seq<Node>)
      requires IsNodeMap(p, nodes) && done <= p.Keys
      requires node.ID in nodes && node == nodes[node.ID] && node.ID !in done
      requires Linked(p, nodes, done) && AreOrphans(p, nodes, done, orphans)
      modifies this, nodes.Values
      ensures Linked(p, nodes, done + {node.ID}) && AreOrphans(p, nodes, done + {node.ID}, orphans')
      ensures root == if node.ID == ROOT then node else old(root)
      ensures |orphans'| >= |orphans| && orphans'[..|orphans|] == orphans
      ensures OrphanedNodes == old(OrphanedNodes) + orphans'[|orphans|..]
    {
      hide Linked, AreOrphans, IsNodeMap, ParentOf;
      NodeAt(p, nodes, node.ID);
      OrphansNext(p, nodes, done, orphans, node.ID);
      orphans' := orphans;
      if node.ID == ROOT {
        root := node;
        LinkedSkip(p, nodes, done, node.ID);
      } else if node.ParentID in nodes {
        NodeAt(p, nodes, node.ParentID);
        LinkChild(node, nodes[node.ParentID], p, nodes, done);
      } else {
        OrphanedNodes := OrphanedNodes + [node];
        orphans' := orphans + [node];
        LinkedSkip(p, nodes, done, node.ID);
      }
    }

    /** Links every node, in whatever order the map gives them. */
    method LinkAll(nodes: map<int, Node>, ghost p: map<int, int>)
      requires IsNodeMap(p, nodes) && Linked(p, nodes, {})
      modifies this, nodes.Values
      ensures Linked(p, nodes, p.Keys)
      ensures root == if ROOT in p then nodes[ROOT] else old(root)
      ensures old(OrphanedNodes) <= OrphanedNodes
      ensures AreOrphans(p, nodes, p.Keys, OrphanedNodes[|old(OrphanedNodes)|..])
    {
      ghost var before := OrphanedNodes;
      ghost var done: set<int>, orphans: seq<Node> := {}, [];
      assert AreOrphans(p, nodes, done, orphans);
      SameKeys(p, nodes);
      hide Linked, AreOrphans, IsNodeMap;
      var keys := nodes.Keys;
      while |keys| > 0
        invariant keys <= p.Keys && done == p.Keys - keys
        invariant Linked(p, nodes, done) && AreOrphans(p, nodes, done, orphans)
        invariant OrphanedNodes == before + orphans
        invariant root == if ROOT in done then nodes[ROOT] else old(root)
        decreases keys
      {
        var key := Pick(keys);
        keys := keys - {key};
        NodeAt(p, nodes, key);
        orphans := LinkNode(nodes[key], nodes, p, done, orphans);
        done := done + {key};
      }
      assert done == p.Keys;
      assert OrphanedNodes[|before|..] == orphans;
    }

    /** Builds the tree from file records. */
    method Build(records: seq<Record>) returns (ghost nodeMap: map<int, Node>)
      modifies this
      ensures var p := ParentNumbers(records);
              IsNodeMap(p, nodeMap) && Linked(p, nodeMap, p.Keys) &&
              root == (if ROOT in p then nodeMap[ROOT] else old(root)) &&
              old(OrphanedNodes) <= OrphanedNodes &&
              AreOrphans(p, nodeMap, p.Keys, OrphanedNodes[|old(OrphanedNodes)|..])
      ensures forall x | x in nodeMap :: fresh(nodeMap[x])
    {
      var nodes := MakeNodes(records);
      nodeMap := nodes;
      NothingLinked(ParentNumbers(records), nodes);
      forall n | n in nodes.Values
        ensures fresh(n)
      {
        var x := KeyOf(nodes, n);
      }
      LinkAll(nodes, ParentNumbers(records));
    }
  }

  lemma KeyOf<K, V>(m: map<K, V>, v: V) returns (k: K)
    requires v in m.Values
    ensures k in m && m[k] == v
  {
    k :| k in m && m[k] == v;
  }

  lemma SameKeys(p: map<int, int>, nodes: map<int, Node>)
    requires IsNodeMap(p, nodes)
    ensures nodes.Keys == p.Keys
  {
  }

  lemma NodeAt(p: map<int, int>, nodes: map<int, Node>, key: int)
    requires IsNodeMap(p, nodes) && key in nodes
    ensures nodes[key].ID == key && key in p
    ensures ParentOf(p, key) ==
            if key != ROOT && nodes[key].ParentID in nodes then Some(nodes[key].ParentID) else None
  {
  }

  lemma NothingLinked(p: map<int, int>, nodes: map<int, Node>)
    requires IsNodeMap(p, nodes) && forall x | x in nodes :: nodes[x].parent == null && nodes[x].children == []
    ensures Linked(p, nodes, {}) && AreOrphans(p, nodes, {}, [])
  {
  }

  lemma LinkedSkip(p: map<int, int>, nodes: map<int, Node>, done: set<int>, key: int)
    requires IsNodeMap(p, nodes) && done <= p.Keys && key in p
    requires Linked(p, nodes, done) && ParentOf(p, key).None?
    ensures Linked(p, nodes, done + {key})
  {
  }

  lemma OrphansNext(p: map<int, int>, nodes: map<int, Node>, done: set<int>, orphans: seq<Node>, key: int)
    requires IsNodeMap(p, nodes) && done <= p.Keys && key in p && key !in done
    requires AreOrphans(p, nodes, done, orphans)
    ensures key == ROOT || ParentOf(p, key).Some? ==> AreOrphans(p, nodes, done + {key}, orphans)
    ensures key != ROOT && ParentOf(p, key).None? ==> AreOrphans(p, nodes, done + {key}, orphans + [nodes[key]])
  {
    var more := orphans + [nodes[key]];
    assert forall n | n in orphans :: n.ID != key;
    assert forall i | 0 <= i < |orphans| :: orphans[i] in orphans;
    assert forall x | x in done :: nodes[x] != nodes[key];
  }

  /** Hangs a node below its parent, which can be the node itself. */
  method LinkChild(node: Node, parent: Node, ghost p: map<int, int>, ghost nodes: map<int, Node>, ghost done: set<int>)
    requires IsNodeMap(p, nodes) && done <= p.Keys && node.ID in p && node.ID !in done && node == nodes[node.ID]
    requires parent.ID in p && parent == nodes[parent.ID] && ParentOf(p, node.ID) == Some(parent.ID)
    requires Linked(p, nodes, done)
    modifies node, parent
    ensures IsNodeMap(p, nodes) && Linked(p, nodes, done + {node.ID})
  {
    hide ParentOf;
    ghost var before := parent.children;
    ParentIs(p, node.ID);
    assert ChildrenOf(p, nodes, done, parent.ID);
    assert forall i | 0 <= i < |before| :: before[i] in before && before[i] != node;
    parent.children := parent.children + [node];
    node.parent := parent;
    forall x | x in p
      ensures ChildrenOf(p, nodes, done + {node.ID}, x)
    {
      assert old(ChildrenOf(p, nodes, done, x));
      if x != parent.ID {
        assert nodes[x] != parent;
        assert nodes[x].children == old(nodes[x].children);
      }
    }
  }

  lemma ParentIs(p: map<int, int>, x: int)
    ensures ParentOf(p, x).Some? ==> x in p && ParentOf(p, x).value == p[x] && p[x] in p
  {
  }

  // ---------- The descent ----------

  function IDs(s: seq<Node>): (r: seq<int>)
    ensures |r| == |s|
  {
    seq(|s|, i requires 0 <= i < |s| => s[i].ID)
  }

  /** Each node once, and exactly those that hang below r. */
  ghost predicate VisitsUnder(p: map<int, int>, nodeMap: map<int, Node>, visited: seq<Node>, r: int)
  {
    DistinctNodes(visited) &&
    (forall n | n in visited :: n.ID in nodeMap && n == nodeMap[n.ID]) &&
    forall x | x in nodeMap :: nodeMap[x] in visited <==> IsUnder(p, x, r)
  }

  predicate ParentBefore(p: map<int, int>, ids: seq<int>, i: nat)
    requires i < |ids|
  {
    exists j | 0 <= j < i :: Some(ids[j]) == ParentOf(p, ids[i])
  }

  /** Each number but the first comes behind its parent's. */
  predicate ParentsFirst(p: map<int, int>, ids: seq<int>)
  {
    forall i | 0 < i < |ids| :: ParentBefore(p, ids, i)
  }

  lemma ParentsFirstJoin(p: map<int, int>, a: seq<int>, b: seq<int>)
    requires a != [] && b != [] && ParentsFirst(p, a) && ParentsFirst(p, b) && ParentOf(p, b[0]) == Some(a[0])
    ensures ParentsFirst(p, a + b)
  {
    hide ParentOf;
    var c := a + b;
    forall i | 0 < i < |c|
      ensures ParentBefore(p, c, i)
    {
      if i < |a| {
        assert ParentBefore(p, a, i);
        var j :| 0 <= j < i && Some(a[j]) == ParentOf(p, a[i]);
        assert Some(c[j]) == ParentOf(p, c[i]);
      } else if i == |a| {
        assert Some(c[0]) == ParentOf(p, c[i]);
      } else {
        assert ParentBefore(p, b, i - |a|);
        var j :| 0 <= j < i - |a| && Some(b[j]) == ParentOf(p, b[i - |a|]);
        assert Some(c[|a| + j]) == ParentOf(p, c[i]);
      }
    }
  }

  /** Descends from a node that reaches the root in depth steps: first the node, then each child's
      subtree. The depth, which is less than the number of nodes, bounds the recursion. */
  method Descend(node: Node, ghost p: map<int, int>, ghost nodeMap: map<int, Node>, ghost depth: nat)
    returns (visited: seq<Node>)
    requires IsNodeMap(p, nodeMap) && Linked(p, nodeMap, p.Keys)
    requires node.ID in p && node == nodeMap[node.ID] && Reaches(p, node.ID, ROOT, depth)
    ensures VisitsUnder(p, nodeMap, visited, node.ID)
    ensures visited != [] && visited[0] == node && ParentsFirst(p, IDs(visited))
    decreases |p| - depth
  {
    hide IsUnder, Linked, VisitsUnder;
    hide ParentsFirst, Visited, DistinctNodes, ParentOf, Reaches;
    ghost var r := node.ID;
    DepthBound(p, r, depth);
    LinkedAt(p, nodeMap, r);
    visited := [node];
    StartVisit(p, nodeMap, r, node);
    OneVisited(p, node);
    var i := 0;
    while i < |node.children|
      invariant 0 <= i <= |node.children|
      invariant Visited(p, nodeMap, visited, node, node.children[..i])
      invariant visited != [] && visited[0] == node && ParentsFirst(p, IDs(visited))
    {
      var child := node.children[i];
      assert child in node.children;
      ChildDepth(p, child.ID, r, depth);
      DepthBound(p, child.ID, depth + 1);
      var below := Descend(child, p, nodeMap, depth + 1);
      NextChild(p, nodeMap, visited, node, i, below, depth);
      ParentsFirstJoin(p, IDs(visited), IDs(below));
      assert IDs(visited + below) == IDs(visited) + IDs(below);
      visited := visited + below;
      i := i + 1;
    }
    assert node.children[..i] == node.children;
    AllChildren(p, nodeMap, visited, node);
  }

  lemma OneVisited(p: map<int, int>, node: Node)
    ensures ParentsFirst(p, IDs([node]))
  {
  }

  /** The node and what hangs below the children in a list, each once. */
  ghost predicate Visited(p: map<int, int>, nodeMap: map<int, Node>, visited: seq<Node>, node: Node, list: seq<Node>)
  {
    DistinctNodes(visited) &&
    (forall n | n in visited :: n.ID in nodeMap && n == nodeMap[n.ID]) &&
    forall x | x in nodeMap ::
      nodeMap[x] in visited <==> nodeMap[x] == node || exists c | c in list :: IsUnder(p, x, c.ID)
  }

  lemma LinkedAt(p: map<int, int>, nodeMap: map<int, Node>, x: int)
    requires IsNodeMap(p, nodeMap) && Linked(p, nodeMap, p.Keys) && x in p
    ensures ChildrenOf(p, nodeMap, p.Keys, x)
  {
  }

  lemma ChildDepth(p: map<int, int>, c: int, parent: int, depth: nat)
    requires Reaches(p, parent, ROOT, depth) && ParentOf(p, c) == Some(parent)
    ensures Reaches(p, c, ROOT, depth + 1)
  {
  }

  lemma StartVisit(p: map<int, int>, nodeMap: map<int, Node>, r: int, node: Node)
    requires IsNodeMap(p, nodeMap) && r in p && node == nodeMap[r]
    ensures Visited(p, nodeMap, [node], node, [])
  {
  }

  /** A further child's subtree shares nothing with what has been visited. */
  lemma NextChild(p: map<int, int>, nodeMap: map<int, Node>, visited: seq<Node>, node: Node, i: nat,
                  below: seq<Node>, depth: nat)
    requires IsNodeMap(p, nodeMap) && node.ID in p && node == nodeMap[node.ID]
    requires Reaches(p, node.ID, ROOT, depth) && i < |node.children|
    requires ChildrenOf(p, nodeMap, p.Keys, node.ID)
    requires Visited(p, nodeMap, visited, node, node.children[..i])
    requires VisitsUnder(p, nodeMap, below, node.children[i].ID)
    ensures Visited(p, nodeMap, visited + below, node, node.children[..i + 1])
  {
    hide IsUnder, Reaches;
    var child, list := node.children[i], node.children[..i];
    assert child in node.children;
    assert node.children[..i + 1] == list + [child];
    forall n | n in visited && n in below
      ensures false
    {
      var x := n.ID;
      if n == node {
        NotUnderChild(p, child.ID, node.ID, depth);
      } else {
        var c :| c in list && IsUnder(p, x, c.ID);
        var k :| 0 <= k < i && list[k] == c;
        assert node.children[k] == c && c in node.children;
        SubtreesDisjoint(p, x, c.ID, child.ID, node.ID, depth);
      }
      assert false;
    }
    JoinDistinct(visited, below);
  }

  lemma JoinDistinct(a: seq<Node>, b: seq<Node>)
    requires DistinctNodes(a) && DistinctNodes(b) && forall n | n in a :: n !in b
    ensures DistinctNodes(a + b)
  {
    forall i, j | 0 <= i < j < |a + b|
      ensures (a + b)[i] != (a + b)[j]
    {
      if i < |a| <= j {
        assert a[i] in a && b[j - |a|] in b;
      }
    }
  }

  lemma AllChildren(p: map<int, int>, nodeMap: map<int, Node>, visited: seq<Node>, node: Node)
    requires IsNodeMap(p, nodeMap) && node.ID in p && node == nodeMap[node.ID]
    requires ChildrenOf(p, nodeMap, p.Keys, node.ID)
    requires Visited(p, nodeMap, visited, node, node.children)
    ensures VisitsUnder(p, nodeMap, visited, node.ID)
  {
    hide IsUnder, Reaches;
    forall x | x in nodeMap
      ensures nodeMap[x] in visited <==> IsUnder(p, x, node.ID)
    {
      UnderChildren(p, x, node.ID);
      if IsUnder(p, x, node.ID) && x != node.ID {
        var c :| ParentOf(p, c) == Some(node.ID) && IsUnder(p, x, c);
        assert nodeMap[c] in node.children;
      }
      if c :| c in node.children && IsUnder(p, x, c.ID) {
        assert ParentOf(p, c.ID) == Some(node.ID);
      }
    }
  }

  /** The outcome of showing a tree: a fault without a root, otherwise the nodes visited. */
  datatype Shown = NoRoot | Shown(nodes: seq<Node>)

  /** Builds a tree and descends it. The descent visits each node whose chain of parents ends at the root
      exactly once and no other node; in particular none on a cycle. */
  method BuildAndShow(records: seq<Record>) returns (r: Shown)
    ensures var p := ParentNumbers(records);
            (r.NoRoot? <==> ROOT !in p) &&
            (r.Shown? ==>
               var ids := IDs(r.nodes);
               (forall i, j | 0 <= i < j < |ids| :: ids[i] != ids[j]) && (forall x :: x in ids <==> IsUnder(p, x, ROOT)) &&
               ids != [] && ids[0] == ROOT && ParentsFirst(p, ids))
  {
    hide Linked, VisitsUnder, IsUnder;
    var t := new Tree();
    ghost var nodeMap := t.Build(records);
    ghost var p := ParentNumbers(records);
    if t.root == null {
      return NoRoot;
    }
    assert Reaches(p, ROOT, ROOT, 0);
    var nodes := Descend(t.root, p, nodeMap, 0);
    VisitedNumbers(p, nodeMap, nodes, ROOT);
    return Shown(nodes);
  }

  /** The numbers of the visited nodes. */
  lemma VisitedNumbers(p: map<int, int>, nodeMap: map<int, Node>, visited: seq<Node>, r: int)
    requires IsNodeMap(p, nodeMap) && VisitsUnder(p, nodeMap, visited, r)
    ensures var ids := IDs(visited);
            (forall i, j | 0 <= i < j < |ids| :: ids[i] != ids[j]) && forall x :: x in ids <==> IsUnder(p, x, r)
  {
    var ids := IDs(visited);
    forall i, j | 0 <= i < j < |ids|
      ensures ids[i] != ids[j]
    {
      assert visited[i] in visited && visited[j] in visited;
    }
    forall x
      ensures x in ids <==> IsUnder(p, x, r)
    {
      if x in ids {
        var i :| 0 <= i < |ids| && ids[i] == x;
        assert visited[i] in visited;
      }
      if IsUnder(p, x, r) {
        assert nodeMap[x] in visited;
        var i :| 0 <= i < |visited| && visited[i] == nodeMap[x];
        assert ids[i] == x;
      }
    }
  }

  // ---------- What the links say ----------

  /** Every node other than the root is an orphan or in exactly one children list, never both; the root is
      in none. */
  lemma OneParentOrOrphan(p: map<int, int>, nodeMap: map<int, Node>, orphans: seq<Node>, x: int)
    requires IsNodeMap(p, nodeMap) && Linked(p, nodeMap, p.Keys) && AreOrphans(p, nodeMap, p.Keys, orphans) && x in p
    ensures x == ROOT ==> nodeMap[x] !in orphans && forall y | y in p :: nodeMap[x] !in nodeMap[y].children
    ensures x != ROOT ==>
              (nodeMap[x] in orphans <==> forall y | y in p :: nodeMap[x] !in nodeMap[y].children)
    ensures forall y, z | y in p && z in p ::
              nodeMap[x] in nodeMap[y].children && nodeMap[x] in nodeMap[z].children ==> y == z
  {
    forall y | y in p
      ensures nodeMap[x] in nodeMap[y].children <==> ParentOf(p, x) == Some(y)
    {
      assert ChildrenOf(p, nodeMap, p.Keys, y);
    }
  }

  /** A node on a cycle of parents does not hang below the root. */
  lemma CyclesAreUnreachable(p: map<int, int>, x: int, n: nat)
    requires n > 0 && Reaches(p, x, x, n)
    ensures !IsUnder(p, x, ROOT)
  {
    if IsUnder(p, x, ROOT) {
      var k: nat :| Reaches(p, x, ROOT, k);
      ReachesThrough(p, x, x, ROOT, n, k);
      DepthUnique(p, x, k, n + k);
      assert false;
    }
  }
}
