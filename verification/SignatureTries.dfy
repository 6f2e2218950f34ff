/** The mutable trie of file signatures and the plain prefix scan it stands for (signatures/signatures.go). */
module SignatureTries {
  import opened MapOrder

  /** A byte as a symbol: only compared, never computed with. */
  type Octet = x: int | 0 <= x < 0x100

  const UNKNOWN_EXTENSION := "Unknown Extension"

  datatype Entry = Entry(signature: seq<Octet>, extension: string)

  // ---------- The plain scan ----------

  /** How many of the inserted signatures have a path as a prefix. */
  function Count(log: seq<Entry>, path: seq<Octet>): nat
  {
    if log == [] then 0
    else Count(log[..|log| - 1], path) + if path <= log[|log| - 1].signature then 1 else 0
  }

  /** The extension of the first inserted signature with a path as a prefix. */
  function FirstExtension(log: seq<Entry>, path: seq<Octet>): string
    requires Count(log, path) > 0
  {
    var init, last := log[..|log| - 1], log[|log| - 1];
    if Count(init, path) > 0 then FirstExtension(init, path) else last.extension
  }

  predicate ProperPrefix(a: seq<Octet>, b: seq<Octet>)
  {
    a <= b && a != b
  }

  /** An inserted signature that starts the header and is no proper prefix of another. */
  predicate IsMatch(log: seq<Entry>, header: seq<Octet>, e: Entry)
  {
    e.signature != [] && e.signature <= header && forall f | f in log :: !ProperPrefix(e.signature, f.signature)
  }

  /** Goes through the first n inserted signatures in order and takes the first match. */
  function ScanFirst(log: seq<Entry>, header: seq<Octet>, n: nat): string
    requires n <= |log|
  {
    if n == 0 then UNKNOWN_EXTENSION
    else if exists k: nat :: k < n - 1 && IsMatch(log, header, log[k]) then ScanFirst(log, header, n - 1)
    else if IsMatch(log, header, log[n - 1]) then log[n - 1].extension
    else UNKNOWN_EXTENSION
  }

  function Scan(log: seq<Entry>, header: seq<Octet>): string
  {
    ScanFirst(log, header, |log|)
  }

  lemma CountSnoc(log: seq<Entry>, e: Entry, path: seq<Octet>)
    ensures Count(log + [e], path) == Count(log, path) + if path <= e.signature then 1 else 0
  {
    assert (log + [e])[..|log|] == log;
  }

  lemma FirstExtensionSnoc(log: seq<Entry>, e: Entry, path: seq<Octet>)
    requires Count(log + [e], path) > 0
    ensures FirstExtension(log + [e], path) == if Count(log, path) > 0 then FirstExtension(log, path) else e.extension
  {
    assert (log + [e])[..|log|] == log;
  }

  lemma {:induction false} CountPositive(log: seq<Entry>, path: seq<Octet>)
    ensures Count(log, path) > 0 <==> exists e :: e in log && path <= e.signature
  {
    if log != [] {
      var init, last := log[..|log| - 1], log[|log| - 1];
      CountPositive(init, path);
      assert forall e :: e in log <==> e in init || e == last;
    }
  }

  /** A shorter path is a prefix of more signatures. */
  lemma PrefixCount(log: seq<Entry>, path: seq<Octet>, longer: seq<Octet>)
    requires path <= longer && Count(log, longer) > 0
    ensures Count(log, path) > 0
  {
    CountPositive(log, path);
    CountPositive(log, longer);
  }

  // ---------- The trie ----------

  class SignatureNode {
    var IsTerminal: bool
    var Extension: string
    var Occurrences: int
    var Children: map<Octet, SignatureNode>

    constructor (isTerminal: bool, extension: string, occurrences: int)
      ensures IsTerminal == isTerminal && Extension == extension && Occurrences == occurrences && Children == map[]
    {
      IsTerminal, Extension, Occurrences, Children := isTerminal, extension, occurrences, map[];
    }
  }

  /** The nodes of a trie by path. */
  type Nodes = map<seq<Octet>, SignatureNode>

  /** Two paths never share a node. */
  ghost predicate Injective(nodes: Nodes)
  {
    forall p, q | p in nodes && q in nodes && nodes[p] == nodes[q] :: p == q
  }

  /** A node's children are the nodes whose paths extend its own by one byte. */
  ghost predicate ChildrenAt(nodes: Nodes, path: seq<Octet>)
    requires path in nodes
    reads nodes[path]
  {
    var c := nodes[path].Children;
    forall b: Octet :: (b in c <==> path + [b] in nodes) && (b in c ==> c[b] == nodes[path + [b]])
  }

  /** A node's fields in terms of the inserted signatures. The root counts nothing and is never terminal. */
  ghost predicate FieldsAt(nodes: Nodes, log: seq<Entry>, path: seq<Octet>)
    requires path in nodes
    reads nodes[path]
  {
    var n := nodes[path];
    if path == [] then !n.IsTerminal
    else
      n.Occurrences == Count(log, path) > 0 && n.Extension == FirstExtension(log, path) &&
      (n.IsTerminal <==> n.Children == map[])
  }

  ghost predicate IsTrie(nodes: Nodes, log: seq<Entry>)
    reads nodes.Values
  {
    Injective(nodes) &&
    (forall path: seq<Octet> :: path in nodes <==> path == [] || Count(log, path) > 0) &&
    forall path | path in nodes :: ChildrenAt(nodes, path) && FieldsAt(nodes, log, path)
  }

  /** Inserting an empty signature is inserting nothing. */
  lemma EmptySignature(nodes: Nodes, log: seq<Entry>, extension: string)
    requires IsTrie(nodes, log)
    ensures IsTrie(nodes, log + [Entry([], extension)])
  {
    var e := Entry([], extension);
    forall path: seq<Octet> | path != []
      ensures Count(log + [e], path) == Count(log, path)
      ensures Count(log, path) > 0 ==> FirstExtension(log + [e], path) == FirstExtension(log, path)
    {
      CountSnoc(log, e, path);
      if Count(log, path) > 0 {
        FirstExtensionSnoc(log, e, path);
      }
    }
    forall path | path in nodes
      ensures FieldsAt(nodes, log + [e], path)
    {
      assert FieldsAt(nodes, log, path);
    }
  }

  /** How the counts change when an inserted signature gets one byte longer. */
  lemma LongerSignature(log: seq<Entry>, path: seq<Octet>, b: Octet, extension: string, p: seq<Octet>)
    ensures var short, long := log + [Entry(path, extension)], log + [Entry(path + [b], extension)];
            Count(long, p) == Count(short, p) + (if p == path + [b] then 1 else 0) &&
            (Count(short, p) > 0 ==> FirstExtension(long, p) == FirstExtension(short, p)) &&
            (Count(short, p) == 0 && Count(long, p) > 0 ==> FirstExtension(long, p) == extension)
  {
    var e, f := Entry(path, extension), Entry(path + [b], extension);
    CountSnoc(log, e, p);
    CountSnoc(log, f, p);
    assert p <= path + [b] <==> p <= path || p == path + [b];
    assert !(path + [b] <= path);
    if Count(log + [f], p) > 0 {
      FirstExtensionSnoc(log, f, p);
      if Count(log + [e], p) > 0 {
        FirstExtensionSnoc(log, e, p);
      }
    }
  }

  /** One more occurrence of a path that has a node. */
  lemma CountedOnce(nodes: Nodes, log: seq<Entry>, path: seq<Octet>, b: Octet, extension: string)
    requires path in nodes && path + [b] in nodes && Injective(nodes)
    requires forall p: seq<Octet> :: p in nodes <==> p == [] || Count(log + [Entry(path, extension)], p) > 0
    requires forall p | p in nodes :: ChildrenAt(nodes, p)
    requires forall p | p in nodes && p != path + [b] :: FieldsAt(nodes, log + [Entry(path, extension)], p)
    requires var n, short := nodes[path + [b]], log + [Entry(path, extension)];
             n.Occurrences == Count(short, path + [b]) + 1 && n.Extension == FirstExtension(short, path + [b]) &&
             (n.IsTerminal <==> n.Children == map[])
    ensures IsTrie(nodes, log + [Entry(path + [b], extension)])
  {
    var short, long := log + [Entry(path, extension)], log + [Entry(path + [b], extension)];
    forall p: seq<Octet>
      ensures p in nodes <==> p == [] || Count(long, p) > 0
    {
      LongerSignature(log, path, b, extension, p);
    }
    forall p | p in nodes
      ensures FieldsAt(nodes, long, p)
    {
      LongerSignature(log, path, b, extension, p);
    }
  }

  lemma SameLastByte(p: seq<Octet>, path: seq<Octet>, b: Octet)
    ensures forall c: Octet :: p + [c] == path + [b] <==> p == path && c == b
  {
    forall c: Octet
      ensures p + [c] == path + [b] <==> p == path && c == b
    {
      if p + [c] == path + [b] {
        assert (p + [c])[..|p|] == p && (path + [b])[..|path|] == path;
        assert (p + [c])[|p|] == c && (path + [b])[|path|] == b;
      }
    }
  }

  /** A path without a node has no node below it either. */
  lemma LeafHasNoExtension(nodes: Nodes, log: seq<Entry>, q: seq<Octet>)
    requires forall path: seq<Octet> :: path in nodes <==> path == [] || Count(log, path) > 0
    requires q !in nodes
    ensures forall c: Octet :: q + [c] !in nodes
  {
    forall c: Octet
      ensures q + [c] !in nodes
    {
      if q + [c] in nodes {
        PrefixCount(log, q, q + [c]);
        assert false;
      }
    }
  }

  lemma ChildrenOfParent(nodes: Nodes, path: seq<Octet>, b: Octet, childNode: SignatureNode, others: map<Octet, SignatureNode>)
    requires path in nodes && nodes[path].Children == others[b := childNode]
    requires forall c: Octet :: (c in others <==> path + [c] in nodes) && (c in others ==> others[c] == nodes[path + [c]])
    ensures ChildrenAt(nodes[path + [b] := childNode], path) && nodes[path].Children != map[]
  {
    SameLastByte(path, path, b);
    assert b in nodes[path].Children;
  }

  lemma ChildrenElsewhere(nodes: Nodes, path: seq<Octet>, b: Octet, childNode: SignatureNode, p: seq<Octet>)
    requires p in nodes && p != path && p != path + [b] && ChildrenAt(nodes, p)
    ensures ChildrenAt(nodes[path + [b] := childNode], p)
  {
    SameLastByte(p, path, b);
  }

  /** A new child below a path, seen from every other path. */
  lemma ChildAdded(nodes: Nodes, log: seq<Entry>, path: seq<Octet>, b: Octet, extension: string, childNode: SignatureNode,
                   others: map<Octet, SignatureNode>)
    requires Injective(nodes) && path in nodes && path + [b] !in nodes && childNode !in nodes.Values
    requires forall p: seq<Octet> :: p in nodes <==> p == [] || Count(log + [Entry(path, extension)], p) > 0
    requires forall p | p in nodes && p != path :: ChildrenAt(nodes, p) && FieldsAt(nodes, log + [Entry(path, extension)], p)
    requires forall c: Octet :: (c in others <==> path + [c] in nodes) && (c in others ==> others[c] == nodes[path + [c]])
    requires var n, short := nodes[path], log + [Entry(path, extension)];
             !n.IsTerminal && n.Children == others[b := childNode] &&
             (path != [] ==> n.Occurrences == Count(short, path) && n.Extension == FirstExtension(short, path))
    requires childNode.IsTerminal && childNode.Occurrences == 1
    requires childNode.Extension == extension && childNode.Children == map[]
    ensures IsTrie(nodes[path + [b] := childNode], log + [Entry(path + [b], extension)])
  {
    hide Count, FirstExtension, ChildrenAt, Injective;
    var q := path + [b];
    var short, long, nodes' := log + [Entry(path, extension)], log + [Entry(q, extension)], nodes[q := childNode];
    StillInjective(nodes, q, childNode);
    forall p: seq<Octet>
      ensures p in nodes' <==> p == [] || Count(long, p) > 0
    {
      LongerSignature(log, path, b, extension, p);
    }
    ChildrenOfParent(nodes, path, b, childNode, others);
    LeafHasNoExtension(nodes, short, q);
    ChildrenOfLeaf(nodes, q, childNode);
    forall p | p in nodes'
      ensures ChildrenAt(nodes', p) && FieldsAt(nodes', long, p)
    {
      LongerSignature(log, path, b, extension, p);
      if p != path && p != q {
        ChildrenElsewhere(nodes, path, b, childNode, p);
        assert FieldsAt(nodes, short, p) && nodes'[p] == nodes[p];
      }
    }
  }

  lemma StillInjective(nodes: Nodes, q: seq<Octet>, childNode: SignatureNode)
    requires Injective(nodes) && q !in nodes && childNode !in nodes.Values
    ensures Injective(nodes[q := childNode])
  {
    assert forall p | p in nodes :: nodes[p] in nodes.Values;
  }

  lemma ChildrenOfLeaf(nodes: Nodes, q: seq<Octet>, childNode: SignatureNode)
    requires childNode.Children == map[] && forall c: Octet :: q + [c] !in nodes
    ensures ChildrenAt(nodes[q := childNode], q)
  {
    assert forall c: Octet :: |q + [c]| == |q| + 1;
  }

  method OneMoreOccurrence(node: SignatureNode, b: Octet, ghost child: SignatureNode) returns (childNode: SignatureNode)
    requires b in node.Children && node.Children[b] == child
    modifies node`Children, node`IsTerminal, child`Occurrences
    ensures childNode == child && child.Occurrences == old(child.Occurrences) + 1
    ensures node.Children == old(node.Children) && !node.IsTerminal
  {
    childNode := node.Children[b];
    assert node.Children[b := childNode] == node.Children;
    childNode.Occurrences := childNode.Occurrences + 1;
    node.Children := node.Children[b := childNode];
    node.IsTerminal := false;
  }

  /** Follows an existing child: one more occurrence. */
  method FollowChild(node: SignatureNode, b: Octet, ghost nodes: Nodes, ghost log: seq<Entry>, ghost path: seq<Octet>,
                     ghost extension: string) returns (childNode: SignatureNode)
    requires IsTrie(nodes, log + [Entry(path, extension)]) && path in nodes && node == nodes[path]
    requires b in node.Children
    modifies nodes.Values
    ensures path + [b] in nodes && childNode == nodes[path + [b]]
    ensures IsTrie(nodes, log + [Entry(path + [b], extension)])
  {
    hide Count, FirstExtension;
    ghost var short := log + [Entry(path, extension)];
    ghost var q := path + [b];
    assert ChildrenAt(nodes, path) && FieldsAt(nodes, short, path);
    assert ChildrenAt(nodes, q) && FieldsAt(nodes, short, q);
    assert |q| == |path| + 1;
    assert node.Children[b] in nodes.Values && node in nodes.Values;
    childNode := OneMoreOccurrence(node, b, node.Children[b]);
    assert b in node.Children;
    assert ChildrenAt(nodes, q) && ChildrenAt(nodes, path) && FieldsAt(nodes, short, path);
    forall p | p in nodes && p != path && p != q
      ensures ChildrenAt(nodes, p) && FieldsAt(nodes, short, p)
    {
      assert nodes[p] != node && nodes[p] != childNode;
      assert old(ChildrenAt(nodes, p)) && old(FieldsAt(nodes, short, p));
    }
    CountedOnce(nodes, log, path, b, extension);
  }

  /** Adds a child: terminal, with one occurrence and the extension being inserted. */
  method AddChild(node: SignatureNode, b: Octet, ghost nodes: Nodes, ghost log: seq<Entry>, ghost path: seq<Octet>,
                  extension: string) returns (childNode: SignatureNode)
    requires IsTrie(nodes, log + [Entry(path, extension)]) && path in nodes && node == nodes[path]
    requires b !in node.Children
    modifies node
    ensures fresh(childNode) && path + [b] !in nodes
    ensures IsTrie(nodes[path + [b] := childNode], log + [Entry(path + [b], extension)])
  {
    hide Count, FirstExtension;
    ghost var short := log + [Entry(path, extension)];
    ghost var others := node.Children;
    assert ChildrenAt(nodes, path) && FieldsAt(nodes, short, path);
    childNode := new SignatureNode(true, extension, 1);
    node.Children := node.Children[b := childNode];
    node.IsTerminal := false;
    forall p | p in nodes && p != path
      ensures ChildrenAt(nodes, p) && FieldsAt(nodes, short, p)
    {
      assert old(ChildrenAt(nodes, p)) && old(FieldsAt(nodes, short, p));
    }
    ChildAdded(nodes, log, path, b, extension, childNode, others);
  }

  /** One byte of an insertion. */
  method InsertByte(node: SignatureNode, sigval: Octet, ghost nodes0: Nodes, ghost log: seq<Entry>, ghost path: seq<Octet>,
                    extension: string) returns (childNode: SignatureNode, ghost nodes: Nodes)
    requires IsTrie(nodes0, log + [Entry(path, extension)]) && path in nodes0 && node == nodes0[path]
    modifies nodes0.Values
    ensures path + [sigval] in nodes && childNode == nodes[path + [sigval]]
    ensures IsTrie(nodes, log + [Entry(path + [sigval], extension)])
    ensures [] in nodes0 ==> [] in nodes && nodes[[]] == nodes0[[]]
    ensures fresh(nodes.Values - nodes0.Values)
  {
    hide IsTrie;
    nodes := nodes0;
    assert node in nodes0.Values;
    if sigval in node.Children {
      childNode := FollowChild(node, sigval, nodes0, log, path, extension);
    } else {
      childNode := AddChild(node, sigval, nodes0, log, path, extension);
      nodes := nodes0[path + [sigval] := childNode];
      assert nodes.Values <= nodes0.Values + {childNode};
    }
  }

  /** Inserts a signature byte by byte. */
  method Insert(root: SignatureNode, signature: seq<Octet>, extension: string, ghost nodes0: Nodes, ghost log: seq<Entry>)
    returns (ghost nodes: Nodes)
    requires IsTrie(nodes0, log) && [] in nodes0 && root == nodes0[[]]
    modifies nodes0.Values
    ensures IsTrie(nodes, log + [Entry(signature, extension)])
    ensures [] in nodes && root == nodes[[]] && fresh(nodes.Values - nodes0.Values)
  {
    hide IsTrie;
    nodes := nodes0;
    EmptySignature(nodes, log, extension);
    var node := root;
    var i := 0;
    assert signature[..0] == [];
    while i < |signature|
      invariant 0 <= i <= |signature|
      invariant signature[..i] in nodes && node == nodes[signature[..i]]
      invariant [] in nodes && root == nodes[[]]
      invariant IsTrie(nodes, log + [Entry(signature[..i], extension)])
      invariant fresh(nodes.Values - nodes0.Values)
    {
      assert signature[..i + 1] == signature[..i] + [signature[i]];
      node, nodes := InsertByte(node, signature[i], nodes, log, signature[..i], extension);
      i := i + 1;
    }
    assert signature[..i] == signature;
  }

  // ---------- Looking a header up ----------

  /** A node that is a leaf for its path decides the scan. */
  lemma LeafDecides(log: seq<Entry>, header: seq<Octet>, path: seq<Octet>)
    requires path != [] && path <= header && Count(log, path) > 0
    requires forall b: Octet :: Count(log, path + [b]) == 0
    ensures Scan(log, header) == FirstExtension(log, path)
  {
    forall e | e in log
      ensures IsMatch(log, header, e) <==> path <= e.signature
    {
      LeafEntry(log, header, path, e);
    }
    LeafScan(log, header, path, |log|);
    assert log[..|log|] == log;
  }

  /** Of two prefixes of a header one is a prefix of the other. */
  lemma PrefixesCompare(a: seq<Octet>, b: seq<Octet>, header: seq<Octet>)
    requires a <= header && b <= header
    ensures a <= b || b <= a
  {
    if |a| <= |b| {
      assert a == header[..|a|] == b[..|a|];
    } else {
      assert b == header[..|b|] == a[..|b|];
    }
  }

  /** Below a leaf every signature is the leaf's own path, and only that path can match. */
  lemma LeafEntry(log: seq<Entry>, header: seq<Octet>, path: seq<Octet>, e: Entry)
    requires path != [] && path <= header && Count(log, path) > 0 && e in log
    requires forall b: Octet :: Count(log, path + [b]) == 0
    ensures path <= e.signature <==> e.signature == path
    ensures IsMatch(log, header, e) <==> path <= e.signature
  {
    forall f | f in log && path <= f.signature
      ensures f.signature == path
    {
      if |f.signature| > |path| {
        var b := f.signature[|path|];
        assert path + [b] == f.signature[..|path| + 1];
        CountPositive(log, path + [b]);
        assert false;
      }
    }
    CountPositive(log, path);
    var g :| g in log && path <= g.signature;
    if e.signature <= header {
      PrefixesCompare(path, e.signature, header);
      if !(path <= e.signature) {
        assert ProperPrefix(e.signature, g.signature);
      }
    }
  }

  lemma {:induction false} LeafScan(log: seq<Entry>, header: seq<Octet>, path: seq<Octet>, n: nat)
    requires n <= |log|
    requires forall e | e in log :: IsMatch(log, header, e) <==> path <= e.signature
    ensures (exists k: nat :: k < n && IsMatch(log, header, log[k])) <==> Count(log[..n], path) > 0
    ensures Count(log[..n], path) > 0 ==> ScanFirst(log, header, n) == FirstExtension(log[..n], path)
  {
    hide IsMatch;
    if n > 0 {
      LeafScan(log, header, path, n - 1);
      assert log[..n][..n - 1] == log[..n - 1] && log[..n][n - 1] == log[n - 1];
      assert log[n - 1] in log;
      if k: nat :| k < n && IsMatch(log, header, log[k]) && k < n - 1 {
        assert Count(log[..n - 1], path) > 0;
      }
      if Count(log[..n - 1], path) > 0 {
        var k: nat :| k < n - 1 && IsMatch(log, header, log[k]);
        assert k < n;
      }
    }
  }

  lemma {:induction false} NoMatchScan(log: seq<Entry>, header: seq<Octet>, n: nat)
    requires n <= |log| && forall e | e in log :: !IsMatch(log, header, e)
    ensures ScanFirst(log, header, n) == UNKNOWN_EXTENSION
  {
    if n > 0 {
      assert log[n - 1] in log;
      assert forall k: nat | k < n - 1 :: log[k] in log;
    }
  }

  lemma KeyOf<K, V>(m: map<K, V>) returns (k: K)
    requires m != map[]
    ensures k in m
  {
    assert m.Keys != {};
    k :| k in m.Keys;
  }

  /** With no leaf on the header's path as far as it has nodes, nothing matches. */
  lemma NothingMatches(nodes: Nodes, log: seq<Entry>, header: seq<Octet>, i: nat)
    requires IsTrie(nodes, log) && i <= |header|
    requires forall j | 0 < j <= i :: header[..j] in nodes && !nodes[header[..j]].IsTerminal
    requires i < |header| ==> header[..i + 1] !in nodes
    ensures Scan(log, header) == UNKNOWN_EXTENSION
  {
    forall e | e in log
      ensures !IsMatch(log, header, e)
    {
      var s := e.signature;
      if s != [] && s <= header {
        CountPositive(log, s);
        if |s| > i {
          assert header[..i + 1] <= s;
          PrefixCount(log, header[..i + 1], s);
          assert false;
        }
        assert s == header[..|s|];
        assert ChildrenAt(nodes, s) && FieldsAt(nodes, log, s);
        var b := KeyOf(nodes[s].Children);
        CountPositive(log, s + [b]);
        var f :| f in log && s + [b] <= f.signature;
        assert ProperPrefix(s, f.signature);
      }
    }
    NoMatchScan(log, header, |log|);
  }

  lemma ChildOf(nodes: Nodes, log: seq<Entry>, path: seq<Octet>, b: Octet)
    requires IsTrie(nodes, log) && path in nodes
    ensures b in nodes[path].Children <==> path + [b] in nodes
    ensures b in nodes[path].Children ==> nodes[path].Children[b] == nodes[path + [b]]
  {
    assert ChildrenAt(nodes, path);
  }

  /** A terminal node on the header's path holds the extension of the scan. */
  lemma TerminalDecides(nodes: Nodes, log: seq<Entry>, header: seq<Octet>, i: nat)
    requires 0 < i <= |header| && IsTrie(nodes, log)
    requires header[..i] in nodes && nodes[header[..i]].IsTerminal
    ensures Scan(log, header) == nodes[header[..i]].Extension
  {
    hide Scan, Count, FirstExtension;
    var path := header[..i];
    assert FieldsAt(nodes, log, path);
    TerminalIsLeaf(nodes, log, path);
    LeafDecides(log, header, path);
  }

  lemma TerminalIsLeaf(nodes: Nodes, log: seq<Entry>, path: seq<Octet>)
    requires IsTrie(nodes, log) && path in nodes && path != [] && nodes[path].IsTerminal
    ensures forall b: Octet :: Count(log, path + [b]) == 0
  {
    forall b: Octet
      ensures Count(log, path + [b]) == 0
    {
      assert ChildrenAt(nodes, path) && FieldsAt(nodes, log, path);
      assert path + [b] !in nodes;
    }
  }

  // ---------- The manager ----------

  /** A log inserts exactly a map's signatures, each once, in some order. */
  predicate Lists(log: seq<Entry>, signatures: map<string, seq<Octet>>)
  {
    (forall e | e in log :: e.extension in signatures && signatures[e.extension] == e.signature) &&
    (forall x | x in signatures :: Entry(signatures[x], x) in log) &&
    forall i, j | 0 <= i < j < |log| :: log[i].extension != log[j].extension
  }

  class SignatureManager {
    var Root: SignatureNode
    ghost var Paths: Nodes
    ghost var Log: seq<Entry>

    ghost predicate Valid()
      reads this, Paths.Values
    {
      IsTrie(Paths, Log) && [] in Paths && Root == Paths[[]]
    }

    constructor ()
      ensures Valid() && Log == [] && fresh(Paths.Values)
    {
      var root := EmptyTrie();
      Root, Paths, Log := root, map[[] := root], [];
    }

    /** Replaces the trie by one of the given signatures, inserted in the arbitrary order of map iteration. */
    method BuildSignatureTree(signatures: map<string, seq<Octet>>)
      modifies this
      ensures Valid() && Lists(Log, signatures) && fresh(Paths.Values)
    {
      hide IsTrie;
      hide Lists;
      Root := EmptyTrie();
      ghost var paths: Nodes, log: seq<Entry> := map[[] := Root], [];
      var rest := signatures.Keys;
      ListsNothing(signatures, rest);
      while rest != {}
        invariant IsTrie(paths, log) && [] in paths && Root == paths[[]] && fresh(paths.Values)
        invariant rest <= signatures.Keys && Lists(log, map x | x in signatures && x !in rest :: signatures[x])
        decreases |rest|
      {
        var extension := Pick(rest);
        ListsOneMore(log, signatures, rest, extension);
        paths := Insert(Root, signatures[extension], extension, paths, log);
        log, rest := log + [Entry(signatures[extension], extension)], rest - {extension};
      }
      assert (map x | x in signatures && x !in rest :: signatures[x]) == signatures;
      Paths, Log := paths, log;
    }

    /** Walks the trie along the header; the first terminal node gives the extension. */
    method FindSignature(fileHeader: seq<Octet>) returns (extension: string)
      requires Valid()
      ensures extension == Scan(Log, fileHeader)
    {
      hide IsTrie, Scan;
      var nextNode := Root;
      var i := 0;
      assert fileHeader[..0] == [];
      while i < |fileHeader|
        invariant 0 <= i <= |fileHeader|
        invariant fileHeader[..i] in Paths && nextNode == Paths[fileHeader[..i]]
        invariant forall j | 0 < j <= i :: fileHeader[..j] in Paths && !Paths[fileHeader[..j]].IsTerminal
      {
        var targetByte := fileHeader[i];
        assert fileHeader[..i + 1] == fileHeader[..i] + [targetByte];
        ChildOf(Paths, Log, fileHeader[..i], targetByte);
        if targetByte !in nextNode.Children {
          break;
        }
        nextNode := nextNode.Children[targetByte];
        if nextNode.IsTerminal {
          TerminalDecides(Paths, Log, fileHeader, i + 1);
          return nextNode.Extension;
        }
        i := i + 1;
      }
      NothingMatches(Paths, Log, fileHeader, i);
      return UNKNOWN_EXTENSION;
    }
  }

  method EmptyTrie() returns (root: SignatureNode)
    ensures fresh(root) && IsTrie(map[[] := root], [])
  {
    root := new SignatureNode(false, "", 0);
    ghost var nodes: Nodes := map[[] := root];
    assert forall path: seq<Octet> :: path in nodes <==> path == [];
    assert forall path: seq<Octet> :: Count([], path) == 0;
    forall b: Octet
      ensures [b] !in nodes && [] + [b] == [b]
    {}
    assert ChildrenAt(nodes, []) && FieldsAt(nodes, [], []);
  }

  lemma ListsNothing(signatures: map<string, seq<Octet>>, rest: set<string>)
    requires signatures.Keys <= rest
    ensures Lists([], map x | x in signatures && x !in rest :: signatures[x])
  {}

  lemma ListsOneMore(log: seq<Entry>, signatures: map<string, seq<Octet>>, rest: set<string>, x: string)
    requires x in rest && rest <= signatures.Keys
    requires Lists(log, map y | y in signatures && y !in rest :: signatures[y])
    ensures Lists(log + [Entry(signatures[x], x)], map y | y in signatures && y !in rest - {x} :: signatures[y])
  {
    hide Lists;
    var before := map y | y in signatures && y !in rest :: signatures[y];
    ListsSnoc(log, before, Entry(signatures[x], x));
    assert before[x := signatures[x]] == map y | y in signatures && y !in rest - {x} :: signatures[y];
  }

  lemma ListsSnoc(log: seq<Entry>, m: map<string, seq<Octet>>, e: Entry)
    requires Lists(log, m) && e.extension !in m
    ensures Lists(log + [e], m[e.extension := e.signature])
  {
    assert forall i | 0 <= i < |log| :: log[i] in log;
    assert forall f :: f in log + [e] <==> f in log || f == e;
  }

  // ---------- Insertion order ----------

  /** All matches are one and the same byte string. */
  lemma MatchesAgree(log: seq<Entry>, header: seq<Octet>, e: Entry, f: Entry)
    requires e in log && f in log && IsMatch(log, header, e) && IsMatch(log, header, f)
    ensures e.signature == f.signature
  {
    PrefixesCompare(e.signature, f.signature, header);
    assert !ProperPrefix(e.signature, f.signature) && !ProperPrefix(f.signature, e.signature);
  }

  lemma {:induction false} FirstMatchWins(log: seq<Entry>, header: seq<Octet>, k: nat, n: nat)
    requires k < n <= |log| && IsMatch(log, header, log[k])
    requires forall j: nat | j < k :: !IsMatch(log, header, log[j])
    ensures ScanFirst(log, header, n) == log[k].extension
  {
    if k < n - 1 {
      FirstMatchWins(log, header, k, n - 1);
    }
  }

  /** The scan's answer is a match's extension, or there is no match. */
  lemma ScanAnswer(log: seq<Entry>, header: seq<Octet>) returns (k: nat)
    ensures k <= |log|
    ensures k < |log| ==> IsMatch(log, header, log[k]) && Scan(log, header) == log[k].extension
    ensures k == |log| ==> Scan(log, header) == UNKNOWN_EXTENSION && forall e | e in log :: !IsMatch(log, header, e)
  {
    k := 0;
    while k < |log| && !IsMatch(log, header, log[k])
      invariant k <= |log| && forall j: nat | j < k :: !IsMatch(log, header, log[j])
    {
      k := k + 1;
    }
    if k < |log| {
      FirstMatchWins(log, header, k, |log|);
    } else {
      NoMatchScan(log, header, |log|);
    }
  }

  /** A signature of the map that starts the header and is no proper prefix of another. */
  predicate Matches(signatures: map<string, seq<Octet>>, header: seq<Octet>, x: string)
  {
    x in signatures && signatures[x] != [] && signatures[x] <= header &&
    forall y | y in signatures :: !ProperPrefix(signatures[x], signatures[y])
  }

  lemma MatchesInLog(log: seq<Entry>, signatures: map<string, seq<Octet>>, header: seq<Octet>, e: Entry)
    requires Lists(log, signatures) && e in log
    ensures IsMatch(log, header, e) <==> Matches(signatures, header, e.extension)
  {
    if IsMatch(log, header, e) {
      forall y | y in signatures
        ensures !ProperPrefix(e.signature, signatures[y])
      {
        assert Entry(signatures[y], y) in log;
      }
    }
    if Matches(signatures, header, e.extension) {
      forall f | f in log
        ensures !ProperPrefix(e.signature, f.signature)
      {
        assert f.extension in signatures;
      }
    }
  }

  /** With one match at most, every insertion order gives it. */
  lemma SingleMatch(log: seq<Entry>, signatures: map<string, seq<Octet>>, header: seq<Octet>)
    requires Lists(log, signatures)
    ensures Scan(log, header) == UNKNOWN_EXTENSION || Matches(signatures, header, Scan(log, header))
    ensures (exists x :: Matches(signatures, header, x)) ==> Matches(signatures, header, Scan(log, header))
  {
    hide Scan, IsMatch, Matches;
    var k := ScanAnswer(log, header);
    if k < |log| {
      MatchesInLog(log, signatures, header, log[k]);
    } else if x :| Matches(signatures, header, x) {
      MatchIsListed(signatures, header, x);
      var e := Entry(signatures[x], x);
      ListedIn(log, signatures, x);
      MatchesInLog(log, signatures, header, e);
      assert false;
    }
  }

  lemma MatchIsListed(signatures: map<string, seq<Octet>>, header: seq<Octet>, x: string)
    requires Matches(signatures, header, x)
    ensures x in signatures
  {}

  lemma ListedIn(log: seq<Entry>, signatures: map<string, seq<Octet>>, x: string)
    requires Lists(log, signatures) && x in signatures
    ensures Entry(signatures[x], x) in log
  {}

  /** Some insertion order starts with a given signature. */
  lemma {:induction false} StartsWith(signatures: map<string, seq<Octet>>, x: string) returns (log: seq<Entry>)
    requires x in signatures
    ensures Lists(log, signatures) && log != [] && log[0].extension == x
  {
    log := [Entry(signatures[x], x)];
    var rest := signatures.Keys - {x};
    assert forall y | y in signatures :: y !in rest <==> y == x;
    while rest != {}
      invariant rest <= signatures.Keys && log != [] && log[0].extension == x
      invariant Lists(log, map y | y in signatures && y !in rest :: signatures[y])
      decreases |rest|
    {
      var y :| y in rest;
      ListsOneMore(log, signatures, rest, y);
      log, rest := log + [Entry(signatures[y], y)], rest - {y};
    }
    assert (map y | y in signatures && y !in rest :: signatures[y]) == signatures;
  }

  /** The order of insertion does not matter for a header exactly if no two extensions share its matching signature. */
  lemma OrderIndependentExact(signatures: map<string, seq<Octet>>, header: seq<Octet>)
    ensures (forall a, b | Lists(a, signatures) && Lists(b, signatures) :: Scan(a, header) == Scan(b, header)) <==>
            (forall x, y | Matches(signatures, header, x) && Matches(signatures, header, y) :: x == y)
  {
    hide Scan, Matches;
    if forall x, y | Matches(signatures, header, x) && Matches(signatures, header, y) :: x == y {
      forall a, b | Lists(a, signatures) && Lists(b, signatures)
        ensures Scan(a, header) == Scan(b, header)
      {
        SingleMatch(a, signatures, header);
        SingleMatch(b, signatures, header);
      }
    }
    if forall a, b | Lists(a, signatures) && Lists(b, signatures) :: Scan(a, header) == Scan(b, header) {
      forall x, y | Matches(signatures, header, x) && Matches(signatures, header, y)
        ensures x == y
      {
        var a := StartingMatchWins(signatures, header, x);
        var b := StartingMatchWins(signatures, header, y);
        assert Scan(a, header) == Scan(b, header);
      }
    }
  }

  lemma StartingMatchWins(signatures: map<string, seq<Octet>>, header: seq<Octet>, x: string) returns (log: seq<Entry>)
    requires Matches(signatures, header, x)
    ensures Lists(log, signatures) && Scan(log, header) == x
  {
    log := StartsWith(signatures, x);
    MatchesInLog(log, signatures, header, log[0]);
    FirstMatchWins(log, header, 0, |log|);
  }

  /** Two extensions with one signature: whichever was inserted first is found. */
  lemma SharedSignature()
    ensures var s: seq<Octet> := [0xD0, 0xCF, 0x11, 0xE0];
            var signatures := map["DOC" := s, "XLS" := s];
            var a, b := [Entry(s, "DOC"), Entry(s, "XLS")], [Entry(s, "XLS"), Entry(s, "DOC")];
            Lists(a, signatures) && Lists(b, signatures) && Scan(a, s) == "DOC" && Scan(b, s) == "XLS"
  {
    var s: seq<Octet> := [0xD0, 0xCF, 0x11, 0xE0];
    var a, b := [Entry(s, "DOC"), Entry(s, "XLS")], [Entry(s, "XLS"), Entry(s, "DOC")];
    FirstMatchWins(a, s, 0, 2);
    FirstMatchWins(b, s, 0, 2);
  }

  /** A signature that begins a longer one is not found, and what starts with neither is unknown. */
  lemma LongerShadows(log: seq<Entry>)
    requires log == [Entry([1], "A"), Entry([1, 2], "B"), Entry([], "C")]
    ensures Scan(log, [1, 2, 3]) == "B" && Scan(log, [1, 3]) == "Unknown Extension" && Scan(log, []) == "Unknown Extension"
  {
    var one: seq<Octet>, two: seq<Octet> := [1], [1, 2];
    assert one <= two && one != two && log[1] in log;
    assert !IsMatch(log, [1, 2, 3], log[0]) && !IsMatch(log, [1, 3], log[0]);
    forall f | f in log
      ensures !ProperPrefix(two, f.signature)
    {
    }
    assert two <= [1, 2, 3] && IsMatch(log, [1, 2, 3], log[1]);
    FirstMatchWins(log, [1, 2, 3], 1, 3);
    var other: seq<Octet> := [1, 3];
    assert two[1] != other[1] && !(two <= other);
    NothingFound(log, [1, 3]);
    NothingFound(log, []);
  }

  lemma NothingFound(log: seq<Entry>, header: seq<Octet>)
    requires |log| == 3 && !IsMatch(log, header, log[0]) && !IsMatch(log, header, log[1]) && !IsMatch(log, header, log[2])
    ensures Scan(log, header) == UNKNOWN_EXTENSION
  {
  }
}
