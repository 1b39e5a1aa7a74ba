/** The parsed document tree that the external HTML parser hands to the crawler,
    and cursors into it.

    The parser's nodes are linked by Parent, FirstChild and NextSibling pointers.
    Here the tree is an immutable value and a pointer to one of its nodes is the
    path of child indices from the root (`At`).  `Fake` is the one node that is
    not part of any parsed tree: the synthetic parent that `FakeParent` builds,
    whose FirstChild pointer is set and whose other links are nil. */
module Dom {
  import opened Wrappers
  import opened Seqs

  /** The parser's node types; ErrorNode is the zero value. */
  datatype NodeType = ErrorNode | TextNode | DocumentNode | ElementNode | CommentNode | DoctypeNode | RawNode

  datatype Attribute = Attribute(key: string, val: string)

  /** A parsed node: its type, its tag name or text (Data), its attribute list in
      document order and its children in document order. */
  datatype Tree = Tree(kind: NodeType, data: string, attrs: seq<Attribute>, children: seq<Tree>)

  function TreeSize(t: Tree): nat
    decreases t
  {
    1 + ForestSize(t.children)
  }

  function ForestSize(ts: seq<Tree>): nat
    decreases ts
  {
    if ts == [] then 0 else TreeSize(ts[0]) + ForestSize(ts[1..])
  }

  /** The node reached from `t` by following the child indices in `path`. */
  function Lookup(t: Tree, path: seq<nat>): Option<Tree>
    decreases |path|
  {
    if path == [] then Some(t)
    else match Lookup(t, DropLast(path))
      case None => None
      case Some(p) => if Last(path) < |p.children| then Some(p.children[Last(path)]) else None
  }

  datatype Pos = At(root: Tree, path: seq<nat>) | Fake(child: Option<Pos>)

  predicate ValidPos(p: Pos)
    decreases p
  {
    match p
    case At(r, path) => Lookup(r, path).Some?
    case Fake(ch) => ch.None? || ValidPos(ch.value)
  }

  /** A pointer to a node: a position in a parsed tree, or a synthetic parent. */
  type Cursor = p: Pos | ValidPos(p) witness Fake(None)

  function Subtree(c: Cursor): Tree
    requires c.At?
  {
    Lookup(c.root, c.path).value
  }

  function Kind(c: Cursor): NodeType
  {
    if c.At? then Subtree(c).kind else ErrorNode
  }

  function Data(c: Cursor): string
  {
    if c.At? then Subtree(c).data else ""
  }

  function Attrs(c: Cursor): seq<Attribute>
  {
    if c.At? then Subtree(c).attrs else []
  }

  /** Number of nodes in the subtree under `c`, `c` included. */
  function NodeSize(c: Cursor): (n: nat)
    ensures n >= 1
    decreases c, 0
  {
    match c
    case At(r, p) => TreeSize(Lookup(r, p).value)
    case Fake(ch) => 1 + (if ch.None? then 0 else ChainSize(ch.value))
  }

  /** Number of nodes under `c` and under each of its following siblings. */
  function ChainSize(c: Cursor): nat
    decreases c, 1
  {
    match c
    case At(r, p) =>
      if p == [] then TreeSize(r) else ForestSize(Lookup(r, DropLast(p)).value.children[Last(p)..])
    case Fake(_) => NodeSize(c)
  }

  function ChainSizeOf(n: Option<Cursor>): nat
  {
    if n.None? then 0 else ChainSize(n.value)
  }

  /** Length of the parent chain above `c`. */
  function Depth(c: Cursor): nat
  {
    if c.At? then |c.path| else 0
  }

  lemma ForestSizeSplit(ts: seq<Tree>, i: nat)
    requires i < |ts|
    ensures ForestSize(ts[i..]) == TreeSize(ts[i]) + ForestSize(ts[i + 1..])
  {
    assert ts[i..][0] == ts[i];
    assert ts[i..][1..] == ts[i + 1..];
  }

  /** Every prefix of a path that leads to a node leads to a node. */
  lemma {:induction false} LookupPrefix(t: Tree, p: seq<nat>, k: nat)
    requires Lookup(t, p).Some? && k <= |p|
    ensures Lookup(t, p[..k]).Some?
    decreases |p|
  {
    if k < |p| {
      assert DropLast(p)[..k] == p[..k];
      LookupPrefix(t, DropLast(p), k);
    } else {
      assert p[..k] == p;
    }
  }

  lemma FirstChildAt(root: Tree, p: seq<nat>)
    requires Lookup(root, p).Some? && |Lookup(root, p).value.children| > 0
    ensures ValidPos(At(root, p + [0]))
    ensures NodeSize(At(root, p)) == 1 + ChainSize(At(root, p + [0]))
  {
    assert ValidPos(At(root, p));
    var t := Lookup(root, p).value;
    assert DropLast(p + [0]) == p;
    assert Last(p + [0]) == 0;
    assert Lookup(root, p + [0]) == Some(t.children[0]);
    assert t.children[0..] == t.children;
  }

  lemma LeafAt(root: Tree, p: seq<nat>)
    requires Lookup(root, p).Some? && |Lookup(root, p).value.children| == 0
    ensures NodeSize(At(root, p)) == 1
  {
    assert ValidPos(At(root, p));
    var t := Lookup(root, p).value;
    assert t.children == [];
    assert ForestSize(t.children) == 0;
    assert NodeSize(At(root, p)) == TreeSize(t) == 1 + ForestSize(t.children);
  }

  /** The FirstChild pointer. */
  function FirstChildOf(c: Cursor): (r: Option<Cursor>)
    ensures r.None? ==> NodeSize(c) == 1
    ensures r.Some? ==> NodeSize(c) == 1 + ChainSize(r.value)
  {
    match c
    case At(root, p) =>
      if |Lookup(root, p).value.children| > 0 then
        FirstChildAt(root, p);
        Some(At(root, p + [0]))
      else
        LeafAt(root, p);
        None
    case Fake(ch) => if ch.None? then None else Some(ch.value)
  }

  /** The NextSibling pointer. */
  function NextSiblingOf(c: Cursor): (r: Option<Cursor>)
    ensures ChainSize(c) == NodeSize(c) + ChainSizeOf(r)
  {
    match c
    case At(root, p) =>
      if p == [] then None
      else
        var q := DropLast(p);
        var cs := Lookup(root, q).value.children;
        var i := Last(p);
        ForestSizeSplit(cs, i);
        if i + 1 < |cs| then
          assert DropLast(q + [i + 1]) == q;
          Some(At(root, q + [i + 1]))
        else
          assert cs[i + 1..] == [];
          None
    case Fake(_) => None
  }

  /** The Parent pointer. */
  function ParentOf(c: Cursor): (r: Option<Cursor>)
    ensures r.Some? ==> Depth(r.value) < Depth(c)
  {
    match c
    case At(root, p) => if p == [] then None else Some(At(root, DropLast(p)))
    case Fake(_) => None
  }

  /** The nodes reached from `n` by following NextSibling pointers, `n` first. */
  function Chain(n: Option<Cursor>): seq<Cursor>
    decreases ChainSizeOf(n)
  {
    if n.None? then [] else [n.value] + Chain(NextSiblingOf(n.value))
  }

  /** Following a sibling chain one step, after the nodes `seen`. */
  lemma ChainStep(c: Cursor, seen: seq<Cursor>)
    ensures seen + Chain(Some(c)) == (seen + [c]) + Chain(NextSiblingOf(c))
    ensures ChainSizeOf(NextSiblingOf(c)) < ChainSize(c)
  {
  }

  /** The children of `c`, in order: its FirstChild and that child's sibling chain. */
  function Kids(c: Cursor): seq<Cursor>
  {
    Chain(FirstChildOf(c))
  }

  /** The nodes reached from `c` by following Parent pointers, nearest first. */
  function Ancestors(c: Cursor): seq<Cursor>
    decreases Depth(c)
  {
    var p := ParentOf(c);
    if p.None? then [] else [p.value] + Ancestors(p.value)
  }

  /** The first child of a parsed node is the node one level down at index 0. */
  lemma FirstChildLinks(c: Cursor)
    requires c.At? && FirstChildOf(c).Some?
    ensures FirstChildOf(c).value == At(c.root, c.path + [0])
    ensures ParentOf(FirstChildOf(c).value) == Some(c)
  {
    assert DropLast(c.path + [0]) == c.path;
  }

  /** A next sibling has the same parent and lies at the same depth. */
  lemma NextSiblingLinks(c: Cursor)
    requires NextSiblingOf(c).Some?
    ensures c.At? && NextSiblingOf(c).value.At? && NextSiblingOf(c).value.root == c.root
    ensures |NextSiblingOf(c).value.path| == |c.path| > 0
    ensures DropLast(NextSiblingOf(c).value.path) == DropLast(c.path)
    ensures Last(NextSiblingOf(c).value.path) == Last(c.path) + 1
    ensures ParentOf(NextSiblingOf(c).value) == ParentOf(c)
  {
    var q := DropLast(c.path);
    assert DropLast(q + [Last(c.path) + 1]) == q;
  }

  /** A later sibling of `x` is on the sibling chain that starts at `x`. */
  lemma {:induction false} ChainHasLater(x: Cursor, y: Cursor)
    requires x.At? && y.At? && x.root == y.root && |x.path| == |y.path| > 0
    requires DropLast(x.path) == DropLast(y.path) && Last(x.path) <= Last(y.path)
    ensures y in Chain(Some(x))
    decreases Last(y.path) - Last(x.path)
  {
    assert Chain(Some(x)) == [x] + Chain(NextSiblingOf(x));
    if Last(x.path) < Last(y.path) {
      assert Lookup(y.root, y.path).Some?;
      var z := NextSiblingOf(x).value;
      NextSiblingLinks(x);
      ChainHasLater(z, y);
    } else {
      assert x.path == DropLast(x.path) + [Last(x.path)];
      assert y.path == DropLast(y.path) + [Last(y.path)];
    }
  }

  /** A node is among the children of its parent. */
  lemma KidOfParent(c: Cursor)
    requires ParentOf(c).Some?
    ensures c in Kids(ParentOf(c).value)
  {
    var p := ParentOf(c).value;
    assert Lookup(c.root, c.path).Some?;
    FirstChildLinks(p);
    ChainHasLater(FirstChildOf(p).value, c);
  }


  /** `c` sits at or below `a` in the same parsed tree. */
  predicate Under(c: Cursor, a: Cursor)
  {
    c.At? && a.At? && c.root == a.root && |a.path| <= |c.path| && c.path[..|a.path|] == a.path
  }

  /** `c` is a proper descendant of `a`. */
  predicate Below(c: Cursor, a: Cursor)
  {
    Under(c, a) && |a.path| < |c.path|
  }

  lemma {:induction false} AncestorsShallower(c: Cursor)
    ensures forall a | a in Ancestors(c) :: Depth(a) < Depth(c)
    decreases Depth(c)
  {
    var p := ParentOf(c);
    if p.Some? {
      AncestorsShallower(p.value);
    }
  }

  /** Every node that `c` lies below is among its ancestors. */
  lemma {:induction false} BelowIsAncestor(c: Cursor, a: Cursor)
    requires Below(c, a)
    ensures a in Ancestors(c)
    decreases Depth(c)
  {
    var p: Cursor := ParentOf(c).value;
    assert p == At(c.root, DropLast(c.path));
    if |a.path| + 1 == |c.path| {
      assert a.path == c.path[..|a.path|] == DropLast(c.path);
      assert p == a;
    } else {
      assert p.path[..|a.path|] == c.path[..|a.path|];
      BelowIsAncestor(p, a);
    }
  }
}
