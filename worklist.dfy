/** The worklist walk shared by the outline builder and the nav extractor.

    The walk holds a current node and a queue of first children.  When the
    current node is nil it takes the front of the queue; otherwise it visits the
    node, puts the node's first child at the back of the queue unless the node
    stops the descent, and moves on to the next sibling.  `Walk` lists the nodes
    visited, in order; the imperative loops of the outline and extract modules
    are proved to visit exactly this sequence. */
module Worklist {
  import opened Wrappers
  import opened Seqs
  import opened Dom

  /** Nodes still reachable through the queued sibling chains. */
  function QueueSize(q: seq<Cursor>): nat
    decreases |q|
  {
    if q == [] then 0 else ChainSize(q[0]) + QueueSize(q[1..])
  }

  lemma {:induction false} QueueSizeAppend(q: seq<Cursor>, x: Cursor)
    ensures QueueSize(q + [x]) == QueueSize(q) + ChainSize(x)
    decreases |q|
  {
    if q == [] {
      assert ([] + [x])[1..] == [];
    } else {
      assert (q + [x])[1..] == q[1..] + [x];
      QueueSizeAppend(q[1..], x);
    }
  }

  /** The queue after visiting `c`: its first child goes to the back unless
      `stop` holds of `c` or `c` has no children. */
  function Enqueue(c: Cursor, q: seq<Cursor>, stop: Cursor -> bool): seq<Cursor>
  {
    if !stop(c) && FirstChildOf(c).Some? then q + [FirstChildOf(c).value] else q
  }

  lemma StepShrinks(c: Cursor, q: seq<Cursor>, stop: Cursor -> bool)
    ensures ChainSizeOf(NextSiblingOf(c)) + QueueSize(Enqueue(c, q, stop)) < ChainSize(c) + QueueSize(q)
  {
    if !stop(c) && FirstChildOf(c).Some? {
      QueueSizeAppend(q, FirstChildOf(c).value);
    }
  }

  /** The nodes the walk visits from current node `n` and queue `q`. */
  function Walk(n: Option<Cursor>, q: seq<Cursor>, stop: Cursor -> bool): seq<Cursor>
    decreases ChainSizeOf(n) + QueueSize(q), if n.None? then 1 else 0
  {
    if n.Some? then
      StepShrinks(n.value, q, stop);
      [n.value] + Walk(NextSiblingOf(n.value), Enqueue(n.value, q, stop), stop)
    else if q == [] then []
    else Walk(Some(q[0]), q[1..], stop)
  }

  /** One step of the walk on a current node. */
  lemma WalkStep(n: Option<Cursor>, q: seq<Cursor>, stop: Cursor -> bool)
    requires n.Some?
    ensures Walk(n, q, stop) == [n.value] + Walk(NextSiblingOf(n.value), Enqueue(n.value, q, stop), stop)
    ensures ChainSizeOf(NextSiblingOf(n.value)) + QueueSize(Enqueue(n.value, q, stop)) < ChainSizeOf(n) + QueueSize(q)
  {
    StepShrinks(n.value, q, stop);
  }

  /** The walk still to go after visiting the current node, once the visited
      prefix `seen` has been extended by it. */
  lemma WalkAdvance(w: seq<Cursor>, seen: seq<Cursor>, n: Option<Cursor>, q: seq<Cursor>, stop: Cursor -> bool)
    requires n.Some? && w == seen + Walk(n, q, stop)
    ensures w == (seen + [n.value]) + Walk(NextSiblingOf(n.value), Enqueue(n.value, q, stop), stop)
    ensures ChainSizeOf(NextSiblingOf(n.value)) + QueueSize(Enqueue(n.value, q, stop)) < ChainSizeOf(n) + QueueSize(q)
  {
    WalkStep(n, q, stop);
  }

  /** Taking the front of the queue when there is no current node. */
  lemma WalkPop(q: seq<Cursor>, stop: Cursor -> bool)
    ensures q == [] ==> Walk(None, q, stop) == []
    ensures q != [] ==> Walk(None, q, stop) == Walk(Some(q[0]), q[1..], stop)
    ensures q != [] ==> ChainSizeOf(Some(q[0])) + QueueSize(q[1..]) == QueueSize(q)
  {
  }

  /** The walk over the proper descendants of `p`, starting at its first child. */
  function WalkBelow(p: Cursor, stop: Cursor -> bool): seq<Cursor>
  {
    Walk(FirstChildOf(p), [], stop)
  }

  /** `x` lies below `p`, and no node strictly between them stops the descent. */
  predicate Inside(x: Cursor, p: Cursor, stop: Cursor -> bool)
  {
    Below(x, p) && forall a | a in Ancestors(x) && Below(a, p) :: !stop(a)
  }

  lemma SiblingInside(c: Cursor, p: Cursor, stop: Cursor -> bool)
    requires Inside(c, p, stop) && NextSiblingOf(c).Some?
    ensures Inside(NextSiblingOf(c).value, p, stop)
  {
    var s := NextSiblingOf(c).value;
    NextSiblingLinks(c);
    var q := DropLast(c.path);
    assert c.path == q + [Last(c.path)];
    assert s.path == q + [Last(s.path)];
    assert |p.path| <= |q|;
    assert s.path[..|p.path|] == q[..|p.path|] == c.path[..|p.path|];
  }

  lemma ChildInside(c: Cursor, p: Cursor, stop: Cursor -> bool)
    requires Inside(c, p, stop) && !stop(c) && FirstChildOf(c).Some?
    ensures Inside(FirstChildOf(c).value, p, stop)
  {
    var f := FirstChildOf(c).value;
    FirstChildLinks(c);
    assert Ancestors(f) == [c] + Ancestors(c);
    assert f.path[..|p.path|] == c.path[..|p.path|];
  }

  /** Every node the walk visits is inside `p`, given that the starting node
      and every queued node are. */
  lemma {:induction false} WalkInside(n: Option<Cursor>, q: seq<Cursor>, p: Cursor, stop: Cursor -> bool)
    requires n.Some? ==> Inside(n.value, p, stop)
    requires forall i | 0 <= i < |q| :: Inside(q[i], p, stop)
    ensures forall x | x in Walk(n, q, stop) :: Inside(x, p, stop)
    decreases ChainSizeOf(n) + QueueSize(q), if n.None? then 1 else 0
  {
    if n.Some? {
      var c := n.value;
      StepShrinks(c, q, stop);
      if NextSiblingOf(c).Some? {
        SiblingInside(c, p, stop);
      }
      if !stop(c) && FirstChildOf(c).Some? {
        ChildInside(c, p, stop);
      }
      WalkInside(NextSiblingOf(c), Enqueue(c, q, stop), p, stop);
    } else if q != [] {
      WalkInside(Some(q[0]), q[1..], p, stop);
    }
  }

  /** The walk visits the whole chain of its current node and of every queued
      node, and the children of every visited node that does not stop it. */
  lemma {:induction false} WalkCovers(n: Option<Cursor>, q: seq<Cursor>, stop: Cursor -> bool)
    ensures forall y | y in Chain(n) :: y in Walk(n, q, stop)
    ensures forall i, y | 0 <= i < |q| && y in Chain(Some(q[i])) :: y in Walk(n, q, stop)
    ensures forall x, y | x in Walk(n, q, stop) && !stop(x) && y in Kids(x) :: y in Walk(n, q, stop)
    decreases ChainSizeOf(n) + QueueSize(q), if n.None? then 1 else 0
  {
    if n.Some? {
      var c := n.value;
      var q' := Enqueue(c, q, stop);
      StepShrinks(c, q, stop);
      WalkCovers(NextSiblingOf(c), q', stop);
      assert forall i | 0 <= i < |q| :: q'[i] == q[i];
      if !stop(c) && FirstChildOf(c).Some? {
        assert q'[|q|] == FirstChildOf(c).value;
        assert Some(q'[|q|]) == FirstChildOf(c);
      }
    } else if q != [] {
      WalkCovers(Some(q[0]), q[1..], stop);
      assert forall i | 1 <= i < |q| :: q[i] == q[1..][i - 1];
    }
  }

  lemma FirstChildInside(p: Cursor, stop: Cursor -> bool)
    requires p.At? && FirstChildOf(p).Some?
    ensures Inside(FirstChildOf(p).value, p, stop)
  {
    var f := FirstChildOf(p).value;
    FirstChildLinks(p);
    assert Ancestors(f) == [p] + Ancestors(p);
    AncestorsShallower(p);
    assert forall a | a in Ancestors(p) :: !Below(a, p);
    assert forall a | a in Ancestors(f) :: !Below(a, p);
    assert f.path[..|p.path|] == p.path;
  }

  lemma {:induction false} InsideIsVisited(p: Cursor, stop: Cursor -> bool, y: Cursor)
    requires p.At? && Inside(y, p, stop)
    ensures y in WalkBelow(p, stop)
    decreases Depth(y)
  {
    WalkCovers(FirstChildOf(p), [], stop);
    var par: Cursor := ParentOf(y).value;
    assert par == At(y.root, DropLast(y.path));
    KidOfParent(y);
    assert Ancestors(y) == [par] + Ancestors(par);
    if |par.path| == |p.path| {
      assert par.path == y.path[..|p.path|] == p.path;
      assert par == p;
    } else {
      assert par.path[..|p.path|] == y.path[..|p.path|];
      InsideIsVisited(p, stop, par);
    }
  }

  /** The walk below `p` visits exactly the nodes inside `p`: the proper
      descendants of `p` none of whose ancestors below `p` stops the descent. */
  lemma WalkBelowExact(p: Cursor, stop: Cursor -> bool)
    requires p.At?
    ensures forall y :: y in WalkBelow(p, stop) <==> Inside(y, p, stop)
  {
    if FirstChildOf(p).Some? {
      FirstChildInside(p, stop);
    }
    WalkInside(FirstChildOf(p), [], p, stop);
    forall y | Inside(y, p, stop)
      ensures y in WalkBelow(p, stop)
    {
      InsideIsVisited(p, stop, y);
    }
  }

  /** No visited node lies below a visited node that stops the descent. */
  lemma NoVisitBelowStop(p: Cursor, stop: Cursor -> bool, x: Cursor, y: Cursor)
    requires p.At?
    requires x in WalkBelow(p, stop) && y in WalkBelow(p, stop) && stop(x)
    ensures !Below(y, x)
  {
    WalkBelowExact(p, stop);
    if Below(y, x) {
      BelowIsAncestor(y, x);
      assert false;
    }
  }

  predicate DepthSorted(s: seq<Cursor>)
  {
    forall i, j | 0 <= i < j < |s| :: Depth(s[i]) <= Depth(s[j])
  }

  /** The shape of the queue in a level-order walk: depths never decrease,
      and span at most two neighbouring levels. */
  predicate Levelled(n: Option<Cursor>, q: seq<Cursor>)
  {
    DepthSorted(q)
    && (forall i | 0 <= i < |q| :: q[i].At?)
    && (n.Some? ==> n.value.At? && forall i | 0 <= i < |q| :: Depth(n.value) <= Depth(q[i]) <= Depth(n.value) + 1)
    && (n.None? ==> forall i | 0 <= i < |q| :: Depth(q[i]) <= Depth(q[0]) + 1)
  }

  lemma LevelledStep(c: Cursor, q: seq<Cursor>, stop: Cursor -> bool)
    requires Levelled(Some(c), q)
    ensures Levelled(NextSiblingOf(c), Enqueue(c, q, stop))
    ensures forall i | 0 <= i < |Enqueue(c, q, stop)| :: Depth(c) <= Depth(Enqueue(c, q, stop)[i])
    ensures NextSiblingOf(c).Some? ==> Depth(NextSiblingOf(c).value) == Depth(c)
  {
    var q' := Enqueue(c, q, stop);
    if !stop(c) && FirstChildOf(c).Some? {
      FirstChildLinks(c);
      assert Depth(q'[|q|]) == Depth(c) + 1;
      assert forall i | 0 <= i < |q| :: q'[i] == q[i];
    }
    assert forall i | 0 <= i < |q'| :: q'[i].At? && Depth(c) <= Depth(q'[i]) <= Depth(c) + 1;
    if NextSiblingOf(c).Some? {
      NextSiblingLinks(c);
    }
  }

  lemma SortedCons(c: Cursor, w: seq<Cursor>)
    requires DepthSorted(w) && forall x | x in w :: Depth(c) <= Depth(x)
    ensures DepthSorted([c] + w)
  {
    var s := [c] + w;
    forall i, j | 0 <= i < j < |s|
      ensures Depth(s[i]) <= Depth(s[j])
    {
      assert s[j] == w[j - 1];
      if i > 0 {
        assert s[i] == w[i - 1];
      }
    }
  }

  lemma {:induction false} LevelOrder(n: Option<Cursor>, q: seq<Cursor>, stop: Cursor -> bool)
    requires Levelled(n, q)
    ensures DepthSorted(Walk(n, q, stop))
    ensures n.Some? ==> forall x | x in Walk(n, q, stop) :: Depth(n.value) <= Depth(x)
    ensures n.None? && q != [] ==> forall x | x in Walk(n, q, stop) :: Depth(q[0]) <= Depth(x)
    decreases ChainSizeOf(n) + QueueSize(q), if n.None? then 1 else 0
  {
    if n.Some? {
      var c := n.value;
      var q' := Enqueue(c, q, stop);
      var ns := NextSiblingOf(c);
      StepShrinks(c, q, stop);
      LevelledStep(c, q, stop);
      LevelOrder(ns, q', stop);
      var w' := Walk(ns, q', stop);
      assert Walk(n, q, stop) == [c] + w';
      if ns.None? && q' == [] {
        assert w' == [];
      }
      assert forall x | x in w' :: Depth(c) <= Depth(x);
      SortedCons(c, w');
    } else if q != [] {
      assert forall i | 0 <= i < |q| - 1 :: q[1..][i] == q[i + 1];
      LevelOrder(Some(q[0]), q[1..], stop);
    }
  }

  /** The walk below a parsed node visits nodes in level order: depths never
      decrease along the walk. */
  lemma WalkBelowLevelOrder(p: Cursor, stop: Cursor -> bool)
    requires p.At?
    ensures DepthSorted(WalkBelow(p, stop))
  {
    if FirstChildOf(p).Some? {
      FirstChildLinks(p);
    }
    LevelOrder(FirstChildOf(p), [], stop);
  }

  /** Selecting from a level-ordered sequence keeps it level-ordered. */
  lemma {:induction false} SelectDepthSorted(s: seq<Cursor>, f: Cursor -> bool)
    requires DepthSorted(s)
    ensures DepthSorted(Select(s, f))
    decreases |s|
  {
    if s != [] {
      var d := DropLast(s);
      assert forall i | 0 <= i < |d| :: d[i] == s[i];
      SelectDepthSorted(d, f);
      SelectMembers(d, f);
      assert forall x | x in d :: Depth(x) <= Depth(Last(s));
    }
  }

  /** A walk that starts on `c` itself, with an empty queue, visits `c` and then
      walks below it (or visits `c` alone when `c` stops the descent). */
  lemma WalkFrom(c: Cursor, stop: Cursor -> bool)
    requires NextSiblingOf(c).None?
    ensures Walk(Some(c), [], stop) == [c] + (if stop(c) then [] else WalkBelow(c, stop))
  {
    var q' := Enqueue(c, [], stop);
    assert Walk(Some(c), [], stop) == [c] + Walk(None, q', stop);
    if !stop(c) && FirstChildOf(c).Some? {
      assert q' == [FirstChildOf(c).value];
      assert q'[1..] == [];
      assert Walk(None, q', stop) == Walk(Some(q'[0]), [], stop);
    }
  }
}
