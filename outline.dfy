/** The structural classifier of outline/outline.go: it finds the head and the
    body of a parsed page, then the navigation, main, sidebar and footer regions
    of the body, then the articles of the main region.  Each walk is the
    worklist walk of module Worklist. */
module Outline {
  import opened Wrappers
  import opened Seqs
  import opened Dom
  import opened Html
  import opened Worklist

  // ---------------------------------------------------------------------------
  // Region predicates

  /** A `nav` element, or a `div` whose id is navigation, nav or menu. */
  predicate IsNav(c: Cursor): (r: bool)
    ensures r <==> Kind(c) == ElementNode
                   && (Data(c) == "nav" || (Data(c) == "div" && AttrValue(Some(c), ["id"]) in ["navigation", "nav", "menu"]))
  {
    IsElement(Some(c), ["nav"])
    || (IsElement(Some(c), ["div"]) && AttrValue(Some(c), ["id"]) in ["navigation", "nav", "menu"])
  }

  /** A `main` or `article` element, a `div` whose id is main or content, or
      any node whose role is main. */
  predicate IsMain(c: Cursor): (r: bool)
    ensures r <==> || (Kind(c) == ElementNode && Data(c) in ["main", "article"])
                   || (Kind(c) == ElementNode && Data(c) == "div" && AttrValue(Some(c), ["id"]) in ["main", "content"])
                   || AttrValue(Some(c), ["role"]) == "main"
  {
    IsElement(Some(c), ["main", "article"])
    || (IsElement(Some(c), ["div"]) && AttrValue(Some(c), ["id"]) in ["main", "content"])
    || AttrValue(Some(c), ["role"]) == "main"
  }

  /** A `div` whose id is sidebar. */
  predicate IsSidebar(c: Cursor): (r: bool)
    ensures r <==> Kind(c) == ElementNode && Data(c) == "div" && AttrValue(Some(c), ["id"]) == "sidebar"
  {
    IsElement(Some(c), ["div"]) && AttrValue(Some(c), ["id"]) == "sidebar"
  }

  /** A `footer` element, or a `div` whose id is footer. */
  predicate IsFooter(c: Cursor): (r: bool)
    ensures r <==> Kind(c) == ElementNode
                   && (Data(c) == "footer" || (Data(c) == "div" && AttrValue(Some(c), ["id"]) == "footer"))
  {
    IsElement(Some(c), ["footer"])
    || (IsElement(Some(c), ["div"]) && AttrValue(Some(c), ["id"]) == "footer")
  }

  /** An `article` element, or a `div` whose class is article or post. */
  predicate IsArticle(c: Cursor): (r: bool)
    ensures r <==> Kind(c) == ElementNode
                   && (Data(c) == "article" || (Data(c) == "div" && AttrValue(Some(c), ["class"]) in ["article", "post"]))
  {
    IsElement(Some(c), ["article"])
    || (IsElement(Some(c), ["div"]) && AttrValue(Some(c), ["class"]) in ["article", "post"])
  }

  /** The region a body node is classified as; the tests are tried in the
      order nav, main, sidebar, footer. */
  datatype Region = NavRegion | MainRegion | SidebarRegion | FooterRegion | NoRegion

  function RegionOf(c: Cursor): (r: Region)
    ensures r == NavRegion <==> IsNav(c)
    ensures r == MainRegion <==> !IsNav(c) && IsMain(c)
    ensures r == SidebarRegion <==> !IsNav(c) && !IsMain(c) && IsSidebar(c)
    ensures r == FooterRegion <==> !IsNav(c) && !IsMain(c) && !IsSidebar(c) && IsFooter(c)
    ensures r == NoRegion <==> !IsNav(c) && !IsMain(c) && !IsSidebar(c) && !IsFooter(c)
  {
    if IsNav(c) then NavRegion
    else if IsMain(c) then MainRegion
    else if IsSidebar(c) then SidebarRegion
    else if IsFooter(c) then FooterRegion
    else NoRegion
  }

  /** A body node that matches some region and is therefore not descended. */
  predicate IsRegion(c: Cursor)
  {
    IsNav(c) || IsMain(c) || IsSidebar(c) || IsFooter(c)
  }

  function InRegion(r: Region): Cursor -> bool
  {
    (c: Cursor) => RegionOf(c) == r
  }

  /** `prev`, overwritten by every element of `w` that satisfies `f`. */
  function LastOr(prev: Node, w: seq<Cursor>, f: Cursor -> bool): Node
  {
    match LastWhere(w, f)
    case None => prev
    case Some(x) => Some(x)
  }

  lemma LastOrSnoc(prev: Node, w: seq<Cursor>, c: Cursor, f: Cursor -> bool)
    ensures f(c) ==> LastOr(prev, w + [c], f) == Some(c)
    ensures !f(c) ==> LastOr(prev, w + [c], f) == LastOr(prev, w, f)
  {
    assert Last(w + [c]) == c;
    assert DropLast(w + [c]) == w;
  }

  lemma SelectSnoc(w: seq<Cursor>, c: Cursor, f: Cursor -> bool)
    ensures f(c) ==> Select(w + [c], f) == Select(w, f) + [c]
    ensures !f(c) ==> Select(w + [c], f) == Select(w, f)
  {
    assert Last(w + [c]) == c;
    assert DropLast(w + [c]) == w;
  }

  /** The four region fields that buildBody fills. */
  datatype Regions = Regions(nav: seq<Cursor>, main: Node, sidebar: Node, footer: Node)

  /** The region fields after buildBody has classified `c`. */
  function Classify(s: Regions, c: Cursor): (r: Regions)
    ensures IsRegion(c) || r == s
  {
    if IsNav(c) then s.(nav := s.nav + [c])
    else if IsMain(c) then s.(main := Some(c))
    else if IsSidebar(c) then s.(sidebar := Some(c))
    else if IsFooter(c) then s.(footer := Some(c))
    else s
  }

  /** The region fields after buildBody has classified every node of `w`. */
  function ClassifyAll(s: Regions, w: seq<Cursor>): Regions
    decreases |w|
  {
    if w == [] then s else Classify(ClassifyAll(s, DropLast(w)), Last(w))
  }

  lemma ClassifyAllSnoc(s: Regions, w: seq<Cursor>, c: Cursor)
    ensures ClassifyAll(s, w + [c]) == Classify(ClassifyAll(s, w), c)
  {
    assert DropLast(w + [c]) == w;
    assert Last(w + [c]) == c;
  }

  lemma {:induction false} ClassifyAllNav(s: Regions, w: seq<Cursor>)
    ensures ClassifyAll(s, w).nav == s.nav + Select(w, InRegion(NavRegion))
    decreases |w|
  {
    if w != [] {
      ClassifyAllNav(s, DropLast(w));
    }
  }

  lemma {:induction false} ClassifyAllMain(s: Regions, w: seq<Cursor>)
    ensures ClassifyAll(s, w).main == LastOr(s.main, w, InRegion(MainRegion))
    decreases |w|
  {
    if w != [] {
      ClassifyAllMain(s, DropLast(w));
    }
  }

  lemma {:induction false} ClassifyAllSidebar(s: Regions, w: seq<Cursor>)
    ensures ClassifyAll(s, w).sidebar == LastOr(s.sidebar, w, InRegion(SidebarRegion))
    decreases |w|
  {
    if w != [] {
      ClassifyAllSidebar(s, DropLast(w));
    }
  }

  lemma {:induction false} ClassifyAllFooter(s: Regions, w: seq<Cursor>)
    ensures ClassifyAll(s, w).footer == LastOr(s.footer, w, InRegion(FooterRegion))
    decreases |w|
  {
    if w != [] {
      ClassifyAllFooter(s, DropLast(w));
    }
  }

  /** Classifying a sequence of nodes appends every nav node, in order, and
      leaves main, sidebar and footer at the last node of their kind. */
  lemma ClassifyAllRegions(s: Regions, w: seq<Cursor>)
    ensures ClassifyAll(s, w) == Regions(
      s.nav + Select(w, InRegion(NavRegion)),
      LastOr(s.main, w, InRegion(MainRegion)),
      LastOr(s.sidebar, w, InRegion(SidebarRegion)),
      LastOr(s.footer, w, InRegion(FooterRegion)))
  {
    ClassifyAllNav(s, w);
    ClassifyAllMain(s, w);
    ClassifyAllSidebar(s, w);
    ClassifyAllFooter(s, w);
  }

  /** The nodes buildBody visits: the walk below the body that does not descend
      into region nodes. */
  function BodyWalk(body: Node): seq<Cursor>
  {
    Walk(FirstChild(body), [], IsRegion)
  }

  /** The nodes buildMain visits: the walk below the main node that does not
      descend into articles. */
  function MainWalk(main: Node): seq<Cursor>
  {
    Walk(FirstChild(main), [], IsArticle)
  }

  predicate IsHead(c: Cursor)
  {
    IsElement(Some(c), ["head"])
  }

  predicate IsBody(c: Cursor)
  {
    IsElement(Some(c), ["body"])
  }

  predicate IsHeadOrBody(c: Cursor)
  {
    IsHead(c) || IsBody(c)
  }

  function Root(doc: Tree): Cursor
  {
    At(doc, [])
  }

  /** The nodes Build may visit: the walk from the document node that does not
      descend into head or body elements. */
  function DocWalk(doc: Tree): seq<Cursor>
  {
    Walk(Some(Root(doc)), [], IsHeadOrBody)
  }

  datatype BuildError = DuplicateHead | DuplicateBody | MissingHeadOrBody

  /** The outcome of Build's scan of `w` with head and body found so far. */
  function Scan(w: seq<Cursor>, head: Node, body: Node): Result<(Cursor, Cursor), BuildError>
    decreases |w|
  {
    if head.Some? && body.Some? then Ok((head.value, body.value))
    else if w == [] then Err(MissingHeadOrBody)
    else if IsHead(w[0]) then
      if head.Some? then Err(DuplicateHead) else Scan(w[1..], Some(w[0]), body)
    else if IsBody(w[0]) then
      if body.Some? then Err(DuplicateBody) else Scan(w[1..], head, Some(w[0]))
    else Scan(w[1..], head, body)
  }

  /** What each outcome of the scan means: success yields the first head and
      the first body of the walk; a duplicate is a second head (or body) met
      before both were found; a missing one is absent from the walk. */
  lemma {:induction false} ScanOutcomes(w: seq<Cursor>, head: Node, body: Node)
    requires head.Some? ==> IsHead(head.value)
    requires body.Some? ==> IsBody(body.value)
    ensures Scan(w, head, body).Ok? ==> IsHead(Scan(w, head, body).value.0) && IsBody(Scan(w, head, body).value.1)
    ensures Scan(w, head, body).Ok? && head.Some? ==> Scan(w, head, body).value.0 == head.value
    ensures Scan(w, head, body).Ok? && head.None? ==> Some(Scan(w, head, body).value.0) == FirstWhere(w, IsHead)
    ensures Scan(w, head, body).Ok? && body.Some? ==> Scan(w, head, body).value.1 == body.value
    ensures Scan(w, head, body).Ok? && body.None? ==> Some(Scan(w, head, body).value.1) == FirstWhere(w, IsBody)
    ensures Scan(w, head, body) == Err(MissingHeadOrBody) ==>
      (head.None? && FirstWhere(w, IsHead).None?) || (body.None? && FirstWhere(w, IsBody).None?)
    ensures Scan(w, head, body) == Err(DuplicateHead) ==>
      exists i | 0 <= i < |w| :: IsHead(w[i]) && (head.Some? || exists j | 0 <= j < i :: IsHead(w[j]))
    ensures Scan(w, head, body) == Err(DuplicateBody) ==>
      exists i | 0 <= i < |w| :: IsBody(w[i]) && (body.Some? || exists j | 0 <= j < i :: IsBody(w[j]))
    decreases |w|
  {
    if !(head.Some? && body.Some?) && w != [] {
      var c := w[0];
      var rest := w[1..];
      assert forall i | 0 <= i < |rest| :: rest[i] == w[i + 1];
      if IsHead(c) {
        if head.None? {
          ScanOutcomes(rest, Some(c), body);
        }
      } else if IsBody(c) {
        if body.None? {
          ScanOutcomes(rest, head, Some(c));
        }
      } else {
        ScanOutcomes(rest, head, body);
      }
    }
  }

  /** `n`, the node found so far, is set or one of the first `i` nodes of `w`
      satisfies `f`. */
  predicate FoundBy(w: seq<Cursor>, n: Node, i: int, f: Cursor -> bool)
    requires 0 <= i <= |w|
  {
    n.Some? || exists j | 0 <= j < i :: f(w[j])
  }

  /** `w[i]` is a head and a head was already found. */
  predicate SecondHead(w: seq<Cursor>, head: Node, i: int)
    requires 0 <= i < |w|
  {
    IsHead(w[i]) && FoundBy(w, head, i, IsHead)
  }

  /** `w[i]` is a body and a body was already found. */
  predicate SecondBody(w: seq<Cursor>, body: Node, i: int)
    requires 0 <= i < |w|
  {
    IsBody(w[i]) && FoundBy(w, body, i, IsBody)
  }

  /** The scan gets as far as position `i` (at `|w|`: runs off the end): head
      and body are not both found before `i`, and no earlier node was a second
      head or a second body. */
  predicate Reaches(w: seq<Cursor>, head: Node, body: Node, i: int)
    requires 0 <= i <= |w|
  {
    && !(FoundBy(w, head, i, IsHead) && FoundBy(w, body, i, IsBody))
    && forall j | 0 <= j < i :: !SecondHead(w, head, j) && !SecondBody(w, body, j)
  }

  lemma HeadIsNoBody(c: Cursor)
    ensures IsHead(c) ==> !IsBody(c)
  {
    assert "head" != "body";
  }

  /** Once `w[0]` counts as found, what is found before position `i + 1` of
      `w` is what is found before position `i` of `w[1..]`. */
  lemma FoundShift(w: seq<Cursor>, n: Node, n': Node, f: Cursor -> bool)
    requires w != [] && n' == if f(w[0]) then Some(w[0]) else n
    ensures forall i | 0 <= i < |w| :: FoundBy(w, n, i + 1, f) == FoundBy(w[1..], n', i, f)
  {
    var rest := w[1..];
    forall i | 0 <= i < |w|
      ensures FoundBy(w, n, i + 1, f) == FoundBy(rest, n', i, f)
    {
      if exists j | 0 <= j < i + 1 :: f(w[j]) {
        var j :| 0 <= j < i + 1 && f(w[j]);
        if j > 0 {
          assert f(rest[j - 1]);
        }
      }
      if exists j | 0 <= j < i :: f(rest[j]) {
        var j :| 0 <= j < i && f(rest[j]);
        assert f(w[j + 1]);
      }
    }
  }

  /** The duplicate tests move along with the scan. */
  lemma SecondShift(w: seq<Cursor>, head: Node, body: Node)
    requires w != []
    ensures var h := if IsHead(w[0]) then Some(w[0]) else head;
            var b := if IsBody(w[0]) then Some(w[0]) else body;
      && (forall i | 0 <= i < |w| - 1 :: SecondHead(w, head, i + 1) == SecondHead(w[1..], h, i))
      && (forall i | 0 <= i < |w| - 1 :: SecondBody(w, body, i + 1) == SecondBody(w[1..], b, i))
  {
    var h := if IsHead(w[0]) then Some(w[0]) else head;
    var b := if IsBody(w[0]) then Some(w[0]) else body;
    FoundShift(w, head, h, IsHead);
    FoundShift(w, body, b, IsBody);
    forall i | 0 <= i < |w| - 1
      ensures SecondHead(w, head, i + 1) == SecondHead(w[1..], h, i)
      ensures SecondBody(w, body, i + 1) == SecondBody(w[1..], b, i)
    {
      assert w[i + 1] == w[1..][i];
      assert FoundBy(w, head, i + 1, IsHead) == FoundBy(w[1..], h, i, IsHead);
      assert FoundBy(w, body, i + 1, IsBody) == FoundBy(w[1..], b, i, IsBody);
    }
  }

  /** Reaching position `i + 1` of `w` is reaching position `i` of `w[1..]`
      when the scan goes on past `w[0]`. */
  lemma ReachesShift(w: seq<Cursor>, head: Node, body: Node)
    requires w != []
    requires !(head.Some? && body.Some?) && !SecondHead(w, head, 0) && !SecondBody(w, body, 0)
    ensures var h := if IsHead(w[0]) then Some(w[0]) else head;
            var b := if IsBody(w[0]) then Some(w[0]) else body;
      forall i | 0 <= i < |w| :: Reaches(w, head, body, i + 1) == Reaches(w[1..], h, b, i)
  {
    var h := if IsHead(w[0]) then Some(w[0]) else head;
    var b := if IsBody(w[0]) then Some(w[0]) else body;
    FoundShift(w, head, h, IsHead);
    FoundShift(w, body, b, IsBody);
    SecondShift(w, head, body);
    var rest := w[1..];
    forall i | 0 <= i < |w|
      ensures Reaches(w, head, body, i + 1) == Reaches(rest, h, b, i)
    {
      if forall j | 0 <= j < i + 1 :: !SecondHead(w, head, j) && !SecondBody(w, body, j) {
        forall j | 0 <= j < i
          ensures !SecondHead(rest, h, j) && !SecondBody(rest, b, j)
        {
          assert !SecondHead(w, head, j + 1) && !SecondBody(w, body, j + 1);
        }
      }
      if forall j | 0 <= j < i :: !SecondHead(rest, h, j) && !SecondBody(rest, b, j) {
        forall j | 0 <= j < i + 1
          ensures !SecondHead(w, head, j) && !SecondBody(w, body, j)
        {
          if j > 0 {
            assert !SecondHead(rest, h, j - 1) && !SecondBody(rest, b, j - 1);
          }
        }
      }
    }
  }

  /** The scan stops at `w[i]` with a second head. */
  predicate DuplicateHeadAt(w: seq<Cursor>, head: Node, body: Node, i: int)
    requires 0 <= i < |w|
  {
    Reaches(w, head, body, i) && SecondHead(w, head, i)
  }

  /** The scan stops at `w[i]` with a second body. */
  predicate DuplicateBodyAt(w: seq<Cursor>, head: Node, body: Node, i: int)
    requires 0 <= i < |w|
  {
    Reaches(w, head, body, i) && SecondBody(w, body, i)
  }

  /** When the scan goes on past `w[0]`, where it stops in `w` is one more
      than where it stops in `w[1..]`. */
  lemma StopShift(w: seq<Cursor>, head: Node, body: Node)
    requires w != []
    requires !(head.Some? && body.Some?) && !SecondHead(w, head, 0) && !SecondBody(w, body, 0)
    ensures var h := if IsHead(w[0]) then Some(w[0]) else head;
            var b := if IsBody(w[0]) then Some(w[0]) else body;
      && ((exists i | 0 <= i < |w| :: DuplicateHeadAt(w, head, body, i)) <==>
          (exists i | 0 <= i < |w| - 1 :: DuplicateHeadAt(w[1..], h, b, i)))
      && ((exists i | 0 <= i < |w| :: DuplicateBodyAt(w, head, body, i)) <==>
          (exists i | 0 <= i < |w| - 1 :: DuplicateBodyAt(w[1..], h, b, i)))
      && Reaches(w, head, body, |w|) == Reaches(w[1..], h, b, |w| - 1)
  {
    var h := if IsHead(w[0]) then Some(w[0]) else head;
    var b := if IsBody(w[0]) then Some(w[0]) else body;
    var rest := w[1..];
    ReachesShift(w, head, body);
    SecondShift(w, head, body);
    assert !DuplicateHeadAt(w, head, body, 0) && !DuplicateBodyAt(w, head, body, 0);
    if exists i | 0 <= i < |w| :: DuplicateHeadAt(w, head, body, i) {
      var i :| 0 <= i < |w| && DuplicateHeadAt(w, head, body, i);
      assert DuplicateHeadAt(rest, h, b, i - 1);
    }
    if exists i | 0 <= i < |rest| :: DuplicateHeadAt(rest, h, b, i) {
      var i :| 0 <= i < |rest| && DuplicateHeadAt(rest, h, b, i);
      assert DuplicateHeadAt(w, head, body, i + 1);
    }
    if exists i | 0 <= i < |w| :: DuplicateBodyAt(w, head, body, i) {
      var i :| 0 <= i < |w| && DuplicateBodyAt(w, head, body, i);
      assert DuplicateBodyAt(rest, h, b, i - 1);
    }
    if exists i | 0 <= i < |rest| :: DuplicateBodyAt(rest, h, b, i) {
      var i :| 0 <= i < |rest| && DuplicateBodyAt(rest, h, b, i);
      assert DuplicateBodyAt(w, head, body, i + 1);
    }
  }

  /** Each error of the scan happens exactly when its cause is met before
      both head and body are found: a second head, a second body, or the end
      of the walk. */
  lemma {:induction false} ScanErrors(w: seq<Cursor>, head: Node, body: Node)
    ensures Scan(w, head, body) == Err(DuplicateHead) <==>
      exists i | 0 <= i < |w| :: DuplicateHeadAt(w, head, body, i)
    ensures Scan(w, head, body) == Err(DuplicateBody) <==>
      exists i | 0 <= i < |w| :: DuplicateBodyAt(w, head, body, i)
    ensures Scan(w, head, body) == Err(MissingHeadOrBody) <==> Reaches(w, head, body, |w|)
    decreases |w|
  {
    if head.Some? && body.Some? {
      assert forall i | 0 <= i <= |w| :: !Reaches(w, head, body, i);
    } else if w != [] {
      HeadIsNoBody(w[0]);
      if SecondHead(w, head, 0) || SecondBody(w, body, 0) {
        assert forall i | 0 < i <= |w| :: !Reaches(w, head, body, i);
        if SecondHead(w, head, 0) {
          assert DuplicateHeadAt(w, head, body, 0) && !DuplicateBodyAt(w, head, body, 0);
        } else {
          assert DuplicateBodyAt(w, head, body, 0) && !DuplicateHeadAt(w, head, body, 0);
        }
      } else {
        var h := if IsHead(w[0]) then Some(w[0]) else head;
        var b := if IsBody(w[0]) then Some(w[0]) else body;
        assert Scan(w, head, body) == Scan(w[1..], h, b);
        ScanErrors(w[1..], h, b);
        StopShift(w, head, body);
      }
    }
  }

  /** Build stops scanning as soon as both are found: what follows is never
      examined, so a later duplicate head or body is not reported. */
  lemma {:induction false} ScanStopsEarly(w1: seq<Cursor>, w2: seq<Cursor>, head: Node, body: Node)
    requires Scan(w1, head, body).Ok?
    ensures Scan(w1 + w2, head, body) == Scan(w1, head, body)
    decreases |w1|
  {
    if !(head.Some? && body.Some?) {
      assert w1 != [];
      assert (w1 + w2)[0] == w1[0];
      assert (w1 + w2)[1..] == w1[1..] + w2;
      var c := w1[0];
      if IsHead(c) {
        ScanStopsEarly(w1[1..], w2, Some(c), body);
      } else if IsBody(c) {
        ScanStopsEarly(w1[1..], w2, head, Some(c));
      } else {
        ScanStopsEarly(w1[1..], w2, head, body);
      }
    }
  }

  /** The walk from the document node visits that node and then exactly the
      descendants that have no head or body element above them: a head nested
      inside the body is never examined. */
  lemma DocWalkExact(doc: Tree)
    ensures !IsHeadOrBody(Root(doc)) ==>
      forall y :: y in DocWalk(doc) <==> y == Root(doc) || Inside(y, Root(doc), IsHeadOrBody)
    ensures IsHeadOrBody(Root(doc)) ==> DocWalk(doc) == [Root(doc)]
  {
    WalkFrom(Root(doc), IsHeadOrBody);
    WalkBelowExact(Root(doc), IsHeadOrBody);
  }

  /** An Outline: the document, head and body nodes, the region nodes of the
      body and the article nodes of the main region. */
  class Outline {
    var DocumentNode: Node
    var HeadNode: Node
    var BodyNode: Node
    var NavNodes: seq<Cursor>
    var MainNode: Node
    var ArticleNodes: seq<Cursor>
    var SidebarNode: Node
    var FooterNode: Node

    /** The zero Outline. */
    constructor ()
      ensures DocumentNode.None? && HeadNode.None? && BodyNode.None? && NavNodes == []
      ensures MainNode.None? && ArticleNodes == [] && SidebarNode.None? && FooterNode.None?
    {
      DocumentNode := None;
      HeadNode := None;
      BodyNode := None;
      NavNodes := [];
      MainNode := None;
      ArticleNodes := [];
      SidebarNode := None;
      FooterNode := None;
    }

    /** Classifies the nodes below `body`: every nav match is appended, and
        main, sidebar and footer hold the last match of their kind. */
    method BuildBody(body: Node)
      modifies this`NavNodes, this`MainNode, this`SidebarNode, this`FooterNode
      ensures NavNodes == old(NavNodes) + Select(BodyWalk(body), InRegion(NavRegion))
      ensures MainNode == LastOr(old(MainNode), BodyWalk(body), InRegion(MainRegion))
      ensures SidebarNode == LastOr(old(SidebarNode), BodyWalk(body), InRegion(SidebarRegion))
      ensures FooterNode == LastOr(old(FooterNode), BodyWalk(body), InRegion(FooterRegion))
      ensures (DocumentNode, HeadNode, BodyNode, ArticleNodes) == old((DocumentNode, HeadNode, BodyNode, ArticleNodes))
    {
      var stack: seq<Cursor> := [];
      var n := FirstChild(body);
      ghost var seen: seq<Cursor> := [];
      ghost var start := Regions(NavNodes, MainNode, SidebarNode, FooterNode);
      while true
        invariant BodyWalk(body) == seen + Walk(n, stack, IsRegion)
        invariant Regions(NavNodes, MainNode, SidebarNode, FooterNode) == ClassifyAll(start, seen)
        decreases ChainSizeOf(n) + QueueSize(stack)
      {
        if n.None? {
          WalkPop(stack, IsRegion);
          if |stack| == 0 {
            assert seen == BodyWalk(body);
            ClassifyAllRegions(start, seen);
            return;
          }
          n := Some(stack[0]);
          stack := stack[1..];
        }
        var c := n.value;
        WalkAdvance(BodyWalk(body), seen, n, stack, IsRegion);
        ClassifyAllSnoc(start, seen, c);
        stack := VisitBody(c, stack);
        seen := seen + [c];
        n := NextSiblingOf(c);
      }
    }

    /** One node of the body walk: a region node is recorded in its field and
        not descended into; any other node queues its first child. */
    method VisitBody(c: Cursor, stack: seq<Cursor>) returns (stack': seq<Cursor>)
      modifies this`NavNodes, this`MainNode, this`SidebarNode, this`FooterNode
      ensures Regions(NavNodes, MainNode, SidebarNode, FooterNode)
           == Classify(old(Regions(NavNodes, MainNode, SidebarNode, FooterNode)), c)
      ensures stack' == Enqueue(c, stack, IsRegion)
    {
      stack' := stack;
      if IsNav(c) {
        NavNodes := NavNodes + [c];
      } else if IsMain(c) {
        MainNode := Some(c);
      } else if IsSidebar(c) {
        SidebarNode := Some(c);
      } else if IsFooter(c) {
        FooterNode := Some(c);
      } else {
        var fc := FirstChildOf(c);
        if fc.Some? {
          stack' := stack + [fc.value];
        }
      }
    }

    /** Appends every article below `main` that no other article encloses. */
    method BuildMain(main: Node)
      modifies this`ArticleNodes
      ensures ArticleNodes == old(ArticleNodes) + Select(MainWalk(main), IsArticle)
      ensures (DocumentNode, HeadNode, BodyNode, NavNodes, MainNode, SidebarNode, FooterNode)
           == old((DocumentNode, HeadNode, BodyNode, NavNodes, MainNode, SidebarNode, FooterNode))
    {
      var n := FirstChild(main);
      var stack: seq<Cursor> := [];
      ghost var seen: seq<Cursor> := [];
      while true
        invariant MainWalk(main) == seen + Walk(n, stack, IsArticle)
        invariant ArticleNodes == old(ArticleNodes) + Select(seen, IsArticle)
        decreases ChainSizeOf(n) + QueueSize(stack)
      {
        if n.None? {
          WalkPop(stack, IsArticle);
          if |stack| == 0 {
            break;
          }
          n := Some(stack[0]);
          stack := stack[1..];
        }
        var c := n.value;
        WalkAdvance(MainWalk(main), seen, n, stack, IsArticle);
        SelectGrows(old(ArticleNodes), seen, c, IsArticle);
        stack := VisitMain(c, stack);
        seen := seen + [c];
        n := NextSiblingOf(c);
      }
      assert seen == MainWalk(main);
    }

    /** One node of the main walk: an article is recorded and not descended
        into; any other node queues its first child. */
    method VisitMain(c: Cursor, stack: seq<Cursor>) returns (stack': seq<Cursor>)
      modifies this`ArticleNodes
      ensures ArticleNodes == old(ArticleNodes) + if IsArticle(c) then [c] else []
      ensures stack' == Enqueue(c, stack, IsArticle)
    {
      stack' := stack;
      if IsArticle(c) {
        ArticleNodes := ArticleNodes + [c];
      } else {
        var fc := FirstChildOf(c);
        if fc.Some? {
          stack' := stack + [fc.value];
        }
      }
    }
  }

  /** The loop at the start of Build: the breadth-first walk from the
      document node that records the head and the body, and stops as soon as
      it holds both, at a second head or body, or when the walk runs out. */
  method FindHeadBody(doc: Tree) returns (r: Result<(Cursor, Cursor), BuildError>)
    ensures r == Scan(DocWalk(doc), None, None)
  {
    var head: Node := None;
    var body: Node := None;
    var n: Node := Some(Root(doc));
    var stack: seq<Cursor> := [];
    ghost var rest := DocWalk(doc);
    while true
      invariant rest == Walk(n, stack, IsHeadOrBody)
      invariant !(head.Some? && body.Some?)
      invariant Scan(DocWalk(doc), None, None) == Scan(rest, head, body)
      decreases ChainSizeOf(n) + QueueSize(stack)
    {
      if n.None? {
        WalkPop(stack, IsHeadOrBody);
        if |stack| == 0 {
          break;
        }
        n := Some(stack[0]);
        stack := stack[1..];
      }
      var c := n.value;
      WalkStep(n, stack, IsHeadOrBody);
      ghost var q' := Enqueue(c, stack, IsHeadOrBody);
      assert rest[0] == c && rest[1..] == Walk(NextSibling(n), q', IsHeadOrBody);
      rest := rest[1..];
      if IsElement(n, ["head"]) {
        if head.Some? {
          return Err(DuplicateHead);
        }
        head := n;
      } else if IsElement(n, ["body"]) {
        if body.Some? {
          return Err(DuplicateBody);
        }
        body := n;
      } else {
        var fc := FirstChild(n);
        if fc.Some? {
          stack := stack + [fc.value];
        }
      }
      assert stack == q';
      if head.Some? && body.Some? {
        return Ok((head.value, body.value));
      }
      n := NextSibling(n);
    }
    return Err(MissingHeadOrBody);
  }

  /** Builds the outline of the parsed document `doc`: the unique head and
      body found by the walk from the document node, then the body regions,
      then the articles of the main region when there is one. */
  method Build(doc: Tree) returns (r: Result<Outline, BuildError>)
    ensures Scan(DocWalk(doc), None, None).Err? ==> r == Err(Scan(DocWalk(doc), None, None).error)
    ensures Scan(DocWalk(doc), None, None).Ok? ==> r.Ok?
    ensures r.Ok? ==> fresh(r.value)
    ensures r.Ok? ==> r.value.DocumentNode == Some(Root(doc))
    ensures r.Ok? ==> r.value.HeadNode == Some(Scan(DocWalk(doc), None, None).value.0)
    ensures r.Ok? ==> r.value.BodyNode == Some(Scan(DocWalk(doc), None, None).value.1)
    ensures r.Ok? ==> r.value.NavNodes == Select(BodyWalk(r.value.BodyNode), InRegion(NavRegion))
    ensures r.Ok? ==> r.value.MainNode == LastOr(None, BodyWalk(r.value.BodyNode), InRegion(MainRegion))
    ensures r.Ok? ==> r.value.SidebarNode == LastOr(None, BodyWalk(r.value.BodyNode), InRegion(SidebarRegion))
    ensures r.Ok? ==> r.value.FooterNode == LastOr(None, BodyWalk(r.value.BodyNode), InRegion(FooterRegion))
    ensures r.Ok? ==> r.value.ArticleNodes == Select(MainWalk(r.value.MainNode), IsArticle)
  {
    var found := FindHeadBody(doc);
    if found.Err? {
      return Err(found.error);
    }
    var o := Assemble(doc, found.value.0, found.value.1);
    return Ok(o);
  }

  /** The outline of a document whose head and body have been found: the
      regions are classified below the body, then the articles below the
      main region. */
  method Assemble(doc: Tree, head: Cursor, body: Cursor) returns (o: Outline)
    ensures fresh(o)
    ensures o.DocumentNode == Some(Root(doc)) && o.HeadNode == Some(head) && o.BodyNode == Some(body)
    ensures o.NavNodes == Select(BodyWalk(Some(body)), InRegion(NavRegion))
    ensures o.MainNode == LastOr(None, BodyWalk(Some(body)), InRegion(MainRegion))
    ensures o.SidebarNode == LastOr(None, BodyWalk(Some(body)), InRegion(SidebarRegion))
    ensures o.FooterNode == LastOr(None, BodyWalk(Some(body)), InRegion(FooterRegion))
    ensures o.ArticleNodes == Select(MainWalk(o.MainNode), IsArticle)
  {
    o := new Outline();
    o.DocumentNode, o.HeadNode, o.BodyNode := Some(Root(doc)), Some(head), Some(body);
    ghost var nav := Select(BodyWalk(Some(body)), InRegion(NavRegion));
    EmptyPrefix(nav);
    o.BuildBody(Some(body));
    assert o.NavNodes == nav;
    var main := o.MainNode;
    ghost var regions := (o.DocumentNode, o.HeadNode, o.BodyNode, o.NavNodes, main, o.SidebarNode, o.FooterNode);
    ghost var articles := Select(MainWalk(main), IsArticle);
    if main.Some? {
      EmptyPrefix(articles);
      o.BuildMain(main);
      assert o.ArticleNodes == articles;
    } else {
      assert MainWalk(main) == [];
    }
    assert (o.DocumentNode, o.HeadNode, o.BodyNode, o.NavNodes, o.MainNode, o.SidebarNode, o.FooterNode) == regions;
  }

  // ---------------------------------------------------------------------------
  // What the walks guarantee

  /** Every node buildBody records lies strictly below the body. */
  lemma RegionsBelowBody(body: Cursor)
    requires body.At?
    ensures forall x | x in BodyWalk(Some(body)) :: Below(x, body)
  {
    assert BodyWalk(Some(body)) == WalkBelow(body, IsRegion);
    WalkBelowExact(body, IsRegion);
  }

  /** No recorded region node lies below another recorded region node, since
      region nodes are not descended. */
  lemma RegionsNotNested(body: Cursor, x: Cursor, y: Cursor)
    requires body.At?
    requires x in BodyWalk(Some(body)) && y in BodyWalk(Some(body)) && IsRegion(x)
    ensures !Below(y, x)
  {
    NoVisitBelowStop(body, IsRegion, x, y);
  }

  /** buildBody visits exactly the proper descendants of the body that no
      region node encloses: every such nav node is recorded, and only those. */
  lemma NavNodesExact(body: Cursor, x: Cursor)
    requires body.At?
    ensures x in Select(BodyWalk(Some(body)), InRegion(NavRegion)) <==> IsNav(x) && Inside(x, body, IsRegion)
  {
    WalkBelowExact(body, IsRegion);
    SelectMembers(BodyWalk(Some(body)), InRegion(NavRegion));
  }

  /** NavNodes come in level order: their depths never decrease. */
  lemma NavNodesLevelOrder(body: Cursor)
    requires body.At?
    ensures DepthSorted(Select(BodyWalk(Some(body)), InRegion(NavRegion)))
  {
    WalkBelowLevelOrder(body, IsRegion);
    SelectDepthSorted(BodyWalk(Some(body)), InRegion(NavRegion));
  }

  /** buildMain collects exactly the articles strictly below main that no
      other article encloses. */
  lemma ArticleNodesExact(main: Cursor, x: Cursor)
    requires main.At?
    ensures x in Select(MainWalk(Some(main)), IsArticle) <==> IsArticle(x) && Inside(x, main, IsArticle)
  {
    WalkBelowExact(main, IsArticle);
    SelectMembers(MainWalk(Some(main)), IsArticle);
  }

  /** A div whose class attribute is "post x" is not an article: the whole
      attribute value is compared. */
  lemma ArticleClassIsWhole()
    ensures ValidPos(At(Tree(ElementNode, "div", [Attribute("class", "post x")], []), []))
    ensures !IsArticle(At(Tree(ElementNode, "div", [Attribute("class", "post x")], []), []))
  {
    var c: Cursor := At(Tree(ElementNode, "div", [Attribute("class", "post x")], []), []);
    assert Attrs(c)[0].key == "class";
    assert AttrValue(Some(c), ["class"]) == "post x";
  }

  /** Any node with role="main" matches isMain, whatever its tag. */
  lemma RoleMainIsMain(c: Cursor)
    requires |Attrs(c)| > 0 && Attrs(c)[0] == Attribute("role", "main")
    ensures IsMain(c)
  {
    assert AttrValue(Some(c), ["role"]) == "main";
  }
}
