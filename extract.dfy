/** The content extractor: the document fields read from the head's meta and
    title children, and the anchors harvested from each navigation region.

    Parsing an href is done by the URL library, which is not part of this
    model: it is a parameter `parse` that yields the parsed URL of type `U`,
    or None when the text does not parse. */
module Extract {
  import opened Wrappers
  import opened Seqs
  import opened Dom
  import opened Html
  import opened Worklist
  import O = Outline

  /** The kinds of document; the zero value is UnknownType. */
  datatype DocumentType = UnknownType | ArticleType | BlogIndexType | FAQType

  /** A harvested link: its title attribute, its text, its parsed href (None
      when the href is empty) and its rel attribute. */
  datatype Anchor<U> = Anchor(title: string, labelText: string, url: Option<U>, rel: string)

  /** The extracted document.  Its language tag is never assigned and is not
      modelled. */
  class Document<U> {
    var Type: DocumentType
    var Title: string
    var Description: string
    var Author: string
    var Nav: seq<Anchor<U>>

    constructor()
      ensures Type == UnknownType && Title == "" && Description == "" && Author == "" && Nav == []
    {
      Type := UnknownType;
      Title := "";
      Description := "";
      Author := "";
      Nav := [];
    }

    /** Reads the direct children of `head` in order: a meta with non-empty
        content sets the description or the author by its name (or
        http-equiv) attribute, and a title with a child sets the title to that
        child's text. */
    method ExtractHead(head: Node)
      modifies this`Title, this`Description, this`Author
      ensures HeadFields(Title, Description, Author)
           == ReadHead(old(HeadFields(Title, Description, Author)), Chain(FirstChild(head)))
    {
      var n := FirstChild(head);
      ghost var start := HeadFields(Title, Description, Author);
      ghost var all := Chain(n);
      ghost var seen: seq<Cursor> := [];
      while n.Some?
        invariant all == seen + Chain(n)
        invariant HeadFields(Title, Description, Author) == ReadHead(start, seen)
        decreases ChainSizeOf(n)
      {
        var c := n.value;
        var next := NextSiblingOf(c);
        ReadHeadSnoc(start, seen, c);
        ChainStep(c, seen);
        ReadHeadNode(c);
        seen := seen + [c];
        n := next;
      }
      assert seen + [] == seen;
    }

    /** The body of the head loop for one child `c`. */
    method ReadHeadNode(c: Cursor)
      modifies this`Title, this`Description, this`Author
      ensures HeadFields(Title, Description, Author) == ReadHeadChild(old(HeadFields(Title, Description, Author)), c)
    {
      var n := Some(c);
      if IsElement(n, ["link"]) {
      } else if IsElement(n, ["meta"]) {
        var content := Attr(n, ["content"]);
        if content != "" {
          var name := Attr(n, ["name", "http-equiv"]);
          if name == "description" {
            Description := Attr(n, ["content"]);
          } else if name == "author" {
            Author := Attr(n, ["content"]);
          }
        }
      } else if IsElement(n, ["title"]) {
        if FirstChildOf(c).Some? {
          Title := PlainText(FirstChildOf(c));
        }
      }
    }

    /** Reads an anchor element: its href parsed when non-empty (None when
        that fails), its title and rel attributes and its plain text. */
    static method ReadAnchor(c: Cursor, parse: string -> Option<U>) returns (a: Option<Anchor<U>>)
      requires IsAnchor(c)
      ensures a.None? <==> BadHref(parse, c)
      ensures a.Some? ==> a.value == MakeAnchor(parse, c)
    {
      var n := Some(c);
      var href := Attr(n, ["href"]);
      var url: Option<U> := None;
      if href != "" {
        url := parse(href);
        if url.None? {
          return None;
        }
      }
      var title := Attr(n, ["title"]);
      var rel := Attr(n, ["rel"]);
      var text := PlainText(n);
      return Some(Anchor(title, text, url, rel));
    }

    /** Visits one node of a nav walk: an anchor yields its Anchor value (none
        when its non-empty href fails to parse, which `bad` reports) and ends
        the descent; any other element queues its first child. */
    static method VisitNav(c: Cursor, stack: seq<Cursor>, parse: string -> Option<U>)
      returns (more: seq<Anchor<U>>, bad: bool, stack': seq<Cursor>)
      ensures bad <==> BadHref(parse, c)
      ensures more == if Keeps(parse, c) then [MakeAnchor(parse, c)] else []
      ensures stack' == Enqueue(c, stack, IsAnchor)
    {
      more, bad, stack' := [], false, stack;
      if IsElement(Some(c), ["a"]) {
        var a := ReadAnchor(c, parse);
        if a.None? {
          bad := true;
        } else {
          more := [a.value];
        }
      } else {
        var fc := FirstChildOf(c);
        if fc.Some? {
          stack' := stack + [fc.value];
        }
      }
    }

    /** Harvests the anchors below `nav`, as the program is written: a non-empty
        href that fails to parse makes the loop re-examine the same node
        forever.  That outcome is reported as `hangs`; the Nav field then holds
        the anchors appended before the loop got stuck. */
    method ExtractNavAsWritten(nav: Cursor, parse: string -> Option<U>) returns (hangs: bool)
      modifies this`Nav
      ensures hangs <==> exists x | x in NavWalk(nav) :: BadHref(parse, x)
      ensures !hangs ==> Nav == old(Nav) + NavAnchors(nav, parse)
    {
      var n := FirstChildOf(nav);
      var stack: seq<Cursor> := [];
      ghost var seen: seq<Cursor> := [];
      while true
        invariant NavWalk(nav) == seen + Walk(n, stack, IsAnchor)
        invariant NoBadHref(parse, seen)
        invariant Nav == old(Nav) + Harvest(parse, seen)
        decreases ChainSizeOf(n) + QueueSize(stack)
      {
        if n.None? {
          WalkPop(stack, IsAnchor);
          if |stack| == 0 {
            assert seen == NavWalk(nav);
            NoBadHrefMeans(parse, seen);
            return false;
          }
          n := Some(stack[0]);
          stack := stack[1..];
        }
        var c := n.value;
        NavStep(nav, parse, seen, c, stack);
        var more, bad;
        more, bad, stack := VisitNav(c, stack, parse);
        if bad {
          assert c in NavWalk(nav);
          return true;
        }
        HarvestGrows(old(Nav), parse, seen, c, more);
        Nav := Nav + more;
        seen := seen + [c];
        n := NextSiblingOf(c);
      }
    }

    /** Harvests the anchors below `nav` in the order of the walk, without
        descending into anchors; an anchor whose non-empty href fails to parse
        is dropped and the walk moves on to its next sibling. */
    method ExtractNav(nav: Cursor, parse: string -> Option<U>)
      modifies this`Nav
      ensures Nav == old(Nav) + NavAnchors(nav, parse)
    {
      var n := FirstChildOf(nav);
      var stack: seq<Cursor> := [];
      ghost var seen: seq<Cursor> := [];
      while true
        invariant NavWalk(nav) == seen + Walk(n, stack, IsAnchor)
        invariant Nav == old(Nav) + Harvest(parse, seen)
        decreases ChainSizeOf(n) + QueueSize(stack)
      {
        if n.None? {
          WalkPop(stack, IsAnchor);
          if |stack| == 0 {
            assert seen == NavWalk(nav);
            return;
          }
          n := Some(stack[0]);
          stack := stack[1..];
        }
        var c := n.value;
        NavStep(nav, parse, seen, c, stack);
        var more, bad;
        more, bad, stack := VisitNav(c, stack, parse);
        HarvestGrows(old(Nav), parse, seen, c, more);
        Nav := Nav + more;
        seen := seen + [c];
        n := NextSiblingOf(c);
      }
    }
  }

  // ---------------------------------------------------------------------------
  // The head

  /** The three document fields that the head sets. */
  datatype HeadFields = HeadFields(title: string, description: string, author: string)

  function Content(c: Cursor): string
  {
    AttrValue(Some(c), ["content"])
  }

  /** A meta with non-empty content whose name (or http-equiv) is `name`. */
  predicate MetaNamed(c: Cursor, name: string)
  {
    IsElement(Some(c), ["meta"]) && Content(c) != "" && AttrValue(Some(c), ["name", "http-equiv"]) == name
  }

  /** A title element with a child. */
  predicate TitleWithText(c: Cursor)
  {
    IsElement(Some(c), ["title"]) && FirstChildOf(c).Some?
  }

  /** The text of the first child of `c`. */
  function TitleText(c: Cursor): string
  {
    if FirstChildOf(c).Some? then TextContent(FirstChildOf(c).value) else ""
  }

  /** The head fields after reading the child `c`. */
  function ReadHeadChild(h: HeadFields, c: Cursor): (r: HeadFields)
    ensures MetaNamed(c, "description") || r.description == h.description
    ensures MetaNamed(c, "author") || r.author == h.author
    ensures TitleWithText(c) || r.title == h.title
  {
    if IsElement(Some(c), ["link"]) then h
    else if IsElement(Some(c), ["meta"]) then
      if Content(c) == "" then h
      else if AttrValue(Some(c), ["name", "http-equiv"]) == "description" then h.(description := Content(c))
      else if AttrValue(Some(c), ["name", "http-equiv"]) == "author" then h.(author := Content(c))
      else h
    else if IsElement(Some(c), ["title"]) then
      if FirstChildOf(c).Some? then h.(title := TitleText(c)) else h
    else h
  }

  /** The head fields after reading every node of `w` in order. */
  function ReadHead(h: HeadFields, w: seq<Cursor>): (r: HeadFields)
    ensures (forall i | 0 <= i < |w| :: !MetaNamed(w[i], "description")) ==> r.description == h.description
    ensures (forall i | 0 <= i < |w| :: !MetaNamed(w[i], "author")) ==> r.author == h.author
    ensures (forall i | 0 <= i < |w| :: !TitleWithText(w[i])) ==> r.title == h.title
    decreases |w|
  {
    if w == [] then h
    else
      assert forall i | 0 <= i < |w| - 1 :: DropLast(w)[i] == w[i];
      ReadHeadChild(ReadHead(h, DropLast(w)), Last(w))
  }

  lemma ReadHeadSnoc(h: HeadFields, w: seq<Cursor>, c: Cursor)
    ensures ReadHead(h, w + [c]) == ReadHeadChild(ReadHead(h, w), c)
  {
    assert DropLast(w + [c]) == w && Last(w + [c]) == c;
  }

  /** The description is the content of the last description meta, if any. */
  lemma {:induction false} ReadHeadDescription(h: HeadFields, w: seq<Cursor>)
    ensures ReadHead(h, w).description == match LastWhere(w, c => MetaNamed(c, "description"))
      case None => h.description
      case Some(c) => Content(c)
    decreases |w|
  {
    if w != [] {
      ReadHeadDescription(h, DropLast(w));
    }
  }

  /** The author is the content of the last author meta, if any. */
  lemma {:induction false} ReadHeadAuthor(h: HeadFields, w: seq<Cursor>)
    ensures ReadHead(h, w).author == match LastWhere(w, c => MetaNamed(c, "author"))
      case None => h.author
      case Some(c) => Content(c)
    decreases |w|
  {
    if w != [] {
      ReadHeadAuthor(h, DropLast(w));
    }
  }

  /** The title is the text of the first child of the last title with a
      child, if any. */
  lemma {:induction false} ReadHeadTitle(h: HeadFields, w: seq<Cursor>)
    ensures ReadHead(h, w).title == match LastWhere(w, TitleWithText)
      case None => h.title
      case Some(c) => TitleText(c)
    decreases |w|
  {
    if w != [] {
      ReadHeadTitle(h, DropLast(w));
      var c := Last(w);
      assert ReadHead(h, w) == ReadHeadChild(ReadHead(h, DropLast(w)), c);
      if TitleWithText(c) {
        assert LastWhere(w, TitleWithText) == Some(c);
        TitleChild(ReadHead(h, DropLast(w)), c);
      } else {
        assert LastWhere(w, TitleWithText) == LastWhere(DropLast(w), TitleWithText);
      }
    }
  }

  lemma TitleChild(h: HeadFields, c: Cursor)
    requires TitleWithText(c)
    ensures ReadHeadChild(h, c).title == TitleText(c)
  {
  }

  /** A meta whose description comes from its name attribute wins over an
      http-equiv attribute listed after it, and vice versa: attribute order
      decides. */
  lemma MetaNameByAttributeOrder(c: Cursor)
    requires |Attrs(c)| >= 2
    requires Attrs(c)[0] == Attribute("http-equiv", "author")
    requires Attrs(c)[1] == Attribute("name", "description")
    ensures AttrValue(Some(c), ["name", "http-equiv"]) == "author"
  {
    assert KeyIn(["name", "http-equiv"], Attrs(c)[0]);
  }

  // ---------------------------------------------------------------------------
  // The navigation regions

  predicate IsAnchor(c: Cursor)
  {
    IsElement(Some(c), ["a"])
  }

  function Href(c: Cursor): string
  {
    AttrValue(Some(c), ["href"])
  }

  /** An anchor whose non-empty href does not parse. */
  predicate BadHref<U>(parse: string -> Option<U>, c: Cursor)
  {
    IsAnchor(c) && Href(c) != "" && parse(Href(c)).None?
  }

  /** The anchors that yield an Anchor value. */
  predicate Keeps<U>(parse: string -> Option<U>, c: Cursor)
  {
    IsAnchor(c) && !BadHref(parse, c)
  }

  function Kept<U>(parse: string -> Option<U>): Cursor -> bool
  {
    (c: Cursor) => Keeps(parse, c)
  }

  /** The Anchor value an anchor element yields. */
  function MakeAnchor<U>(parse: string -> Option<U>, c: Cursor): (a: Anchor<U>)
    ensures a.url.None? <==> Href(c) == "" || parse(Href(c)).None?
    ensures a.url.Some? ==> a.url == parse(Href(c))
  {
    Anchor(AttrValue(Some(c), ["title"]), TextContent(c),
           if Href(c) == "" then None else parse(Href(c)),
           AttrValue(Some(c), ["rel"]))
  }

  function MakeAnchorOf<U>(parse: string -> Option<U>): Cursor -> Anchor<U>
  {
    (c: Cursor) => MakeAnchor(parse, c)
  }

  /** The anchors yielded by the nodes of `w`, in order. */
  function Harvest<U>(parse: string -> Option<U>, w: seq<Cursor>): (r: seq<Anchor<U>>)
    ensures |r| <= |w|
    ensures (forall i | 0 <= i < |w| :: !IsAnchor(w[i])) ==> r == []
    decreases |w|
  {
    if w == [] then []
    else
      assert forall i | 0 <= i < |w| - 1 :: DropLast(w)[i] == w[i];
      Harvest(parse, DropLast(w)) + (if Keeps(parse, Last(w)) then [MakeAnchor(parse, Last(w))] else [])
  }

  lemma HarvestSnoc<U>(parse: string -> Option<U>, w: seq<Cursor>, c: Cursor)
    ensures Keeps(parse, c) ==> Harvest(parse, w + [c]) == Harvest(parse, w) + [MakeAnchor(parse, c)]
    ensures !Keeps(parse, c) ==> Harvest(parse, w + [c]) == Harvest(parse, w)
  {
    assert DropLast(w + [c]) == w && Last(w + [c]) == c;
  }

  /** No node of `w` is an anchor whose href fails to parse. */
  predicate NoBadHref<U>(parse: string -> Option<U>, w: seq<Cursor>)
    decreases |w|
  {
    w == [] || (NoBadHref(parse, DropLast(w)) && !BadHref(parse, Last(w)))
  }

  lemma {:induction false} NoBadHrefMeans<U>(parse: string -> Option<U>, w: seq<Cursor>)
    ensures NoBadHref(parse, w) <==> forall x | x in w :: !BadHref(parse, x)
    decreases |w|
  {
    if w != [] {
      NoBadHrefMeans(parse, DropLast(w));
      assert w == DropLast(w) + [Last(w)];
    }
  }

  /** One node of the nav walk: the walk goes on from its next sibling with
      its first child queued unless it is an anchor, and no bad href has been
      seen while none has been seen before and this node's href is fine. */
  lemma NavStep<U>(nav: Cursor, parse: string -> Option<U>, seen: seq<Cursor>, c: Cursor, q: seq<Cursor>)
    requires NavWalk(nav) == seen + Walk(Some(c), q, IsAnchor)
    ensures NavWalk(nav) == (seen + [c]) + Walk(NextSiblingOf(c), Enqueue(c, q, IsAnchor), IsAnchor)
    ensures ChainSizeOf(NextSiblingOf(c)) + QueueSize(Enqueue(c, q, IsAnchor)) < ChainSizeOf(Some(c)) + QueueSize(q)
    ensures NoBadHref(parse, seen + [c]) == (NoBadHref(parse, seen) && !BadHref(parse, c))
  {
    WalkAdvance(NavWalk(nav), seen, Some(c), q, IsAnchor);
    assert DropLast(seen + [c]) == seen && Last(seen + [c]) == c;
  }

  /** Appending the anchors a visited node yields to a field holding the
      harvest so far gives the harvest including that node. */
  lemma HarvestGrows<U>(base: seq<Anchor<U>>, parse: string -> Option<U>, seen: seq<Cursor>, c: Cursor, more: seq<Anchor<U>>)
    requires more == if Keeps(parse, c) then [MakeAnchor(parse, c)] else []
    ensures (base + Harvest(parse, seen)) + more == base + Harvest(parse, seen + [c])
  {
    HarvestSnoc(parse, seen, c);
  }

  /** The harvest is the Anchor value of each kept node, in order. */
  lemma {:induction false} HarvestIsMapSelect<U>(parse: string -> Option<U>, w: seq<Cursor>)
    ensures Harvest(parse, w) == Map(Select(w, Kept(parse)), MakeAnchorOf(parse))
    decreases |w|
  {
    if w != [] {
      var p, c := DropLast(w), Last(w);
      var more := if Keeps(parse, c) then [MakeAnchor(parse, c)] else [];
      calc {
        Harvest(parse, w);
      ==
        Harvest(parse, p) + more;
      == { HarvestIsMapSelect(parse, p); }
        Map(Select(p, Kept(parse)), MakeAnchorOf(parse)) + more;
      == { MapSelectSnoc(p, c, Kept(parse), MakeAnchorOf(parse)); }
        Map(Select(p + [c], Kept(parse)), MakeAnchorOf(parse));
      == { DropLastSplit(w); }
        Map(Select(w, Kept(parse)), MakeAnchorOf(parse));
      }
    }
  }

  /** The nodes the nav walk visits: the level-order walk below `nav` that
      does not descend into anchors. */
  function NavWalk(nav: Cursor): seq<Cursor>
  {
    Walk(FirstChildOf(nav), [], IsAnchor)
  }

  /** The anchors harvested from `nav`. */
  function NavAnchors<U>(nav: Cursor, parse: string -> Option<U>): (r: seq<Anchor<U>>)
    ensures |r| <= |NavWalk(nav)|
    ensures FirstChildOf(nav).None? ==> r == []
  {
    Harvest(parse, NavWalk(nav))
  }

  /** Exactly the anchors strictly below `nav` that no other anchor encloses,
      and whose href is empty or parses, yield an Anchor. */
  lemma NavAnchorsExact<U>(nav: Cursor, parse: string -> Option<U>, x: Cursor)
    requires nav.At?
    ensures x in Select(NavWalk(nav), Kept(parse)) <==> IsAnchor(x) && !BadHref(parse, x) && Inside(x, nav, IsAnchor)
  {
    WalkBelowExact(nav, IsAnchor);
    SelectMembers(NavWalk(nav), Kept(parse));
  }

  /** An anchor nested inside a visited anchor is never visited. */
  lemma NestedAnchorsSkipped(nav: Cursor, a: Cursor, x: Cursor)
    requires nav.At? && a in NavWalk(nav) && x in NavWalk(nav) && IsAnchor(a)
    ensures !Below(x, a)
  {
    NoVisitBelowStop(nav, IsAnchor, a, x);
  }

  /** Anchors are harvested in level order. */
  lemma NavAnchorsLevelOrder<U>(nav: Cursor, parse: string -> Option<U>)
    requires nav.At?
    ensures DepthSorted(Select(NavWalk(nav), Kept(parse)))
  {
    WalkBelowLevelOrder(nav, IsAnchor);
    SelectDepthSorted(NavWalk(nav), Kept(parse));
  }

  /** A parser that rejects every href. */
  function RejectAll(s: string): Option<int>
  {
    None
  }

  /** <nav><a href="x"></a></nav> */
  function BadNav(): Tree
  {
    Tree(ElementNode, "nav", [], [Tree(ElementNode, "a", [Attribute("href", "x")], [])])
  }

  /** With an href that does not parse, the loop as written never finishes,
      while the corrected loop drops that anchor. */
  lemma BadHrefHangs()
    ensures ValidPos(At(BadNav(), []))
    ensures exists x | x in NavWalk(At(BadNav(), [])) :: BadHref(RejectAll, x)
    ensures NavAnchors(At(BadNav(), []), RejectAll) == []
  {
    var nav: Cursor := At(BadNav(), []);
    var a: Cursor := At(BadNav(), [0]);
    assert DropLast([0]) == [];
    assert FirstChildOf(nav) == Some(a);
    assert NextSiblingOf(a).None?;
    WalkFrom(a, IsAnchor);
    assert NavWalk(nav) == [a];
    assert Attrs(a)[0].key == "href";
    assert Href(a) == "x";
    assert BadHref(RejectAll, a);
    assert [] + [a] == [a];
    HarvestSnoc(RejectAll, [], a);
  }

  /** When no href fails to parse, the loop as written and the corrected loop
      harvest the same anchors: every anchor visited is kept. */
  lemma NoBadHrefKeepsAll<U>(nav: Cursor, parse: string -> Option<U>)
    requires forall x | x in NavWalk(nav) :: !BadHref(parse, x)
    ensures Select(NavWalk(nav), Kept(parse)) == Select(NavWalk(nav), IsAnchor)
  {
    SelectSameTest(NavWalk(nav), Kept(parse), IsAnchor);
  }

  lemma {:induction false} SelectSameTest<T>(s: seq<T>, f: T -> bool, g: T -> bool)
    requires forall x | x in s :: f(x) == g(x)
    ensures Select(s, f) == Select(s, g)
    decreases |s|
  {
    if s != [] {
      assert forall x | x in DropLast(s) :: x in s;
      SelectSameTest(DropLast(s), f, g);
    }
  }

  // ---------------------------------------------------------------------------
  // Extraction

  /** The text of `n`: the same as its PlainText. */
  method ToText(n: Node) returns (t: string)
    ensures t == if n.None? then "" else TextContent(n.value)
    ensures n.Some? && n.value.At? ==> t == TreeText(Subtree(n.value))
  {
    t := PlainText(n);
    if n.Some? && n.value.At? {
      TextContentIsTreeText(n.value);
    }
  }

  /** Builds the document of an outline: nothing unless the document, head,
      body and main nodes are all set; otherwise the head fields and the
      anchors of every navigation region, in order. */
  method Extract<U>(o: O.Outline, parse: string -> Option<U>) returns (d: Option<Document<U>>)
    ensures d.None? <==> o.DocumentNode.None? || o.HeadNode.None? || o.BodyNode.None? || o.MainNode.None?
    ensures d.Some? ==> fresh(d.value)
    ensures d.Some? ==> d.value.Type == UnknownType
    ensures d.Some? ==> HeadFields(d.value.Title, d.value.Description, d.value.Author)
                        == ReadHead(HeadFields("", "", ""), Kids(o.HeadNode.value))
    ensures d.Some? ==> d.value.Nav == Concat(Map(o.NavNodes, (n: Cursor) => NavAnchors(n, parse)))
  {
    if o.DocumentNode.None? || o.HeadNode.None? || o.BodyNode.None? || o.MainNode.None? {
      return None;
    }
    var doc: Document<U> := new Document<U>();
    doc.ExtractHead(o.HeadNode);
    ghost var navs := o.NavNodes;
    ghost var f := (n: Cursor) => NavAnchors(n, parse);
    for k := 0 to |o.NavNodes|
      invariant doc.Nav == Concat(Map(navs[..k], f))
      invariant o.NavNodes == navs
      modifies doc`Nav
    {
      ConcatMapStep(navs, k, f);
      doc.ExtractNav(o.NavNodes[k], parse);
    }
    assert navs[..|navs|] == navs;
    return Some(doc);
  }

  /** Some node of the walk below `nav` is an anchor whose non-empty href
      fails to parse: extractNav as written never returns on `nav`. */
  predicate NavHangs<U>(nav: Cursor, parse: string -> Option<U>)
  {
    exists x | x in NavWalk(nav) :: BadHref(parse, x)
  }

  /** Extract as written, over extractNav as written: `hangs` reports that the
      source never returns, which happens exactly when one of the navigation
      regions holds an anchor with a bad href.  Otherwise the document is the
      one Extract builds. */
  method ExtractAsWritten<U>(o: O.Outline, parse: string -> Option<U>) returns (d: Option<Document<U>>, hangs: bool)
    ensures d.None? <==> o.DocumentNode.None? || o.HeadNode.None? || o.BodyNode.None? || o.MainNode.None?
    ensures d.None? ==> !hangs
    ensures d.Some? ==> fresh(d.value)
    ensures d.Some? ==> (hangs <==> exists k | 0 <= k < |o.NavNodes| :: NavHangs(o.NavNodes[k], parse))
    ensures d.Some? ==> HeadFields(d.value.Title, d.value.Description, d.value.Author)
                        == ReadHead(HeadFields("", "", ""), Kids(o.HeadNode.value))
    ensures d.Some? && !hangs ==> d.value.Nav == Concat(Map(o.NavNodes, (n: Cursor) => NavAnchors(n, parse)))
  {
    if o.DocumentNode.None? || o.HeadNode.None? || o.BodyNode.None? || o.MainNode.None? {
      return None, false;
    }
    var doc: Document<U> := new Document<U>();
    doc.ExtractHead(o.HeadNode);
    ghost var navs := o.NavNodes;
    ghost var f := (n: Cursor) => NavAnchors(n, parse);
    ghost var ok := (n: Cursor) => !NavHangs(n, parse);
    for k := 0 to |o.NavNodes|
      invariant doc.Nav == Concat(Map(navs[..k], f))
      invariant o.NavNodes == navs
      invariant AllOf(navs[..k], ok)
      modifies doc`Nav
    {
      ConcatMapStep(navs, k, f);
      var stuck := doc.ExtractNavAsWritten(o.NavNodes[k], parse);
      if stuck {
        assert NavHangs(navs[k], parse);
        return Some(doc), true;
      }
      assert ok(navs[k]);
      AllOfStep(navs, k, ok);
    }
    assert navs[..|navs|] == navs;
    AllOfMeans(navs, ok);
    return Some(doc), false;
  }
}
