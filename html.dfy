/** The nil-safe node API of html/html.go: attribute lookup, element and class
    tests, pre-order searches, text flattening and the child, sibling and parent
    walks, over the parsed tree of module Dom. */
module Html {
  import opened Wrappers
  import opened Seqs
  import opened Dom

  /** A *Node: nil, or a pointer to a node.  A Node that wraps no parsed node
      answers every accessor exactly as nil does, so both are None here. */
  type Node = Option<Cursor>

  function SizeOf(n: Node): nat
  {
    if n.None? then 0 else NodeSize(n.value)
  }

  // ---------------------------------------------------------------------------
  // White space and class tokens (the strings.Fields split)

  /** Unicode white space, as unicode.IsSpace defines it. */
  predicate IsSpace(ch: char)
  {
    ('\U{0009}' <= ch <= '\U{000D}') || ch == ' ' || ch == '\U{0085}' || ch == '\U{00A0}'
    || ch == '\U{1680}' || ('\U{2000}' <= ch <= '\U{200A}') || ch == '\U{2028}' || ch == '\U{2029}'
    || ch == '\U{202F}' || ch == '\U{205F}' || ch == '\U{3000}'
  }

  /** A non-empty run of non-space characters. */
  predicate IsWord(w: string)
  {
    |w| > 0 && forall i | 0 <= i < |w| :: !IsSpace(w[i])
  }

  /** Length of the leading run of non-space characters of `s`. */
  function WordLen(s: string): (n: nat)
    ensures n <= |s|
    ensures forall i | 0 <= i < n :: !IsSpace(s[i])
    ensures n < |s| ==> IsSpace(s[n])
    decreases |s|
  {
    if s == [] || IsSpace(s[0]) then 0
    else
      var n := 1 + WordLen(s[1..]);
      assert forall i | 1 <= i < |s| :: s[i] == s[1..][i - 1];
      n
  }

  /** The maximal runs of non-space characters of `s`, in order. */
  function Fields(s: string): (ws: seq<string>)
    ensures forall i | 0 <= i < |ws| :: IsWord(ws[i])
    decreases |s|
  {
    if s == [] then []
    else if IsSpace(s[0]) then Fields(s[1..])
    else
      var n := WordLen(s);
      [s[..n]] + Fields(s[n..])
  }

  /** The words of `ws` with one space between neighbours. */
  function Spaced(ws: seq<string>): string
  {
    if ws == [] then "" else if |ws| == 1 then ws[0] else ws[0] + " " + Spaced(ws[1..])
  }

  lemma {:induction false} WordLenOfWord(w: string, rest: string)
    requires IsWord(w)
    requires rest == [] || IsSpace(rest[0])
    ensures WordLen(w + rest) == |w|
    decreases |w|
  {
    if |w| > 1 {
      assert (w + rest)[1..] == w[1..] + rest;
      WordLenOfWord(w[1..], rest);
    }
  }

  /** Splitting space-separated words gives those words back. */
  lemma {:induction false} FieldsOfSpaced(ws: seq<string>)
    requires forall i | 0 <= i < |ws| :: IsWord(ws[i])
    ensures Fields(Spaced(ws)) == ws
  {
    if ws == [] {
    } else if |ws| == 1 {
      WordLenOfWord(ws[0], "");
      assert ws[0] + "" == ws[0];
      assert ws[0][|ws[0]|..] == [];
    } else {
      var w := ws[0];
      var rest := Spaced(ws[1..]);
      var s := w + " " + rest;
      assert s == w + (" " + rest);
      WordLenOfWord(w, " " + rest);
      assert s[..|w|] == w;
      assert s[|w|..] == " " + rest;
      assert (" " + rest)[1..] == rest;
      FieldsOfSpaced(ws[1..]);
    }
  }

  // ---------------------------------------------------------------------------
  // Pure accessors

  /** Whether `n` is an element, and, when names are given, one of those tags. */
  function IsElement(n: Node, names: seq<string>): (r: bool)
    ensures n.None? || Kind(n.value) != ElementNode ==> !r
    ensures n.Some? && Kind(n.value) == ElementNode && names == [] ==> r
    ensures names != [] ==> (r <==> n.Some? && Kind(n.value) == ElementNode && Data(n.value) in names)
  {
    n.Some? && Kind(n.value) == ElementNode && (|names| == 0 || Data(n.value) in names)
  }

  function FirstChild(n: Node): (r: Node)
    ensures r.Some? ==> n.Some? && (n.value.At? ==> Parent(r) == n)
    ensures n.Some? ==> SizeOf(n) == 1 + ChainSizeOf(r)
  {
    if n.None? then None else FirstChildOf(n.value)
  }

  function NextSibling(n: Node): (r: Node)
    ensures r.Some? ==> n.Some? && Parent(r) == Parent(n)
    ensures n.Some? ==> ChainSizeOf(n) == SizeOf(n) + ChainSizeOf(r)
  {
    if n.None? then None else NextSiblingOf(n.value)
  }

  function Parent(n: Node): (r: Node)
    ensures r.Some? ==> n.Some? && n.value in Kids(r.value)
  {
    if n.None? then None
    else
      var p := ParentOf(n.value);
      if p.Some? then
        KidOfParent(n.value);
        p
      else p
  }

  /** A synthetic parent whose FirstChild is `n`: walking its children visits `n`
      and `n`'s following siblings, while `n` keeps its own Parent. */
  function FakeParent(n: Node): (r: Node)
    ensures r.Some? && FirstChild(r) == n && NextSibling(r) == None && Parent(r) == None
    ensures Kids(r.value) == Chain(n)
    ensures !IsElement(r, []) && Attrs(r.value) == []
    ensures n.Some? ==> Parent(n) != r
  {
    assert n.Some? ==> ValidPos(n.value);
    var f: Cursor := Fake(n);
    Some(f)
  }

  // ---------------------------------------------------------------------------
  // Attribute lookup

  predicate KeyIn(keys: seq<string>, a: Attribute)
  {
    a.key in keys
  }

  /** The value of the first attribute, in attribute-list order, whose key is
      one of `keys`; "" for nil or when none is. */
  function AttrValue(n: Node, keys: seq<string>): string
  {
    if n.None? then ""
    else match FirstWhere(Attrs(n.value), a => KeyIn(keys, a))
      case Some(a) => a.val
      case None => ""
  }

  /** The value found is that of the first attribute with one of the keys,
      and "" when there is none. */
  lemma AttrValueFirst(n: Node, keys: seq<string>)
    ensures n.None? || (forall i | 0 <= i < |Attrs(n.value)| :: Attrs(n.value)[i].key !in keys) ==> AttrValue(n, keys) == ""
    ensures n.Some? ==> forall i | 0 <= i < |Attrs(n.value)| && Attrs(n.value)[i].key in keys ::
      (forall j | 0 <= j < i :: Attrs(n.value)[j].key !in keys) ==> AttrValue(n, keys) == Attrs(n.value)[i].val
  {
  }

  method Attr(n: Node, keys: seq<string>) returns (v: string)
    ensures v == AttrValue(n, keys)
  {
    AttrValueFirst(n, keys);
    if n.None? {
      return "";
    }
    var attrs := Attrs(n.value);
    ghost var f := (a: Attribute) => KeyIn(keys, a);
    for i := 0 to |attrs|
      invariant forall j | 0 <= j < i :: attrs[j].key !in keys
    {
      for k := 0 to |keys|
        invariant forall m | 0 <= m < k :: attrs[i].key != keys[m]
      {
        if attrs[i].key == keys[k] {
          return attrs[i].val;
        }
      }
    }
    return "";
  }

  lemma {:induction false} FirstWhereSameTest<T>(s: seq<T>, f: T -> bool, g: T -> bool)
    requires forall x :: f(x) == g(x)
    ensures FirstWhere(s, f) == FirstWhere(s, g)
    decreases |s|
  {
    if s != [] {
      FirstWhereSameTest(s[1..], f, g);
    }
  }

  /** Attribute-list order decides which value Attr returns: the order in which
      the keys are given does not matter. */
  lemma AttrIgnoresKeyOrder(n: Node, keys1: seq<string>, keys2: seq<string>)
    requires forall k :: k in keys1 <==> k in keys2
    ensures AttrValue(n, keys1) == AttrValue(n, keys2)
  {
    if n.Some? {
      FirstWhereSameTest(Attrs(n.value), a => KeyIn(keys1, a), a => KeyIn(keys2, a));
    }
  }

  // ---------------------------------------------------------------------------
  // Class tests

  /** `n` is an element one of whose class attributes lists `cls` as a token. */
  predicate ClassListed(n: Node, cls: string)
  {
    n.Some? && Kind(n.value) == ElementNode
    && exists i | 0 <= i < |Attrs(n.value)| :: Attrs(n.value)[i].key == "class" && cls in Fields(Attrs(n.value)[i].val)
  }

  method HasClass(n: Node, cls: string) returns (b: bool)
    ensures b == ClassListed(n, cls)
  {
    if n.None? || Kind(n.value) != ElementNode {
      return false;
    }
    var attrs := Attrs(n.value);
    for i := 0 to |attrs|
      invariant forall j | 0 <= j < i :: !(attrs[j].key == "class" && cls in Fields(attrs[j].val))
    {
      if attrs[i].key == "class" {
        var fs := Fields(attrs[i].val);
        for k := 0 to |fs|
          invariant forall m | 0 <= m < k :: fs[m] != cls
        {
          if cls == fs[k] {
            return true;
          }
        }
      }
    }
    return false;
  }

  /** `c` carries every one of the class tokens `toks`. */
  predicate HasAllClasses(toks: seq<string>, c: Cursor)
  {
    forall j | 0 <= j < |toks| :: ClassListed(Some(c), toks[j])
  }

  function ClassTest(toks: seq<string>): Cursor -> bool
  {
    (c: Cursor) => HasAllClasses(toks, c)
  }

  // ---------------------------------------------------------------------------
  // Pre-order

  /** `c` followed by the pre-order of each of its children in turn. */
  function PreOrder(c: Cursor): seq<Cursor>
    decreases NodeSize(c), 0
  {
    [c] + PreOrderChain(FirstChildOf(c))
  }

  /** The pre-orders of `n` and of each of its following siblings, concatenated. */
  function PreOrderChain(n: Node): seq<Cursor>
    decreases ChainSizeOf(n), 1
  {
    if n.None? then [] else PreOrder(n.value) + PreOrderChain(NextSiblingOf(n.value))
  }

  lemma SelectSingle<T>(x: T, f: T -> bool)
    ensures Select([x], f) == if f(x) then [x] else []
  {
    assert DropLast([x]) == [];
  }

  lemma {:induction false} SelectAll<T>(s: seq<T>, f: T -> bool)
    requires forall i | 0 <= i < |s| :: f(s[i])
    ensures Select(s, f) == s
    decreases |s|
  {
    if s != [] {
      assert forall i | 0 <= i < |s| - 1 :: DropLast(s)[i] == s[i];
      SelectAll(DropLast(s), f);
      assert f(Last(s));
      assert s == DropLast(s) + [Last(s)];
    }
  }

  lemma {:induction false} SelectNone<T>(s: seq<T>, f: T -> bool)
    requires forall i | 0 <= i < |s| :: !f(s[i])
    ensures Select(s, f) == []
    decreases |s|
  {
    if s != [] {
      assert forall i | 0 <= i < |s| - 1 :: DropLast(s)[i] == s[i];
      SelectNone(DropLast(s), f);
      assert !f(Last(s));
    }
  }

  lemma {:induction false} FirstWhereAppend<T>(a: seq<T>, b: seq<T>, f: T -> bool)
    ensures FirstWhere(a + b, f) == if FirstWhere(a, f).Some? then FirstWhere(a, f) else FirstWhere(b, f)
    decreases |a|
  {
    if a == [] {
      assert a + b == b;
    } else {
      assert (a + b)[0] == a[0];
      assert (a + b)[1..] == a[1..] + b;
      FirstWhereAppend(a[1..], b, f);
    }
  }

  /** Every node a pre-order lists sits under its start, which comes first. */
  lemma {:induction false} PreOrderUnder(c: Cursor)
    requires c.At?
    ensures PreOrder(c)[0] == c
    ensures forall x | x in PreOrder(c) :: Under(x, c)
    decreases NodeSize(c), 0
  {
    var fc := FirstChildOf(c);
    if fc.Some? {
      PreOrderChainUnder(fc.value, c);
    }
  }

  lemma {:induction false} PreOrderChainUnder(x: Cursor, c: Cursor)
    requires c.At? && x.At? && x.root == c.root && |x.path| == |c.path| + 1 && x.path[..|c.path|] == c.path
    ensures forall y | y in PreOrderChain(Some(x)) :: Under(y, c)
    ensures forall y | y in PreOrderChain(Some(x)) :: y.At? && |y.path| > |c.path| && y.path[|c.path|] >= Last(x.path)
    decreases ChainSize(x), 1
  {
    PreOrderUnder(x);
    forall y | y in PreOrder(x)
      ensures Under(y, c) && |y.path| > |c.path| && y.path[|c.path|] == Last(x.path)
    {
      assert Under(y, x);
      assert y.path[..|c.path|] == y.path[..|x.path|][..|c.path|];
    }
    var ns := NextSiblingOf(x);
    if ns.Some? {
      assert DropLast(ns.value.path) == DropLast(x.path);
      assert x.path == DropLast(x.path) + [Last(x.path)];
      assert DropLast(x.path) == c.path;
      assert ns.value.path[..|c.path|] == DropLast(ns.value.path);
      PreOrderChainUnder(ns.value, c);
    }
  }

  /** Conversely, a pre-order lists every node under its start. */
  lemma {:induction false} PreOrderCovers(c: Cursor, x: Cursor)
    requires c.At? && Under(x, c)
    ensures x in PreOrder(c)
    decreases |x.path| - |c.path|
  {
    if |x.path| == |c.path| {
      assert x.path == x.path[..|c.path|];
      assert x == c;
    } else {
      var yp := x.path[..|c.path| + 1];
      LookupPrefix(x.root, x.path, |c.path| + 1);
      var y: Cursor := At(c.root, yp);
      assert DropLast(yp) == c.path;
      var fc := FirstChildOf(c);
      assert fc.Some?;
      FirstChildLinks(c);
      ChainHasLater(fc.value, y);
      assert x.path[..|yp|] == yp;
      PreOrderCovers(y, x);
      PreOrderChainHas(fc, y, x);
    }
  }

  /** A node listed in the pre-order of some node of a sibling chain is
      listed in the pre-order of the chain. */
  lemma {:induction false} PreOrderChainHas(n: Node, y: Cursor, x: Cursor)
    requires y in Chain(n) && x in PreOrder(y)
    ensures x in PreOrderChain(n)
    decreases ChainSizeOf(n)
  {
    assert Chain(n) == [n.value] + Chain(NextSiblingOf(n.value));
    if y != n.value {
      PreOrderChainHas(NextSiblingOf(n.value), y, x);
    }
  }

  /** No node is listed twice in a pre-order. */
  lemma {:induction false} PreOrderDistinct(c: Cursor)
    requires c.At?
    ensures Distinct(PreOrder(c))
    decreases NodeSize(c), 0
  {
    var fc := FirstChildOf(c);
    if fc.Some? {
      FirstChildLinks(c);
      PreOrderChainDistinct(fc.value, c);
      PreOrderChainUnder(fc.value, c);
    }
    DistinctAppend([c], PreOrderChain(fc));
  }

  lemma {:induction false} PreOrderChainDistinct(x: Cursor, c: Cursor)
    requires c.At? && x.At? && x.root == c.root && |x.path| == |c.path| + 1 && x.path[..|c.path|] == c.path
    ensures Distinct(PreOrderChain(Some(x)))
    decreases ChainSize(x), 1
  {
    PreOrderDistinct(x);
    PreOrderUnder(x);
    PreOrderChainUnder(x, c);
    var ns := NextSiblingOf(x);
    if ns.Some? {
      NextSiblingLinks(x);
      assert x.path == DropLast(x.path) + [Last(x.path)];
      assert DropLast(x.path) == c.path;
      assert ns.value.path[..|c.path|] == DropLast(ns.value.path);
      PreOrderChainDistinct(ns.value, c);
      PreOrderChainUnder(ns.value, c);
    }
    forall y | y in PreOrder(x)
      ensures |y.path| > |c.path| && y.path[|c.path|] == Last(x.path)
    {
      assert Under(y, x);
    }
    DistinctAppend(PreOrder(x), PreOrderChain(ns));
  }

  // ---------------------------------------------------------------------------
  // Pre-order searches

  /** The root of a subtree comes first in its pre-order. */
  lemma PreOrderHead(c: Cursor, f: Cursor -> bool)
    ensures Select(PreOrder(c), f) == (if f(c) then [c] else []) + Select(PreOrderChain(FirstChildOf(c)), f)
  {
    SelectSingle(c, f);
    SelectAppend([c], PreOrderChain(FirstChildOf(c)), f);
  }

  /** One node of a sibling chain: its subtree, then the rest of the chain. */
  lemma PreOrderChainStep(p: Cursor, f: Cursor -> bool)
    ensures Select(PreOrderChain(Some(p)), f) == Select(PreOrder(p), f) + Select(PreOrderChain(NextSiblingOf(p)), f)
    ensures NodeSize(p) + ChainSizeOf(NextSiblingOf(p)) == ChainSize(p)
  {
    SelectAppend(PreOrder(p), PreOrderChain(NextSiblingOf(p)), f);
  }

  /** Whether `c` carries each of the tokens `cs`, stopping at the first one missing. */
  method AllClassesListed(c: Cursor, cs: seq<string>) returns (ok: bool)
    ensures ok == HasAllClasses(cs, c)
  {
    ok := true;
    for i := 0 to |cs|
      invariant ok == forall j | 0 <= j < i :: ClassListed(Some(c), cs[j])
    {
      var h := HasClass(Some(c), cs[i]);
      if !h {
        ok := false;
        break;
      }
    }
  }

  /** Every node of the subtree, in pre-order, that carries all the class
      tokens of `cls`; with no tokens every node qualifies, text nodes too. */
  method Classes(n: Node, cls: string) returns (r: seq<Cursor>)
    ensures r == if n.None? then [] else Select(PreOrder(n.value), ClassTest(Fields(cls)))
    decreases 2 * SizeOf(n)
  {
    if n.None? {
      return [];
    }
    var c := n.value;
    var ok := AllClassesListed(c, Fields(cls));
    var rest := ClassesUnder(FirstChildOf(c), cls);
    PreOrderHead(c, ClassTest(Fields(cls)));
    r := (if ok then [c] else []) + rest;
  }

  /** The loop of Classes over the children: the matches in the subtrees of
      `p` and of each of its following siblings, in order.  Classes and this
      loop call each other; the doubled sizes order the calls. */
  method ClassesUnder(p: Node, cls: string) returns (r: seq<Cursor>)
    ensures r == Select(PreOrderChain(p), ClassTest(Fields(cls)))
    decreases 2 * ChainSizeOf(p) + 1
  {
    ghost var f := ClassTest(Fields(cls));
    ghost var top := ChainSizeOf(p);
    r := [];
    var q := p;
    while q.Some?
      invariant ChainSizeOf(q) <= top
      invariant Select(PreOrderChain(p), f) == r + Select(PreOrderChain(q), f)
      decreases ChainSizeOf(q)
    {
      PreOrderChainStep(q.value, f);
      assert SizeOf(q) <= top;
      var sub := Classes(q, cls);
      ghost var rest := Select(PreOrderChain(NextSiblingOf(q.value)), f);
      assert r + (sub + rest) == (r + sub) + rest;
      r := r + sub;
      q := NextSiblingOf(q.value);
    }
  }

  /** Every class of the spec is required, so with no tokens the subtree is
      returned whole, and a spec token that no class attribute lists on a node
      excludes that node. */
  lemma ClassesWithoutTokens(c: Cursor, cls: string)
    requires Fields(cls) == []
    ensures Select(PreOrder(c), ClassTest(Fields(cls))) == PreOrder(c)
  {
    SelectAll(PreOrder(c), ClassTest(Fields(cls)));
  }

  /** An element whose tag is one of `elms`. */
  predicate TagIn(elms: seq<string>, c: Cursor)
  {
    Kind(c) == ElementNode && Data(c) in elms
  }

  function TagTest(elms: seq<string>): Cursor -> bool
  {
    (c: Cursor) => TagIn(elms, c)
  }

  /** Whether `c` is an element whose tag is one of `elms`. */
  method TagListed(c: Cursor, elms: seq<string>) returns (b: bool)
    ensures b == TagIn(elms, c)
  {
    if Kind(c) != ElementNode {
      return false;
    }
    for i := 0 to |elms|
      invariant forall j | 0 <= j < i :: elms[j] != Data(c)
    {
      if Data(c) == elms[i] {
        return true;
      }
    }
    return false;
  }

  /** The elements of the subtree, in pre-order, whose tag is one of `elms`. */
  method Elements(n: Node, elms: seq<string>) returns (r: seq<Cursor>)
    ensures r == if n.None? then [] else Select(PreOrder(n.value), TagTest(elms))
    decreases 2 * SizeOf(n)
  {
    if n.None? {
      return [];
    }
    var c := n.value;
    var b := TagListed(c, elms);
    var rest := ElementsUnder(FirstChildOf(c), elms);
    PreOrderHead(c, TagTest(elms));
    r := (if b then [c] else []) + rest;
  }

  /** The loop of Elements over the children. */
  method ElementsUnder(p: Node, elms: seq<string>) returns (r: seq<Cursor>)
    ensures r == Select(PreOrderChain(p), TagTest(elms))
    decreases 2 * ChainSizeOf(p) + 1
  {
    ghost var f := TagTest(elms);
    ghost var top := ChainSizeOf(p);
    r := [];
    var q := p;
    while q.Some?
      invariant ChainSizeOf(q) <= top
      invariant Select(PreOrderChain(p), f) == r + Select(PreOrderChain(q), f)
      decreases ChainSizeOf(q)
    {
      PreOrderChainStep(q.value, f);
      assert SizeOf(q) <= top;
      var sub := Elements(q, elms);
      ghost var rest := Select(PreOrderChain(NextSiblingOf(q.value)), f);
      assert r + (sub + rest) == (r + sub) + rest;
      r := r + sub;
      q := NextSiblingOf(q.value);
    }
  }

  /** With no tag names nothing matches. */
  lemma ElementsWithoutNames(c: Cursor)
    ensures Select(PreOrder(c), TagTest([])) == []
  {
    SelectNone(PreOrder(c), TagTest([]));
  }

  /** Calls `f` on each element of the subtree whose tag is one of `elms`, in
      pre-order; `calls` is what the calls produced, one entry per call. */
  method Elements2<T>(n: Node, f: Cursor -> T, elms: seq<string>) returns (calls: seq<T>)
    ensures calls == if n.None? then [] else Map(Select(PreOrder(n.value), TagTest(elms)), f)
    decreases 2 * SizeOf(n)
  {
    if n.None? {
      return [];
    }
    var c := n.value;
    var b := TagListed(c, elms);
    var rest := Elements2Under(FirstChildOf(c), f, elms);
    ghost var head: seq<Cursor> := if b then [c] else [];
    PreOrderHead(c, TagTest(elms));
    MapAppend(head, Select(PreOrderChain(FirstChildOf(c)), TagTest(elms)), f);
    calls := (if b then [f(c)] else []) + rest;
  }

  /** The loop of Elements2 over the children. */
  method Elements2Under<T>(p: Node, f: Cursor -> T, elms: seq<string>) returns (calls: seq<T>)
    ensures calls == Map(Select(PreOrderChain(p), TagTest(elms)), f)
    decreases 2 * ChainSizeOf(p) + 1
  {
    ghost var g := TagTest(elms);
    ghost var top := ChainSizeOf(p);
    calls := [];
    var q := p;
    while q.Some?
      invariant ChainSizeOf(q) <= top
      invariant Map(Select(PreOrderChain(p), g), f) == calls + Map(Select(PreOrderChain(q), g), f)
      decreases ChainSizeOf(q)
    {
      PreOrderChainStep(q.value, g);
      MapAppend(Select(PreOrder(q.value), g), Select(PreOrderChain(NextSiblingOf(q.value)), g), f);
      assert SizeOf(q) <= top;
      var sub := Elements2(q, f, elms);
      ghost var rest := Map(Select(PreOrderChain(NextSiblingOf(q.value)), g), f);
      assert calls + (sub + rest) == (calls + sub) + rest;
      calls := calls + sub;
      q := NextSiblingOf(q.value);
    }
  }

  /** A node whose id attribute (the first one) equals `id`; a node without an
      id attribute has the value "". */
  predicate HasId(id: string, c: Cursor)
  {
    AttrValue(Some(c), ["id"]) == id
  }

  function IdTest(id: string): Cursor -> bool
  {
    (c: Cursor) => HasId(id, c)
  }

  /** The first node of the subtree, in pre-order, whose id is `id`, or nil. */
  method ID(n: Node, id: string) returns (r: Node)
    ensures r == if n.None? then None else FirstWhere(PreOrder(n.value), IdTest(id))
    decreases SizeOf(n)
  {
    if n.None? {
      return None;
    }
    var c := n.value;
    ghost var f := IdTest(id);
    FirstWhereAppend([c], PreOrderChain(FirstChildOf(c)), f);
    var v := Attr(n, ["id"]);
    if v == id {
      return n;
    }
    var p := FirstChild(n);
    while p.Some?
      invariant ChainSizeOf(p) < NodeSize(c)
      invariant FirstWhere(PreOrder(c), f) == FirstWhere(PreOrderChain(p), f)
      decreases ChainSizeOf(p)
    {
      FirstWhereAppend(PreOrder(p.value), PreOrderChain(NextSibling(p)), f);
      var t := ID(p, id);
      if t.Some? {
        return t;
      }
      p := NextSibling(p);
    }
    return None;
  }

  /** Searching for the empty id finds the first node without an id attribute
      (or with an empty one): the start itself when it has none. */
  lemma IdEmptyMatchesMissingId(c: Cursor)
    requires forall i | 0 <= i < |Attrs(c)| :: Attrs(c)[i].key != "id"
    ensures FirstWhere(PreOrder(c), IdTest("")) == Some(c)
  {
    assert FirstWhere(Attrs(c), a => KeyIn(["id"], a)).None?;
  }

  // ---------------------------------------------------------------------------
  // Element-filtered walks

  predicate IsElementNode(c: Cursor)
  {
    Kind(c) == ElementNode
  }

  /** Searching a sibling chain looks at its first node, then at the rest. */
  lemma ChainFirstStep(c: Cursor, f: Cursor -> bool)
    ensures FirstWhere(Chain(Some(c)), f) == if f(c) then Some(c) else FirstWhere(Chain(NextSiblingOf(c)), f)
  {
    assert Chain(Some(c))[1..] == Chain(NextSiblingOf(c));
  }

  /** The first child element whose tag is one of `names`; nil when `names` is
      empty.  The source dereferences `n` without a nil check. */
  method NextElement(n: Node, names: seq<string>) returns (r: Node)
    requires n.Some?
    ensures r == FirstWhere(Kids(n.value), TagTest(names))
    ensures names == [] ==> r.None?
  {
    var p := FirstChildOf(n.value);
    while p.Some?
      invariant FirstWhere(Kids(n.value), TagTest(names)) == FirstWhere(Chain(p), TagTest(names))
      decreases ChainSizeOf(p)
    {
      ChainFirstStep(p.value, TagTest(names));
      var b := TagListed(p.value, names);
      if b {
        return p;
      }
      p := NextSiblingOf(p.value);
    }
    return None;
  }

  /** The first element among the children, or nil. */
  method FirstChildElement(n: Node) returns (r: Node)
    ensures r == if n.None? then None else FirstWhere(Kids(n.value), IsElementNode)
  {
    if n.None? {
      return None;
    }
    var p := FirstChildOf(n.value);
    while true
      invariant FirstWhere(Kids(n.value), IsElementNode) == FirstWhere(Chain(p), IsElementNode)
      decreases ChainSizeOf(p)
    {
      if p.None? {
        return None;
      }
      ChainFirstStep(p.value, IsElementNode);
      if Kind(p.value) == ElementNode {
        return p;
      }
      p := NextSiblingOf(p.value);
    }
  }

  /** The first element among the following siblings, or nil. */
  method NextSiblingElement(n: Node) returns (r: Node)
    ensures r == if n.None? then None else FirstWhere(Chain(NextSiblingOf(n.value)), IsElementNode)
  {
    if n.None? {
      return None;
    }
    var p := NextSiblingOf(n.value);
    while true
      invariant FirstWhere(Chain(NextSiblingOf(n.value)), IsElementNode) == FirstWhere(Chain(p), IsElementNode)
      decreases ChainSizeOf(p)
    {
      if p.None? {
        return None;
      }
      ChainFirstStep(p.value, IsElementNode);
      if Kind(p.value) == ElementNode {
        return p;
      }
      p := NextSiblingOf(p.value);
    }
  }

  /** The nearest element among the ancestors, or nil. */
  method ParentElement(n: Node) returns (r: Node)
    ensures r == if n.None? then None else FirstWhere(Ancestors(n.value), IsElementNode)
  {
    if n.None? {
      return None;
    }
    var p := ParentOf(n.value);
    while true
      invariant p.Some? ==> FirstWhere(Ancestors(n.value), IsElementNode) == FirstWhere([p.value] + Ancestors(p.value), IsElementNode)
      invariant p.None? ==> FirstWhere(Ancestors(n.value), IsElementNode) == None
      decreases if p.None? then 0 else 1 + Depth(p.value)
    {
      if p.None? {
        return None;
      }
      if Kind(p.value) == ElementNode {
        return p;
      }
      p := ParentOf(p.value);
    }
  }

  // ---------------------------------------------------------------------------
  // Text

  /** The text of a text node; otherwise the text of the children, concatenated
      in order with nothing between them. */
  function TextContent(c: Cursor): string
    decreases NodeSize(c), 0
  {
    if Kind(c) == TextNode then Data(c) else TextContentChain(FirstChildOf(c))
  }

  function TextContentChain(n: Node): string
    decreases ChainSizeOf(n), 1
  {
    if n.None? then "" else TextContent(n.value) + TextContentChain(NextSiblingOf(n.value))
  }

  lemma TextChainStep(p: Cursor)
    ensures TextContentChain(Some(p)) == TextContent(p) + TextContentChain(NextSiblingOf(p))
    ensures NodeSize(p) + ChainSizeOf(NextSiblingOf(p)) == ChainSize(p)
  {
  }

  method PlainText(n: Node) returns (t: string)
    ensures t == if n.None? then "" else TextContent(n.value)
    decreases SizeOf(n)
  {
    if n.None? {
      return "";
    }
    var c := n.value;
    if Kind(c) == TextNode {
      return Data(c);
    }
    t := "";
    var p := FirstChildOf(c);
    while p.Some?
      invariant ChainSizeOf(p) < NodeSize(c)
      invariant TextContent(c) == t + TextContentChain(p)
      decreases ChainSizeOf(p)
    {
      TextChainStep(p.value);
      var s := PlainText(p);
      ghost var rest := TextContentChain(NextSiblingOf(p.value));
      assert t + (s + rest) == (t + s) + rest;
      t := t + s;
      p := NextSiblingOf(p.value);
    }
  }

  /** The text of a parsed subtree, by structural recursion on the tree value. */
  function TreeText(t: Tree): string
    decreases t
  {
    if t.kind == TextNode then t.data else ForestText(t.children)
  }

  function ForestText(ts: seq<Tree>): string
    decreases ts
  {
    if ts == [] then "" else TreeText(ts[0]) + ForestText(ts[1..])
  }

  /** Walking the FirstChild and NextSibling pointers gives the same text as
      recursion over the tree value. */
  lemma {:induction false} TextContentIsTreeText(c: Cursor)
    requires c.At?
    ensures TextContent(c) == TreeText(Subtree(c))
    decreases Subtree(c), 1
  {
    var t := Subtree(c);
    if t.kind != TextNode {
      if |t.children| > 0 {
        TextChainIsForestText(c.root, c.path, 0);
        assert t.children[0..] == t.children;
      } else {
        assert t.children == [];
      }
    }
  }

  lemma {:induction false} TextChainIsForestText(root: Tree, q: seq<nat>, i: nat)
    requires Lookup(root, q).Some? && i < |Lookup(root, q).value.children|
    ensures ValidPos(At(root, q + [i]))
    ensures TextContentChain(Some(At(root, q + [i]))) == ForestText(Lookup(root, q).value.children[i..])
    decreases Lookup(root, q).value, 0, |Lookup(root, q).value.children| - i
  {
    var cs := Lookup(root, q).value.children;
    assert DropLast(q + [i]) == q;
    var x: Cursor := At(root, q + [i]);
    assert Subtree(x) == cs[i];
    TextContentIsTreeText(x);
    assert cs[i..][0] == cs[i];
    assert cs[i..][1..] == cs[i + 1..];
    if i + 1 < |cs| {
      TextChainIsForestText(root, q, i + 1);
    } else {
      assert cs[i + 1..] == [];
    }
  }

  function HelloWorld(): Tree
  {
    Tree(ElementNode, "p", [], [
      Tree(TextNode, "Hello ", [], []),
      Tree(ElementNode, "b", [], [Tree(TextNode, "World", [], [])])])
  }

  /** PlainText of <p>Hello <b>World</b></p> is "Hello World". */
  lemma PlainTextExample()
    ensures ValidPos(At(HelloWorld(), []))
    ensures TextContent(At(HelloWorld(), [])) == "Hello World"
  {
    var p := HelloWorld();
    var hello := p.children[0];
    var b := p.children[1];
    var world := b.children[0];
    assert b.children[1..] == [];
    assert ForestText(b.children) == "World";
    assert p.children[1..][1..] == [];
    assert ForestText(p.children[1..]) == "World";
    assert TreeText(p) == "Hello World";
    TextContentIsTreeText(At(p, []));
  }
}
