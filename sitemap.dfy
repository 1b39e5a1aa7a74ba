/** The sitemap scanner: every complete line whose trimmed text starts with
    `<loc>` gives a page location, and every one that starts with
    `<sitemap><loc>` gives the address of a further sitemap.  The value is cut
    out by length alone; the closing tag is never looked at. */
module Sitemap {
  import opened Wrappers
  import opened Seqs
  import opened Bytes

  datatype Location = Location(URL: Bytes)

  class Sitemap {
    var Locations: seq<Location>
    var Sitemaps: seq<Bytes>

    constructor ()
      ensures Locations == [] && Sitemaps == []
    {
      Locations, Sitemaps := [], [];
    }

    /** Scans one complete line: a location line adds its location, a
        sitemap line its address, and false reports a line too short for
        its slice. */
    method ScanLine(line: Bytes) returns (ok: bool)
      modifies this
      ensures ok <==> !Panics(line)
      ensures ok ==> Locations == old(Locations) + if IsLoc(line) then [LocOf(line)] else []
      ensures ok ==> Sitemaps == old(Sitemaps) + if IsChild(line) then [ChildOf(line)] else []
    {
      var l := TrimSpace(line);
      if HasPrefix(l, LocOpen()) {
        if |l| < 11 {
          return false;
        }
        Locations := Locations + [Location(l[5..|l| - 6])];
      }
      if HasPrefix(l, ChildOpen()) {
        if |l| < 30 {
          return false;
        }
        Sitemaps := Sitemaps + [l[14..|l| - 16]];
      }
      return true;
    }
  }

  /** A slice expression out of range, which the scanner does not guard
      against (in the program it is a run-time panic). */
  datatype ParseError = SliceOutOfRange

  function LocOpen(): Bytes { Lit("<loc>") }
  function LocClose(): Bytes { Lit("</loc>") }
  function ChildOpen(): Bytes { Lit("<sitemap><loc>") }
  function ChildClose(): Bytes { Lit("</loc></sitemap>") }

  /** A line, newline included, whose trimmed text opens a location. */
  predicate IsLoc(line: Bytes)
  {
    HasPrefix(TrimSpace(line), LocOpen())
  }

  /** A line whose trimmed text opens a sitemap entry. */
  predicate IsChild(line: Bytes)
  {
    HasPrefix(TrimSpace(line), ChildOpen())
  }

  /** A line too short for the slice that cuts out its value. */
  predicate Panics(line: Bytes)
  {
    || (IsLoc(line) && |TrimSpace(line)| < |LocOpen()| + |LocClose()|)
    || (IsChild(line) && |TrimSpace(line)| < |ChildOpen()| + |ChildClose()|)
  }

  /** The trimmed text without its first 5 and last 6 bytes. */
  function LocOf(line: Bytes): (r: Location)
    ensures exists i, j | 0 <= i <= j <= |line| :: r.URL == line[i..j]
  {
    var t := TrimSpace(line);
    SliceOfTrimmed(line, |LocOpen()|, |LocClose()|);
    if |t| < |LocOpen()| + |LocClose()| then
      assert line[0..0] == [];
      Location([])
    else Location(t[|LocOpen()|..|t| - |LocClose()|])
  }

  /** The trimmed text without its first 14 and last 16 bytes. */
  function ChildOf(line: Bytes): (r: Bytes)
    ensures exists i, j | 0 <= i <= j <= |line| :: r == line[i..j]
  {
    var t := TrimSpace(line);
    SliceOfTrimmed(line, |ChildOpen()|, |ChildClose()|);
    if |t| < |ChildOpen()| + |ChildClose()| then
      assert line[0..0] == [];
      []
    else t[|ChildOpen()|..|t| - |ChildClose()|]
  }

  /** The trimmed text of `line` without its first `m` and last `n` bytes is
      a slice of `line`. */
  lemma SliceOfTrimmed(line: Bytes, m: nat, n: nat)
    ensures var t := TrimSpace(line);
      |t| >= m + n ==> exists i, j | 0 <= i <= j <= |line| :: t[m..|t| - n] == line[i..j]
  {
    var t := TrimSpace(line);
    TrimSpaceSlice(line);
    var a, b :| 0 <= a <= b <= |line| && t == line[a..b];
    if |t| >= m + n {
      SliceOfSlice(line, a, b, m, n);
    }
  }

  /** What scanning the complete lines `lines` gives: an error when any line
      is too short for its slice, and otherwise the locations and the
      sitemaps in line order. */
  function Scan(lines: seq<Bytes>): (r: Result<(seq<Location>, seq<Bytes>), ParseError>)
    ensures r.Ok? ==> |r.value.0| + |r.value.1| <= |lines|
  {
    assert forall x | x in lines :: !(IsLoc(x) && IsChild(x)) by {
      forall x | x in lines
        ensures !(IsLoc(x) && IsChild(x))
      {
        if IsLoc(x) {
          LocIsNoChild(x);
        }
      }
    }
    SelectDisjoint(lines, IsLoc, IsChild);
    if exists i | 0 <= i < |lines| :: Panics(lines[i]) then Err(SliceOutOfRange)
    else Ok((Map(Select(lines, IsLoc), LocOf), Map(Select(lines, IsChild), ChildOf)))
  }

  /** Scans a sitemap; a final line without a newline is never read. */
  method Parse(text: Bytes) returns (r: Result<Sitemap, ParseError>)
    ensures r.Err? <==> Scan(CompleteLines(text)).Err?
    ensures r.Ok? ==> fresh(r.value) && (r.value.Locations, r.value.Sitemaps) == Scan(CompleteLines(text)).value
  {
    var s := new Sitemap();
    var pos := 0;
    ghost var done: seq<Bytes> := [];
    ReadStart(text);
    while true
      invariant ReadSoFar(text, pos, done)
      invariant forall i | 0 <= i < |done| :: !Panics(done[i])
      invariant s.Locations == Map(Select(done, IsLoc), LocOf)
      invariant s.Sitemaps == Map(Select(done, IsChild), ChildOf)
      decreases |text| - pos
    {
      var line, next := ReadLine(text, pos);
      if line.None? {
        ReadEnd(text, pos, done);
        break;
      }
      ReadNext(text, pos, done);
      var ok := s.ScanLine(line.value);
      if !ok {
        PanicFound(text, next, done, line.value);
        return Err(SliceOutOfRange);
      }
      MapSelectSnoc(done, line.value, IsLoc, LocOf);
      MapSelectSnoc(done, line.value, IsChild, ChildOf);
      NoPanicSnoc(done, line.value);
      done := done + [line.value];
      pos := next;
    }
    return Ok(s);
  }

  lemma NoPanicSnoc(done: seq<Bytes>, line: Bytes)
    requires forall i | 0 <= i < |done| :: !Panics(done[i])
    requires !Panics(line)
    ensures forall i | 0 <= i < |done + [line]| :: !Panics((done + [line])[i])
  {
  }

  /** A line that panics, read after `done`, makes the whole scan an error. */
  lemma PanicFound(text: Bytes, pos: nat, done: seq<Bytes>, line: Bytes)
    requires ReadSoFar(text, pos, done + [line]) && Panics(line)
    ensures Scan(CompleteLines(text)).Err?
  {
    assert CompleteLines(text)[|done|] == line;
  }

  // ---------------------------------------------------------------------------
  // Properties

  /** No line both opens a location and a sitemap entry: their second bytes
      differ. */
  lemma LocIsNoChild(line: Bytes)
    requires IsLoc(line)
    ensures !IsChild(line)
  {
    var t := TrimSpace(line);
    assert t[1] == LocOpen()[1];
    assert LocOpen()[1] == 108 && ChildOpen()[1] == 115;
  }

  /** What a sitemap file is made of: page locations and further sitemaps. */
  datatype Entry = Page(url: Bytes) | Child(url: Bytes)

  /** The one-line rendering of an entry. */
  function Render(e: Entry): Bytes
  {
    match e
    case Page(u) => LocOpen() + u + LocClose() + [NL]
    case Child(u) => ChildOpen() + u + ChildClose() + [NL]
  }

  function RenderAll(es: seq<Entry>): Bytes
  {
    Concat(Map(es, Render))
  }

  function PageURL(e: Entry): Location { Location(e.url) }
  predicate IsPage(e: Entry) { e.Page? }
  predicate IsChildEntry(e: Entry) { e.Child? }
  function ChildURL(e: Entry): Bytes { e.url }

  /** Scanning rendered entries, followed by any unterminated tail, gives back
      the page locations and the sitemaps in order. */
  lemma ParseRender(es: seq<Entry>, tail: Bytes)
    requires forall i | 0 <= i < |es| :: NL !in es[i].url
    requires NL !in tail
    ensures Scan(CompleteLines(RenderAll(es) + tail)) ==
              Ok((Map(Select(es, IsPage), PageURL), Map(Select(es, IsChildEntry), ChildURL)))
  {
    var lines := Map(es, Render);
    forall i | 0 <= i < |lines|
      ensures IsLine(lines[i])
    {
      RenderedLine(es[i]);
    }
    LinesOfConcat(lines, tail);
    ScanRendered(es);
  }

  lemma ScanRendered(es: seq<Entry>)
    requires forall i | 0 <= i < |es| :: NL !in es[i].url
    ensures Scan(Map(es, Render)) == Ok((Map(Select(es, IsPage), PageURL), Map(Select(es, IsChildEntry), ChildURL)))
  {
    var lines := Map(es, Render);
    forall i | 0 <= i < |lines|
      ensures !Panics(lines[i])
    {
      RenderedLine(es[i]);
    }
    RenderedPages(es);
    RenderedChildren(es);
  }

  lemma {:induction false} RenderedPages(es: seq<Entry>)
    requires forall i | 0 <= i < |es| :: NL !in es[i].url
    ensures Map(Select(Map(es, Render), IsLoc), LocOf) == Map(Select(es, IsPage), PageURL)
    decreases |es|
  {
    if es != [] {
      var init, e := DropLast(es), Last(es);
      RenderSnoc(es);
      RenderedPages(init);
      RenderedLine(e);
      MapSelectSnoc(Map(init, Render), Render(e), IsLoc, LocOf);
      MapSelectSnoc(init, e, IsPage, PageURL);
    }
  }

  lemma {:induction false} RenderedChildren(es: seq<Entry>)
    requires forall i | 0 <= i < |es| :: NL !in es[i].url
    ensures Map(Select(Map(es, Render), IsChild), ChildOf) == Map(Select(es, IsChildEntry), ChildURL)
    decreases |es|
  {
    if es != [] {
      var init, e := DropLast(es), Last(es);
      RenderSnoc(es);
      RenderedChildren(init);
      RenderedLine(e);
      MapSelectSnoc(Map(init, Render), Render(e), IsChild, ChildOf);
      MapSelectSnoc(init, e, IsChildEntry, ChildURL);
    }
  }

  /** Rendering all entries but the last, then the last one. */
  lemma RenderSnoc(es: seq<Entry>)
    requires es != [] && forall i | 0 <= i < |es| :: NL !in es[i].url
    ensures forall i | 0 <= i < |DropLast(es)| :: NL !in DropLast(es)[i].url
    ensures NL !in Last(es).url
    ensures es == DropLast(es) + [Last(es)]
    ensures Map(es, Render) == Map(DropLast(es), Render) + [Render(Last(es))]
  {
    MapAppend(DropLast(es), [Last(es)], Render);
  }

  /** A rendered entry is one complete line that scans back to its URL. */
  lemma RenderedLine(e: Entry)
    requires NL !in e.url
    ensures IsLine(Render(e)) && !Panics(Render(e))
    ensures IsLoc(Render(e)) <==> e.Page?
    ensures IsChild(Render(e)) <==> e.Child?
    ensures e.Page? ==> LocOf(Render(e)) == Location(e.url)
    ensures e.Child? ==> ChildOf(Render(e)) == e.url
  {
    match e
    case Page(u) => PageLine(u);
    case Child(u) => ChildLine(u);
  }

  lemma PageLine(u: Bytes)
    requires NL !in u
    ensures IsLine(Render(Page(u))) && !Panics(Render(Page(u)))
    ensures IsLoc(Render(Page(u))) && !IsChild(Render(Page(u)))
    ensures LocOf(Render(Page(u))) == Location(u)
  {
    var body := LocOpen() + u + LocClose();
    TagLine(LocOpen(), u, LocClose());
    assert body[..|LocOpen()|] == LocOpen();
    assert body[|LocOpen()|..|body| - |LocClose()|] == u;
    LocIsNoChild(Render(Page(u)));
  }

  lemma ChildLine(u: Bytes)
    requires NL !in u
    ensures IsLine(Render(Child(u))) && !Panics(Render(Child(u)))
    ensures IsChild(Render(Child(u))) && !IsLoc(Render(Child(u)))
    ensures ChildOf(Render(Child(u))) == u
  {
    var body := ChildOpen() + u + ChildClose();
    TagLine(ChildOpen(), u, ChildClose());
    assert body[..|ChildOpen()|] == ChildOpen();
    assert body[|ChildOpen()|..|body| - |ChildClose()|] == u;
    assert body[1] == 115 && LocOpen()[1] == 108;
  }

  /** A value between an opening and a closing tag, then a newline, is one
      complete line whose trimmed text is the tags and the value. */
  lemma TagLine(open: Bytes, u: Bytes, close: Bytes)
    requires |open| > 0 && open[0] == 60 && |close| > 0 && close[|close| - 1] == 62
    requires NL !in open && NL !in u && NL !in close
    ensures IsLine(open + u + close + [NL])
    ensures TrimSpace(open + u + close + [NL]) == open + u + close
  {
    var body := open + u + close;
    assert (body + [NL])[..|body|] == body;
    assert NL !in body by {
      forall i | 0 <= i < |body|
        ensures body[i] != NL
      {
        if i < |open| {
          assert body[i] == open[i];
        } else if i < |open| + |u| {
          assert body[i] == u[i - |open|];
        } else {
          assert body[i] == close[i - |open| - |u|];
        }
      }
    }
    TrimPadded(body, [NL]);
  }

  /** Only the length of the closing tag matters: any six final bytes are cut
      off, whatever they are. */
  lemma ClosingTagNotChecked(u: Bytes, c: Bytes)
    requires |c| == 6 && c[5] == 62 && NL !in u && NL !in c
    ensures IsLoc(LocOpen() + u + c + [NL]) && !Panics(LocOpen() + u + c + [NL])
    ensures LocOf(LocOpen() + u + c + [NL]) == Location(u)
  {
    var body := LocOpen() + u + c;
    TagLine(LocOpen(), u, c);
    assert body[..|LocOpen()|] == LocOpen();
    assert body[|LocOpen()|..|body| - 6] == u;
    LocIsNoChild(body + [NL]);
  }

  /** A location line with nothing after the opening tag is out of range for
      the slice, and the whole scan fails. */
  lemma ShortLocationFails()
    ensures Scan([LocOpen() + [NL]]).Err?
  {
    var line := LocOpen() + [NL];
    var t := TrimSpace(line);
    TrimPadded(LocOpen(), [NL]);
    assert t == LocOpen();
    assert t[..|LocOpen()|] == LocOpen();
    assert IsLoc(line) && |t| < 11;
    assert Panics([line][0]);
  }
}
