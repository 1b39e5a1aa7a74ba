/** The Stack Exchange dump reader: one post per row line of the dump, read
    from the attributes of the row, with the hand-written decimal parser for
    its numeric attributes and the row filter. */
module StackExchange {
  import opened Wrappers
  import opened Seqs
  import opened Bytes

  // ---------------------------------------------------------------------------
  // Decimal integers

  datatype IntError = SyntaxError

  const Minus: byte := 45
  const Plus: byte := 43
  const Zero: byte := 48

  /** The byte less '0', wrapping around as byte arithmetic does. */
  function DigitOf(b: byte): int
  {
    (b as int - Zero as int) % 256
  }

  /** A byte the parser accepts as a digit: its wrapped difference from '0'
      is at most 9. */
  predicate IsDigit(b: byte)
  {
    DigitOf(b) <= 9
  }

  predicate AllDigits(ds: Bytes)
  {
    forall i | 0 <= i < |ds| :: IsDigit(ds[i])
  }

  /** The decimal value of a sequence of digits; 0 for none. */
  function Digits(ds: Bytes): nat
    requires AllDigits(ds)
    decreases |ds|
  {
    if ds == [] then 0 else Digits(DropLast(ds)) * 10 + DigitOf(Last(ds))
  }

  /** The value of an optional '-' followed by digits; an empty input or any
      other byte is a syntax error. */
  function ParseInt(bs: Bytes): (r: Result<int, IntError>)
    ensures bs == [] ==> r == Err(SyntaxError)
    ensures r.Ok? && r.value < 0 ==> bs[0] == Minus
    ensures bs == [Minus] ==> r == Ok(0)
    ensures bs != [] && bs[0] != Minus && !AllDigits(bs) ==> r.Err?
  {
    if bs == [] then Err(SyntaxError)
    else
      var ds := if bs[0] == Minus then bs[1..] else bs;
      if !AllDigits(ds) then Err(SyntaxError)
      else if bs[0] == Minus then Ok(-(Digits(ds) as int))
      else Ok(Digits(ds) as int)
  }

  method ToInt(bs: Bytes) returns (r: Result<int, IntError>)
    ensures r == ParseInt(bs)
  {
    if |bs| == 0 {
      return Err(SyntaxError);
    }
    var ds := bs;
    if bs[0] == Minus {
      ds := bs[1..];
    }
    var n := 0;
    for i := 0 to |ds|
      invariant AllDigits(ds[..i]) && n == Digits(ds[..i])
    {
      var b := DigitOf(ds[i]);
      if b > 9 {
        assert !AllDigits(ds);
        return Err(SyntaxError);
      }
      assert DropLast(ds[..i + 1]) == ds[..i] && Last(ds[..i + 1]) == ds[i];
      n := n * 10 + b;
    }
    assert ds[..|ds|] == ds;
    if bs[0] == Minus {
      n := -n;
    }
    return Ok(n);
  }

  /** Exactly the ASCII digits pass: bytes below '0' wrap around to large
      values and fail. */
  lemma DigitsAreAscii(b: byte)
    ensures IsDigit(b) <==> Zero <= b <= Zero + 9
  {
  }

  /** A lone '-' parses as 0: there are no digits to reject. */
  lemma LoneMinus()
    ensures ParseInt([Minus]) == Ok(0)
  {
    assert [Minus][1..] == [];
  }

  /** A leading '+' is a syntax error. */
  lemma PlusRejected(ds: Bytes)
    ensures ParseInt([Plus] + ds) == Err(SyntaxError)
  {
    assert ([Plus] + ds)[0] == Plus && !IsDigit(Plus);
  }

  /** The digits of `k`, most significant first, without leading zeros. */
  function DecimalDigits(k: nat): (r: Bytes)
    ensures r != [] && AllDigits(r)
    decreases k
  {
    if k < 10 then [(Zero as int + k) as byte]
    else DecimalDigits(k / 10) + [(Zero as int + k % 10) as byte]
  }

  /** The decimal rendering of `n`, with '-' before a negative value. */
  function Decimal(n: int): Bytes
  {
    if n < 0 then [Minus] + DecimalDigits(-n) else DecimalDigits(n)
  }

  lemma {:induction false} DigitsOfDecimal(k: nat)
    ensures Digits(DecimalDigits(k)) == k
    decreases k
  {
    var r := DecimalDigits(k);
    if k >= 10 {
      DigitsOfDecimal(k / 10);
      assert DropLast(r) == DecimalDigits(k / 10);
    }
  }

  /** Parsing the decimal rendering of any integer gives it back. */
  lemma ParseDecimal(n: int)
    ensures ParseInt(Decimal(n)) == Ok(n)
  {
    if n < 0 {
      var ds := DecimalDigits(-n);
      DigitsOfDecimal(-n);
      assert ([Minus] + ds)[1..] == ds;
    } else {
      DigitsOfDecimal(n);
      assert DecimalDigits(n)[0] != Minus;
    }
  }

  // ---------------------------------------------------------------------------
  // Copies

  /** A new buffer with the same contents as `b`. */
  method Clone(b: array<byte>) returns (c: array<byte>)
    ensures fresh(c) && c[..] == b[..]
  {
    c := new byte[b.Length];
    forall i | 0 <= i < b.Length {
      c[i] := b[i];
    }
  }

  // ---------------------------------------------------------------------------
  // Posts and the filter

  /** The fields of a post that the row scanner sets; the others keep their
      zero values. */
  datatype Post = Post(
    ID: int,
    PostTypeID: int,
    AcceptedAnswerID: int,
    Score: int,
    ViewCount: int,
    Body: Bytes,
    Title: Bytes,
    Tags: seq<Bytes>,
    AnswerCount: int)

  const EmptyPost := Post(0, 0, 0, 0, 0, [], [], [], 0)

  /** Which rows to keep: a post type (0 for any), whether an accepted answer
      is required, and a minimum score.  The minimum answer count is never
      consulted. */
  datatype Filter = Filter(PostTypeID: int, HasAcceptedAnswer: bool, MinScore: int, MinAnwserCount: int)

  /** The bounds of the 64-bit `int` the program runs with. */
  const MaxInt: int := 0x7FFF_FFFF_FFFF_FFFF
  const MinInt: int := -0x8000_0000_0000_0000

  /** The default filter as written: its minimum score is the largest int. */
  function NewFilterAsWritten(): (f: Filter)
    ensures f.PostTypeID == 0 && !f.HasAcceptedAnswer && f.MinScore == MaxInt
  {
    Filter(0, false, MaxInt, 0)
  }

  /** The default filter with the smallest int as minimum score, so that it
      keeps every row. */
  function NewFilter(): (f: Filter)
    ensures f.PostTypeID == 0 && !f.HasAcceptedAnswer && f.MinScore == MinInt
  {
    Filter(0, false, MinInt, 0)
  }

  // ---------------------------------------------------------------------------
  // Rows

  function RowStart(): Bytes { Lit("  <row") }
  function IdLabel(): Bytes { Lit(" Id=") }
  function PostTypeIdLabel(): Bytes { Lit(" PostTypeId=") }
  function AcceptedAnswerIdLabel(): Bytes { Lit(" AcceptedAnswerId=") }
  function ScoreLabel(): Bytes { Lit(" Score=") }
  function ViewCountLabel(): Bytes { Lit(" ViewCount=") }
  function TagsLabel(): Bytes { Lit(" Tags=") }
  function AnswerCountLabel(): Bytes { Lit(" AnswerCount=") }
  function BodyLabel(): Bytes { Lit(" Body=") }
  function TitleLabel(): Bytes { Lit(" Title=") }

  /** The outcome of a row, or of one attribute of it: the post so far (for
      an attribute: scanning goes on), the row skipped by the filter, the
      whole scan stopped by a malformed number, or a slice out of range (in
      the program a run-time panic). */
  datatype Row = Keep(p: Post) | Skip | Stop(e: IntError) | Panic

  /** The numeric fields that take any value. */
  datatype Counter = IdField | AcceptedAnswerIdField | ViewCountField | AnswerCountField

  function Put(c: Counter, n: int, p: Post): Post
  {
    match c
    case IdField => p.(ID := n)
    case AcceptedAnswerIdField => p.(AcceptedAnswerID := n)
    case ViewCountField => p.(ViewCount := n)
    case AnswerCountField => p.(AnswerCount := n)
  }

  /** A numeric attribute: a malformed value stops the scan. */
  function Number(v: Bytes, c: Counter, p: Post): Row
  {
    match ParseInt(v)
    case Err(e) => Stop(e)
    case Ok(n) => Keep(Put(c, n, p))
  }

  /** The effect of the attribute named `key` with value `v` on the post `p`;
      unknown labels change nothing. */
  function Field(key: Bytes, v: Bytes, f: Filter, p: Post): (r: Row)
    ensures r.Keep? && Admits(f, p) ==> Admits(f, r.p)
  {
    if key == IdLabel() then Number(v, IdField, p)
    else if key == PostTypeIdLabel() then
      match ParseInt(v)
      case Err(e) => Stop(e)
      case Ok(n) => if f.PostTypeID != 0 && n != f.PostTypeID then Skip else Keep(p.(PostTypeID := n))
    else if key == AcceptedAnswerIdLabel() then Number(v, AcceptedAnswerIdField, p)
    else if key == ScoreLabel() then
      match ParseInt(v)
      case Err(e) => Stop(e)
      case Ok(n) => if n < f.MinScore then Skip else Keep(p.(Score := n))
    else if key == ViewCountLabel() then Number(v, ViewCountField, p)
    else if key == TagsLabel() then
      match SplitTags(v)
      case None => Panic
      case Some(ts) => Keep(p.(Tags := p.Tags + ts))
    else if key == AnswerCountLabel() then Number(v, AnswerCountField, p)
    else if key == BodyLabel() then Keep(p.(Body := v))
    else if key == TitleLabel() then Keep(p.(Title := v))
    else Keep(p)
  }

  /** The post once every attribute is read: skipped when an accepted answer
      is required and there is none. */
  function Finish(f: Filter, p: Post): Row
  {
    if f.HasAcceptedAnswer && p.AcceptedAnswerID == 0 then Skip else Keep(p)
  }

  /** Scanning the rest `l` of a row: the text before the next quote is a
      attribute name and the text up to the following quote its value; with no quote
      left the row is finished, and a name without a closing quote for its
      value is out of range.  A skip or a stop ends the row at once. */
  function Fields(l: Bytes, f: Filter, p: Post): (r: Row)
    ensures r.Keep? && Admits(f, p) ==> Admits(f, r.p)
    ensures r.Keep? && f.HasAcceptedAnswer ==> r.p.AcceptedAnswerID != 0
    decreases |l|
  {
    match IndexByte(l, Quote)
    case None => Finish(f, p)
    case Some(i) =>
      var l1 := l[i + 1..];
      match IndexByte(l1, Quote)
      case None => Panic
      case Some(j) =>
        match Field(l[..i], l1[..j], f, p)
        case Keep(p') => Fields(l1[j + 1..], f, p')
        case other => other
  }

  /** A row line: its first six bytes (the row opening) are dropped unread.
      Every post a row yields passes the filter: its post type and score are
      the wanted ones when the row carries them, and it has an accepted answer
      when one is required. */
  function RowOf(line: Bytes, f: Filter): (r: Row)
    ensures r.Keep? ==> Admits(f, r.p) && (f.HasAcceptedAnswer ==> r.p.AcceptedAnswerID != 0)
  {
    if |line| < |RowStart()| then Panic else Fields(line[|RowStart()|..], f, EmptyPost)
  }

  /** One attribute, numbers parsed with ToInt. */
  method ApplyField(key: Bytes, v: Bytes, f: Filter, p: Post) returns (r: Row)
    ensures r == Field(key, v, f, p)
  {
    if key == IdLabel() {
      var n := ToInt(v);
      if n.Err? { return Stop(n.error); }
      return Keep(p.(ID := n.value));
    } else if key == PostTypeIdLabel() {
      var n := ToInt(v);
      if n.Err? { return Stop(n.error); }
      if f.PostTypeID != 0 && n.value != f.PostTypeID { return Skip; }
      return Keep(p.(PostTypeID := n.value));
    } else if key == AcceptedAnswerIdLabel() {
      var n := ToInt(v);
      if n.Err? { return Stop(n.error); }
      return Keep(p.(AcceptedAnswerID := n.value));
    } else if key == ScoreLabel() {
      var n := ToInt(v);
      if n.Err? { return Stop(n.error); }
      if n.value < f.MinScore { return Skip; }
      return Keep(p.(Score := n.value));
    } else if key == ViewCountLabel() {
      var n := ToInt(v);
      if n.Err? { return Stop(n.error); }
      return Keep(p.(ViewCount := n.value));
    } else if key == TagsLabel() {
      var ts := SplitTags(v);
      if ts.None? { return Panic; }
      return Keep(p.(Tags := p.Tags + ts.value));
    } else if key == AnswerCountLabel() {
      var n := ToInt(v);
      if n.Err? { return Stop(n.error); }
      return Keep(p.(AnswerCount := n.value));
    } else if key == BodyLabel() {
      return Keep(p.(Body := v));
    } else if key == TitleLabel() {
      return Keep(p.(Title := v));
    }
    return Keep(p);
  }

  /** Scans one row line. */
  method ScanRow(line: Bytes, f: Filter) returns (r: Row)
    ensures r == RowOf(line, f)
  {
    if |line| < |RowStart()| {
      return Panic;
    }
    var l := line[|RowStart()|..];
    var p := EmptyPost;
    while true
      invariant Fields(l, f, p) == RowOf(line, f)
      decreases |l|
    {
      var i := IndexByte(l, Quote);
      if i.None? {
        break;
      }
      var s1 := l[..i.value];
      l := l[i.value + 1..];
      var j := IndexByte(l, Quote);
      if j.None? {
        return Panic;
      }
      var s2 := l[..j.value];
      l := l[j.value + 1..];
      var step := ApplyField(s1, s2, f, p);
      if !step.Keep? {
        return step;
      }
      p := step.p;
    }
    if f.HasAcceptedAnswer && p.AcceptedAnswerID == 0 {
      return Skip;
    }
    return Keep(p);
  }

  // ---------------------------------------------------------------------------
  // Tags

  const Amp: byte := 38
  const SmallL: byte := 108

  function TagSep(): Bytes { Lit("&gt;&lt;") }
  function TagOpen(): Bytes { Lit("&lt;") }
  function TagClose(): Bytes { Lit("&gt;") }

  /** The first position at which `sep` occurs in `s`. */
  function FindSep(s: Bytes, sep: Bytes): (r: Option<nat>)
    ensures r.Some? ==> r.value + |sep| <= |s| && s[r.value..r.value + |sep|] == sep
    decreases |s|
  {
    if |s| < |sep| then None
    else if s[..|sep|] == sep then Some(0)
    else
      match FindSep(s[1..], sep)
      case None => None
      case Some(k) =>
        assert s[1..][k..k + |sep|] == s[k + 1..k + 1 + |sep|];
        Some(k + 1)
  }

  /** The pieces of `s` around each occurrence of `sep`, left to right; `s`
      itself when there is none. */
  function Split(s: Bytes, sep: Bytes): (r: seq<Bytes>)
    requires sep != []
    ensures |r| >= 1
    decreases |s|
  {
    match FindSep(s, sep)
    case None => [s]
    case Some(k) => [s[..k]] + Split(s[k + |sep|..], sep)
  }

  /** The first piece without the first 4 bytes; None when it is shorter. */
  function TrimFirst(ts: seq<Bytes>): (r: Option<seq<Bytes>>)
    requires ts != []
    ensures r.Some? ==> |r.value| == |ts|
  {
    if |ts[0]| < 4 then None else Some(ts[0 := ts[0][4..]])
  }

  /** The last piece without the last 4 bytes; None when it is shorter. */
  function TrimLast(ts: seq<Bytes>): (r: Option<seq<Bytes>>)
    requires ts != []
    ensures r.Some? ==> |r.value| == |ts|
  {
    var last := ts[|ts| - 1];
    if |last| < 4 then None else Some(ts[|ts| - 1 := last[..|last| - 4]])
  }

  /** The tags of a Tags value: split on "&gt;&lt;", then the first piece
      loses its first 4 bytes and the last piece (the same one when there
      is only one) its last 4; None when a piece is too short for that. */
  function SplitTags(v: Bytes): (r: Option<seq<Bytes>>)
    ensures r.Some? ==> |r.value| == |Split(v, TagSep())| >= 1
  {
    match TrimFirst(Split(v, TagSep()))
    case None => None
    case Some(ts) => TrimLast(ts)
  }

  lemma TagBytes()
    ensures TagOpen() == [Amp, SmallL, 116, 59]
    ensures TagClose() == [Amp, 103, 116, 59]
    ensures TagSep() == TagClose() + TagOpen()
  {
  }

  /** Every '&' of `x` is followed, inside `x`, by an 'l': no separator
      starts in `x`, whatever follows it. */
  predicate AmpThenL(x: Bytes)
  {
    forall k | 0 <= k < |x| && x[k] == Amp :: k + 1 < |x| && x[k + 1] == SmallL
  }

  /** No separator starts anywhere in `s`. */
  predicate NoSepStart(s: Bytes)
  {
    forall k | 0 <= k < |s| && s[k] == Amp :: (k + 1 < |s| && s[k + 1] == SmallL) || |s| < k + 8
  }

  lemma {:induction false} FindSepNone(s: Bytes)
    requires NoSepStart(s)
    ensures FindSep(s, TagSep()) == None
    decreases |s|
  {
    TagBytes();
    if |s| >= 8 {
      assert s[0] != Amp || s[1] != 103;
      assert s[..8][0] == s[0] && s[..8][1] == s[1];
      assert NoSepStart(s[1..]) by {
        forall k | 0 <= k < |s[1..]| && s[1..][k] == Amp
          ensures (k + 1 < |s[1..]| && s[1..][k + 1] == SmallL) || |s[1..]| < k + 8
        {
          assert s[k + 1] == Amp;
        }
      }
      FindSepNone(s[1..]);
    }
  }

  lemma {:induction false} FindSepAt(x: Bytes, y: Bytes)
    requires AmpThenL(x)
    ensures FindSep(x + TagSep() + y, TagSep()) == Some(|x|)
    decreases |x|
  {
    TagBytes();
    var s := x + TagSep() + y;
    if x == [] {
      assert s[..8] == TagSep();
    } else {
      assert s[0] == x[0];
      if x[0] == Amp {
        assert s[1] == x[1] == SmallL;
      }
      assert s[..8][0] == s[0] && s[..8][1] == s[1];
      assert AmpThenL(x[1..]) by {
        forall k | 0 <= k < |x[1..]| && x[1..][k] == Amp
          ensures k + 1 < |x[1..]| && x[1..][k + 1] == SmallL
        {
          assert x[k + 1] == Amp;
        }
      }
      assert s[..8] != TagSep();
      assert s[1..] == x[1..] + TagSep() + y;
      FindSepAt(x[1..], y);
      assert FindSep(s[1..], TagSep()) == Some(|x| - 1);
    }
  }

  /** No tag holds an '&'. */
  predicate Plain(ts: seq<Bytes>)
  {
    forall i, k | 0 <= i < |ts| && 0 <= k < |ts[i]| :: ts[i][k] != Amp
  }

  /** The tags joined by the separator and closed, without the opening. */
  function Joined(ts: seq<Bytes>): Bytes
    requires ts != []
  {
    if |ts| == 1 then ts[0] + TagClose() else ts[0] + TagSep() + Joined(ts[1..])
  }

  /** The Tags value of a list of tags, "&lt;a&gt;&lt;b&gt;" for [a, b]. */
  function RenderTags(ts: seq<Bytes>): Bytes
    requires ts != []
  {
    TagOpen() + Joined(ts)
  }

  /** The pieces `Joined(ts)` splits into: the tags, the last one still
      carrying the closing. */
  function Pieces(ts: seq<Bytes>): (r: seq<Bytes>)
    requires ts != []
    ensures |r| == |ts|
    ensures forall i | 0 <= i < |ts| - 1 :: r[i] == ts[i]
    ensures r[|ts| - 1] == ts[|ts| - 1] + TagClose()
  {
    if |ts| == 1 then [ts[0] + TagClose()] else [ts[0]] + Pieces(ts[1..])
  }

  lemma AmpThenLAppend(x: Bytes, t: Bytes)
    requires AmpThenL(x) && forall k | 0 <= k < |t| :: t[k] != Amp
    ensures AmpThenL(x + t)
  {
    forall k | 0 <= k < |x + t| && (x + t)[k] == Amp
      ensures k + 1 < |x + t| && (x + t)[k + 1] == SmallL
    {
    }
  }

  /** The last piece: no separator in it. */
  lemma SplitLast(x: Bytes)
    requires AmpThenL(x)
    ensures Split(x + TagClose(), TagSep()) == [x + TagClose()]
  {
    TagBytes();
    var s := x + TagClose();
    assert NoSepStart(s) by {
      forall k | 0 <= k < |s| && s[k] == Amp
        ensures (k + 1 < |s| && s[k + 1] == SmallL) || |s| < k + 8
      {
        if k < |x| {
          assert x[k] == Amp;
        }
      }
    }
    FindSepNone(s);
  }

  /** A piece followed by the separator. */
  lemma SplitCons(x: Bytes, y: Bytes)
    requires AmpThenL(x)
    ensures Split(x + TagSep() + y, TagSep()) == [x] + Split(y, TagSep())
  {
    TagBytes();
    FindSepAt(x, y);
    var s := x + TagSep() + y;
    assert s[..|x|] == x;
    assert s[|x| + 8..] == y;
  }

  lemma PlainTail(ts: seq<Bytes>)
    requires ts != [] && Plain(ts)
    ensures Plain(ts[1..])
    ensures forall k | 0 <= k < |ts[0]| :: ts[0][k] != Amp
  {
    forall i, k | 0 <= i < |ts[1..]| && 0 <= k < |ts[1..][i]|
      ensures ts[1..][i][k] != Amp
    {
      assert ts[1..][i] == ts[i + 1];
    }
  }

  lemma {:induction false} SplitJoined(x: Bytes, ts: seq<Bytes>)
    requires ts != [] && Plain(ts) && AmpThenL(x)
    ensures Split(x + Joined(ts), TagSep()) == [x + Pieces(ts)[0]] + Pieces(ts)[1..]
    decreases |ts|
  {
    PlainTail(ts);
    AmpThenLAppend(x, ts[0]);
    var p := Pieces(ts);
    if |ts| == 1 {
      assert x + Joined(ts) == (x + ts[0]) + TagClose();
      SplitLast(x + ts[0]);
      assert p == [ts[0] + TagClose()];
      assert x + p[0] == (x + ts[0]) + TagClose();
    } else {
      var rest := Joined(ts[1..]);
      var p' := Pieces(ts[1..]);
      assert x + Joined(ts) == (x + ts[0]) + TagSep() + rest;
      SplitCons(x + ts[0], rest);
      assert [] + rest == rest;
      SplitJoined([], ts[1..]);
      assert [] + p'[0] == p'[0];
      assert [p'[0]] + p'[1..] == p';
      assert p == [ts[0]] + p';
      assert [x + p[0]] + p[1..] == [x + ts[0]] + p';
    }
  }

  lemma OpenDropped(ps: seq<Bytes>, p: seq<Bytes>)
    requires p != [] && ps == [TagOpen() + p[0]] + p[1..]
    ensures TrimFirst(ps) == Some(p)
  {
    TagBytes();
    assert ps[0][4..] == p[0];
    assert ps[0 := p[0]] == p;
  }

  lemma CloseDropped(ts: seq<Bytes>)
    requires ts != []
    ensures TrimLast(Pieces(ts)) == Some(ts)
  {
    TagBytes();
    var p := Pieces(ts);
    var last := p[|p| - 1];
    assert last[..|last| - 4] == ts[|ts| - 1];
    assert p[|p| - 1 := ts[|ts| - 1]] == ts;
  }

  /** Splitting the rendering of plain tags gives them back. */
  lemma TagsRoundTrip(ts: seq<Bytes>)
    requires ts != [] && Plain(ts)
    ensures SplitTags(RenderTags(ts)) == Some(ts)
  {
    TagBytes();
    assert AmpThenL(TagOpen());
    SplitJoined(TagOpen(), ts);
    OpenDropped(Split(RenderTags(ts), TagSep()), Pieces(ts));
    CloseDropped(ts);
  }

  // ---------------------------------------------------------------------------
  // What a row keeps

  /** What the filter lets through, for the fields that were read: a post
      type other than the wanted one, or a score under the minimum, is never
      kept (zero is the value of a field the row does not carry). */
  predicate Admits(f: Filter, p: Post)
  {
    && (f.PostTypeID == 0 || p.PostTypeID == 0 || p.PostTypeID == f.PostTypeID)
    && (p.Score == 0 || p.Score >= f.MinScore)
  }

  /** A line with no quote after its first six bytes, such as the closing
      "</posts>" of a dump, yields a post with every field zero unless an
      accepted answer is required. */
  lemma NoAttributes(line: Bytes, f: Filter)
    requires |line| >= |RowStart()| && Quote !in line[|RowStart()|..]
    ensures RowOf(line, f) == (if f.HasAcceptedAnswer then Skip else Keep(EmptyPost))
  {
    IndexByteNone(line[|RowStart()|..], Quote);
  }

  lemma ClosingLine(f: Filter)
    ensures RowOf(Lit("</posts>") + [NL], f) == (if f.HasAcceptedAnswer then Skip else Keep(EmptyPost))
  {
    var line := Lit("</posts>") + [NL];
    assert line[|RowStart()|..] == [line[6], line[7], line[8]];
    NoAttributes(line, f);
  }

  // ---------------------------------------------------------------------------
  // Rows written from their attributes

  /** An attribute as it appears in a row: its name, with the leading space
      and the '=', and its value. */
  type Attr = (Bytes, Bytes)

  function RenderAttrs(as_: seq<Attr>): Bytes
  {
    if as_ == [] then [] else as_[0].0 + [Quote] + as_[0].1 + [Quote] + RenderAttrs(as_[1..])
  }

  predicate Unquoted(as_: seq<Attr>)
  {
    forall i | 0 <= i < |as_| :: Quote !in as_[i].0 && Quote !in as_[i].1
  }

  /** The attributes applied in order to `p`, the first skip or stop ending
      the row. */
  function Fold(as_: seq<Attr>, f: Filter, p: Post): Row
  {
    if as_ == [] then Finish(f, p)
    else
      match Field(as_[0].0, as_[0].1, f, p)
      case Keep(q) => Fold(as_[1..], f, q)
      case other => other
  }

  lemma OneAttr(name: Bytes, v: Bytes, rest: Bytes)
    requires Quote !in name && Quote !in v
    ensures var l := name + [Quote] + v + [Quote] + rest;
      && IndexByte(l, Quote) == Some(|name|)
      && l[..|name|] == name
      && IndexByte(l[|name| + 1..], Quote) == Some(|v|)
      && l[|name| + 1..][..|v|] == v
      && l[|name| + 1..][|v| + 1..] == rest
  {
    var l := name + [Quote] + v + [Quote] + rest;
    assert l[..|name|] == name;
    FirstIndex(l, Quote, |name|);
    var l1 := l[|name| + 1..];
    assert l1 == v + [Quote] + rest;
    assert l1[..|v|] == v;
    FirstIndex(l1, Quote, |v|);
  }

  /** Scanning one written attribute applies it, then goes on after it. */
  lemma FieldsStep(name: Bytes, v: Bytes, rest: Bytes, f: Filter, p: Post)
    requires Quote !in name && Quote !in v
    ensures Fields(name + [Quote] + v + [Quote] + rest, f, p) ==
      if Field(name, v, f, p).Keep? then Fields(rest, f, Field(name, v, f, p).p) else Field(name, v, f, p)
  {
    OneAttr(name, v, rest);
  }

  /** Scanning a written row reads back its attributes. */
  lemma {:induction false} FieldsOfRendered(as_: seq<Attr>, tail: Bytes, f: Filter, p: Post)
    requires Unquoted(as_) && Quote !in tail
    ensures Fields(RenderAttrs(as_) + tail, f, p) == Fold(as_, f, p)
    decreases |as_|
  {
    if as_ == [] {
      assert RenderAttrs(as_) + tail == tail;
      IndexByteNone(tail, Quote);
    } else {
      var rest := RenderAttrs(as_[1..]) + tail;
      assert RenderAttrs(as_) + tail == as_[0].0 + [Quote] + as_[0].1 + [Quote] + rest;
      FieldsStep(as_[0].0, as_[0].1, rest, f, p);
      assert Unquoted(as_[1..]) by {
        forall i | 0 <= i < |as_[1..]|
          ensures Quote !in as_[1..][i].0 && Quote !in as_[1..][i].1
        {
          assert as_[1..][i] == as_[i + 1];
        }
      }
      match Field(as_[0].0, as_[0].1, f, p)
      case Keep(q) => FieldsOfRendered(as_[1..], tail, f, q);
      case _ =>
    }
  }

  lemma RowOfRendered(as_: seq<Attr>, tail: Bytes, f: Filter)
    requires Unquoted(as_) && Quote !in tail
    ensures RowOf(RowStart() + RenderAttrs(as_) + tail, f) == Fold(as_, f, EmptyPost)
  {
    var line := RowStart() + RenderAttrs(as_) + tail;
    assert line[|RowStart()|..] == RenderAttrs(as_) + tail;
    FieldsOfRendered(as_, tail, f, EmptyPost);
  }

  lemma DecimalUnquoted(n: int)
    ensures Quote !in Decimal(n)
  {
    var ds := DecimalDigits(if n < 0 then -n else n);
    assert Quote !in ds by {
      forall k | 0 <= k < |ds|
        ensures ds[k] != Quote
      {
        assert IsDigit(ds[k]);
      }
    }
  }

  lemma LabelsDiffer()
    ensures ScoreLabel() != IdLabel() && ScoreLabel() != PostTypeIdLabel()
    ensures ScoreLabel() != AcceptedAnswerIdLabel()
    ensures Quote !in ScoreLabel()
  {
    assert ScoreLabel()[1] != PostTypeIdLabel()[1];
    assert forall k | 0 <= k < |ScoreLabel()| :: ScoreLabel()[k] != Quote;
  }

  /** A score attribute decides the row by the filter's minimum. */
  lemma ScoreDecides(n: int, f: Filter, p: Post)
    ensures Field(ScoreLabel(), Decimal(n), f, p) == if n < f.MinScore then Skip else Keep(p.(Score := n))
  {
    ParseDecimal(n);
    LabelsDiffer();
  }

  /** With the default filter as written, every row whose first attribute
      is a score below the largest int is skipped. */
  lemma DefaultSkipsScored(n: int, as_: seq<Attr>, tail: Bytes)
    requires n < MaxInt && Unquoted(as_) && Quote !in tail
    ensures RowOf(RowStart() + RenderAttrs([(ScoreLabel(), Decimal(n))] + as_) + tail, NewFilterAsWritten()) == Skip
  {
    var as' := [(ScoreLabel(), Decimal(n))] + as_;
    LabelsDiffer();
    DecimalUnquoted(n);
    assert Unquoted(as') by {
      forall i | 0 <= i < |as'|
        ensures Quote !in as'[i].0 && Quote !in as'[i].1
      {
        if i > 0 {
          assert as'[i] == as_[i - 1];
        }
      }
    }
    RowOfRendered(as', tail, NewFilterAsWritten());
    ScoreDecides(n, NewFilterAsWritten(), EmptyPost);
  }

  /** The default filter skips a row only on a score below the smallest
      int, which a 64-bit int cannot hold. */
  lemma DefaultKeepsInRange(key: Bytes, v: Bytes, p: Post)
    ensures Field(key, v, NewFilter(), p) == Skip ==> ParseInt(v).Ok? && ParseInt(v).value < MinInt
  {
  }

  /** With the corrected default, a score in range is kept. */
  lemma DefaultKeepsScored(n: int, tail: Bytes)
    requires MinInt <= n && Quote !in tail
    ensures RowOf(RowStart() + RenderAttrs([(ScoreLabel(), Decimal(n))]) + tail, NewFilter()) == Keep(EmptyPost.(Score := n))
  {
    var as' := [(ScoreLabel(), Decimal(n))];
    LabelsDiffer();
    DecimalUnquoted(n);
    RowOfRendered(as', tail, NewFilter());
    ScoreDecides(n, NewFilter(), EmptyPost);
    assert as'[1..] == [];
  }

  // ---------------------------------------------------------------------------
  // The dump

  /** How the scan of a dump ended: at the end of its complete lines, at a
      malformed number (the error is sent), or at a slice out of range. */
  datatype End = Done | Failed(e: IntError) | Panicked

  /** The row lines of a dump: its complete lines after the first two. */
  function Rows(text: Bytes): seq<Bytes>
  {
    var ls := CompleteLines(text);
    if |ls| < 2 then [] else ls[2..]
  }

  /** The posts sent for `rows`, in order, and how the scan ended: a
      skipped row sends nothing, the first stop or panic ends the scan. */
  function Stream(rows: seq<Bytes>, f: Filter): (r: (seq<Post>, End))
    ensures |r.0| <= |rows|
    decreases |rows|
  {
    if rows == [] then ([], Done)
    else
      match RowOf(rows[0], f)
      case Keep(p) => var rest := Stream(rows[1..], f); ([p] + rest.0, rest.1)
      case Skip => Stream(rows[1..], f)
      case Stop(e) => ([], Failed(e))
      case Panic => ([], Panicked)
  }

  /** Skips the first two lines of a dump, whatever they hold. */
  method SkipHeader(text: Bytes) returns (pos: nat)
    ensures pos <= |text| && Rows(text) == CompleteLines(text[pos..])
  {
    pos := 0;
    ghost var done: seq<Bytes> := [];
    ReadStart(text);
    var header, next := ReadLine(text, pos);
    if header.Some? {
      ReadNext(text, pos, done);
      done, pos := done + [header.value], next;
      header, next := ReadLine(text, pos);
      if header.Some? {
        ReadNext(text, pos, done);
        done, pos := done + [header.value], next;
      }
    }
    if |done| < 2 {
      ReadEnd(text, pos, done);
      NextLineEnd(text, pos);
    } else {
      assert CompleteLines(text)[2..] == CompleteLines(text[pos..]);
    }
  }

  /** Scans a dump: skips its first two lines, then reads row after row and
      collects the posts that pass the filter. */
  method Posts(text: Bytes, f: Filter) returns (posts: seq<Post>, end: End)
    ensures (posts, end) == Stream(Rows(text), f)
  {
    var pos := SkipHeader(text);
    var next;
    posts := [];
    assert [] + Stream(Rows(text), f).0 == Stream(Rows(text), f).0;
    while true
      invariant pos <= |text|
      invariant Stream(Rows(text), f) == After(posts, CompleteLines(text[pos..]), f)
      decreases |text| - pos
    {
      var line;
      line, next := ReadLine(text, pos);
      if line.None? {
        NextLineEnd(text, pos);
        AfterNil(posts, f);
        return posts, Done;
      }
      NextLineFirst(text, pos);
      AfterCons(posts, line.value, CompleteLines(text[next..]), f);
      var row := ScanRow(line.value, f);
      match row
      case Stop(e) =>
        return posts, Failed(e);
      case Panic =>
        return posts, Panicked;
      case Skip =>
        pos := next;
      case Keep(p) =>
        posts, pos := posts + [p], next;
    }
  }

  /** What scanning `rows` yields once `posts` are already collected. */
  function After(posts: seq<Post>, rows: seq<Bytes>, f: Filter): (seq<Post>, End)
  {
    (posts + Stream(rows, f).0, Stream(rows, f).1)
  }

  lemma AfterNil(posts: seq<Post>, f: Filter)
    ensures After(posts, [], f) == (posts, Done)
  {
    assert posts + [] == posts;
  }

  lemma AfterCons(posts: seq<Post>, line: Bytes, rest: seq<Bytes>, f: Filter)
    ensures After(posts, [line] + rest, f) ==
      match RowOf(line, f)
      case Keep(p) => After(posts + [p], rest, f)
      case Skip => After(posts, rest, f)
      case Stop(e) => (posts, Failed(e))
      case Panic => (posts, Panicked)
  {
    StreamCons(line, rest, f);
    match RowOf(line, f)
    case Keep(p) =>
      assert posts + ([p] + Stream(rest, f).0) == (posts + [p]) + Stream(rest, f).0;
    case Skip =>
    case Stop(e) =>
      assert posts + [] == posts;
    case Panic =>
      assert posts + [] == posts;
  }

  /** Scanning a first row, then the rest. */
  lemma StreamCons(line: Bytes, rest: seq<Bytes>, f: Filter)
    ensures Stream([line] + rest, f) ==
      match RowOf(line, f)
      case Keep(p) => ([p] + Stream(rest, f).0, Stream(rest, f).1)
      case Skip => Stream(rest, f)
      case Stop(e) => ([], Failed(e))
      case Panic => ([], Panicked)
  {
    assert ([line] + rest)[0] == line && ([line] + rest)[1..] == rest;
  }

  /** Scanning stops at the first failing row: what follows it adds
      nothing; after rows that all succeed, the scan goes on. */
  lemma {:induction false} StreamAppend(r1: seq<Bytes>, r2: seq<Bytes>, f: Filter)
    ensures var s1 := Stream(r1, f);
      Stream(r1 + r2, f) == if s1.1 == Done then (s1.0 + Stream(r2, f).0, Stream(r2, f).1) else s1
    decreases |r1|
  {
    if r1 == [] {
      assert r1 + r2 == r2;
      assert [] + Stream(r2, f).0 == Stream(r2, f).0;
    } else {
      assert r1 + r2 != [];
      assert (r1 + r2)[0] == r1[0] && (r1 + r2)[1..] == r1[1..] + r2;
      StreamAppend(r1[1..], r2, f);
      var s2 := Stream(r1[1..], f);
      if RowOf(r1[0], f).Keep? && s2.1 == Done {
        var p := RowOf(r1[0], f).p;
        assert [p] + (s2.0 + Stream(r2, f).0) == ([p] + s2.0) + Stream(r2, f).0;
      }
    }
  }

  /** A row that neither stops nor panics. */
  predicate Succeeds(f: Filter, line: Bytes)
  {
    RowOf(line, f).Keep? || RowOf(line, f).Skip?
  }

  function KeptPost(f: Filter): Bytes -> Post
  {
    line => if RowOf(line, f).Keep? then RowOf(line, f).p else EmptyPost
  }

  /** The scan ends cleanly exactly when every row succeeds. */
  lemma {:induction false} StreamDone(rows: seq<Bytes>, f: Filter)
    ensures Stream(rows, f).1 == Done <==> forall i | 0 <= i < |rows| :: Succeeds(f, rows[i])
    decreases |rows|
  {
    if rows != [] {
      var x, rest := rows[0], rows[1..];
      assert rows == [x] + rest;
      StreamCons(x, rest, f);
      StreamDone(rest, f);
      assert forall i | 1 <= i < |rows| :: rows[i] == rest[i - 1];
    }
  }

  /** When every row succeeds, the scan sends the posts of the kept rows, in
      order. */
  lemma {:induction false} StreamClean(rows: seq<Bytes>, f: Filter)
    requires forall i | 0 <= i < |rows| :: Succeeds(f, rows[i])
    ensures Stream(rows, f).0 == Map(Select(rows, line => RowOf(line, f).Keep?), KeptPost(f))
    decreases |rows|
  {
    var keep := line => RowOf(line, f).Keep?;
    if rows != [] {
      var x, rest := rows[0], rows[1..];
      assert rows == [x] + rest;
      assert Succeeds(f, x);
      assert forall i | 0 <= i < |rest| :: rest[i] == rows[i + 1];
      StreamCons(x, rest, f);
      StreamClean(rest, f);
      SelectCons(rows, keep);
      var head := if keep(x) then [x] else [];
      MapAppend(head, Select(rest, keep), KeptPost(f));
      if RowOf(x, f).Keep? {
        assert Map(head, KeptPost(f)) == [RowOf(x, f).p];
      } else {
        assert head == [];
      }
    }
  }

  /** Every post sent passes the filter. */
  lemma {:induction false} StreamAdmits(rows: seq<Bytes>, f: Filter)
    ensures forall p | p in Stream(rows, f).0 :: Admits(f, p) && (f.HasAcceptedAnswer ==> p.AcceptedAnswerID != 0)
    decreases |rows|
  {
    if rows != [] {
      StreamAdmits(rows[1..], f);
    }
  }
}
