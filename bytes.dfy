/** Byte strings and the reading of newline-terminated lines.

    The robots, sitemap and dump scanners read their input with a buffered
    reader that hands out one line at a time, newline included, and reports
    end of input for a final line that has no newline: such a tail is never
    processed.  Here the whole input is a byte sequence and `ReadLine` is that
    reader. */
module Bytes {
  import opened Wrappers
  import opened Seqs

  newtype byte = b: int | 0 <= b < 256

  type Bytes = seq<byte>

  const NL: byte := 10
  const Quote: byte := 34

  /** The bytes of an ASCII literal (every literal of the scanners is ASCII,
      so each character is one byte). */
  function Lit(s: string): (r: Bytes)
    ensures |r| == |s|
    ensures forall i | 0 <= i < |s| :: r[i] as int == s[i] as int % 256
  {
    seq(|s|, i requires 0 <= i < |s| => (s[i] as int % 256) as byte)
  }

  predicate HasPrefix(s: Bytes, p: Bytes)
  {
    |p| <= |s| && s[..|p|] == p
  }

  /** The index of the first `b` in `s`. */
  function IndexByte(s: Bytes, b: byte): (r: Option<nat>)
    ensures r.Some? ==> r.value < |s| && s[r.value] == b
    decreases |s|
  {
    if s == [] then None
    else if s[0] == b then Some(0)
    else
      match IndexByte(s[1..], b)
      case None => None
      case Some(i) => Some(i + 1)
  }

  /** The search fails exactly when there is no `b`. */
  lemma {:induction false} IndexByteNone(s: Bytes, b: byte)
    ensures IndexByte(s, b).None? <==> b !in s
    decreases |s|
  {
    if s != [] && s[0] != b {
      IndexByteNone(s[1..], b);
      assert s == [s[0]] + s[1..];
    }
  }

  /** No `b` comes before the index found. */
  lemma {:induction false} IndexByteFirst(s: Bytes, b: byte)
    requires IndexByte(s, b).Some?
    ensures b !in s[..IndexByte(s, b).value]
    decreases |s|
  {
    if s[0] != b {
      var i := IndexByte(s[1..], b).value;
      IndexByteFirst(s[1..], b);
      assert s[1..][..i] == s[1..i + 1];
      assert s[..i + 1] == [s[0]] + s[1..i + 1];
    }
  }

  // ---------------------------------------------------------------------------
  // Lines

  /** A line as the reader returns it: ending in its newline, with no other. */
  predicate IsLine(l: Bytes)
  {
    |l| > 0 && l[|l| - 1] == NL && NL !in l[..|l| - 1]
  }

  /** The newline-terminated lines of `text`, in order; a final tail without
      a newline is not among them. */
  function CompleteLines(text: Bytes): seq<Bytes>
    decreases |text|
  {
    match IndexByte(text, NL)
    case None => []
    case Some(i) => [text[..i + 1]] + CompleteLines(text[i + 1..])
  }

  /** Every complete line ends in its newline and holds no other. */
  lemma {:induction false} CompleteLinesAreLines(text: Bytes)
    ensures forall i | 0 <= i < |CompleteLines(text)| :: IsLine(CompleteLines(text)[i])
    decreases |text|
  {
    match IndexByte(text, NL)
    case None =>
    case Some(i) =>
      IndexByteFirst(text, NL);
      CompleteLinesAreLines(text[i + 1..]);
      var l := text[..i + 1];
      assert l[..|l| - 1] == text[..i];
  }

  /** The first line is everything up to and including the first newline. */
  lemma LinesStep(text: Bytes, i: nat)
    requires i < |text| && text[i] == NL && NL !in text[..i]
    ensures CompleteLines(text) == [text[..i + 1]] + CompleteLines(text[i + 1..])
    ensures Tail(text) == Tail(text[i + 1..])
  {
    FirstIndex(text, NL, i);
  }

  /** The bytes after the last newline of `text`. */
  function Tail(text: Bytes): (t: Bytes)
    decreases |text|
  {
    match IndexByte(text, NL)
    case None => text
    case Some(i) => Tail(text[i + 1..])
  }

  /** Splitting newline-terminated lines followed by a newline-free tail gives
      back exactly those lines. */
  lemma {:induction false} LinesOfConcat(ls: seq<Bytes>, tail: Bytes)
    requires forall i | 0 <= i < |ls| :: IsLine(ls[i])
    requires NL !in tail
    ensures CompleteLines(Concat(ls) + tail) == ls
    ensures Tail(Concat(ls) + tail) == tail
    decreases |ls|
  {
    if ls == [] {
      assert Concat(ls) + tail == tail;
    } else {
      var l := ls[0];
      ConcatCons(l, ls[1..]);
      assert ls == [l] + ls[1..];
      var text := Concat(ls) + tail;
      assert text == l + (Concat(ls[1..]) + tail);
      assert text[..|l|] == l;
      assert text[..|l| - 1] == l[..|l| - 1];
      FirstIndex(text, NL, |l| - 1);
      assert text[|l|..] == Concat(ls[1..]) + tail;
      LinesOfConcat(ls[1..], tail);
    }
  }

  /** The line the buffered reader hands out at offset `pos`, newline
      included, with the offset after it; None at end of input, that is when
      no newline remains. */
  function NextLine(text: Bytes, pos: nat): (Option<Bytes>, nat)
    requires pos <= |text|
  {
    match IndexByte(text[pos..], NL)
    case None => (None, pos)
    case Some(i) => (Some(text[pos..pos + i + 1]), pos + i + 1)
  }

  /** Reading lines one at a time yields exactly the complete lines: end of
      input comes exactly when none is left ... */
  lemma NextLineEnd(text: Bytes, pos: nat)
    requires pos <= |text|
    ensures NextLine(text, pos).0.None? <==> CompleteLines(text[pos..]) == []
  {
  }

  /** ... and otherwise the line read is the first of them and reading goes on
      after it. */
  lemma NextLineFirst(text: Bytes, pos: nat)
    requires pos <= |text| && NextLine(text, pos).0.Some?
    ensures pos < NextLine(text, pos).1 <= |text|
    ensures CompleteLines(text[pos..]) == [NextLine(text, pos).0.value] + CompleteLines(text[NextLine(text, pos).1..])
  {
    var rest := text[pos..];
    var i := IndexByte(rest, NL).value;
    var line, next := rest[..i + 1], pos + i + 1;
    assert NextLine(text, pos) == (Some(line), next) by {
      assert rest[..i + 1] == text[pos..pos + i + 1];
    }
    assert CompleteLines(rest) == [line] + CompleteLines(rest[i + 1..]);
    assert rest[i + 1..] == text[next..];
  }

  /** One read of the buffered reader. */
  method ReadLine(text: Bytes, pos: nat) returns (line: Option<Bytes>, next: nat)
    requires pos <= |text|
    ensures (line, next) == NextLine(text, pos)
  {
    var k := pos;
    while k < |text| && text[k] != NL
      invariant pos <= k <= |text|
      invariant NL !in text[pos..k]
    {
      assert text[pos..k + 1] == text[pos..k] + [text[k]];
      k := k + 1;
    }
    if k == |text| {
      assert text[pos..k] == text[pos..];
      line, next := None, pos;
    } else {
      assert text[pos..][..k - pos] == text[pos..k];
      FirstIndex(text[pos..], NL, k - pos);
      line, next := Some(text[pos..k + 1]), k + 1;
    }
  }

  /** A loop of reads from the start of `text` that has reached `pos` has
      consumed the complete lines `done`. */
  predicate ReadSoFar(text: Bytes, pos: nat, done: seq<Bytes>)
  {
    pos <= |text| && CompleteLines(text) == done + CompleteLines(text[pos..])
  }

  lemma ReadStart(text: Bytes)
    ensures ReadSoFar(text, 0, [])
  {
    assert text[0..] == text;
  }

  lemma ReadNext(text: Bytes, pos: nat, done: seq<Bytes>)
    requires ReadSoFar(text, pos, done) && NextLine(text, pos).0.Some?
    ensures pos < NextLine(text, pos).1
    ensures ReadSoFar(text, NextLine(text, pos).1, done + [NextLine(text, pos).0.value])
  {
    NextLineFirst(text, pos);
  }

  /** When the reader reports end of input every complete line has been read;
      an unterminated tail is never handed out. */
  lemma ReadEnd(text: Bytes, pos: nat, done: seq<Bytes>)
    requires ReadSoFar(text, pos, done) && NextLine(text, pos).0.None?
    ensures CompleteLines(text) == done
  {
    NextLineEnd(text, pos);
  }

  lemma FirstIndex(s: Bytes, b: byte, k: nat)
    requires k < |s| && s[k] == b && b !in s[..k]
    ensures IndexByte(s, b) == Some(k)
  {
    IndexByteNone(s, b);
    IndexByteFirst(s, b);
  }

  // ---------------------------------------------------------------------------
  // White space

  /** ASCII white space: tab, newline, vertical tab, form feed, carriage
      return and space. */
  predicate IsSpace(b: byte)
  {
    b == 9 || b == 10 || b == 11 || b == 12 || b == 13 || b == 32
  }

  function TrimLeft(s: Bytes): Bytes
    decreases |s|
  {
    if s != [] && IsSpace(s[0]) then TrimLeft(s[1..]) else s
  }

  function TrimRight(s: Bytes): Bytes
    decreases |s|
  {
    if s != [] && IsSpace(s[|s| - 1]) then TrimRight(s[..|s| - 1]) else s
  }

  /** TrimLeft drops the leading white space and nothing else. */
  lemma {:induction false} TrimLeftDrops(s: Bytes)
    ensures |TrimLeft(s)| <= |s| && TrimLeft(s) == s[|s| - |TrimLeft(s)|..]
    ensures TrimLeft(s) == [] || !IsSpace(TrimLeft(s)[0])
    ensures forall i | 0 <= i < |s| - |TrimLeft(s)| :: IsSpace(s[i])
    decreases |s|
  {
    if s != [] && IsSpace(s[0]) {
      TrimLeftDrops(s[1..]);
    }
  }

  /** TrimRight drops the trailing white space and nothing else. */
  lemma {:induction false} TrimRightDrops(s: Bytes)
    ensures |TrimRight(s)| <= |s| && TrimRight(s) == s[..|TrimRight(s)|]
    ensures TrimRight(s) == [] || !IsSpace(TrimRight(s)[|TrimRight(s)| - 1])
    ensures forall i | |TrimRight(s)| <= i < |s| :: IsSpace(s[i])
    decreases |s|
  {
    if s != [] && IsSpace(s[|s| - 1]) {
      TrimRightDrops(s[..|s| - 1]);
    }
  }

  /** `s` without its leading and trailing white space. */
  function TrimSpace(s: Bytes): Bytes
  {
    TrimRight(TrimLeft(s))
  }

  /** TrimSpace removes exactly the white space at both ends: what remains is
      a slice of `s` that neither starts nor ends with white space, and every
      byte cut off is white space. */
  lemma TrimSpaceSlice(s: Bytes)
    ensures exists i, j | 0 <= i <= j <= |s| ::
              && TrimSpace(s) == s[i..j]
              && (forall k | 0 <= k < i :: IsSpace(s[k]))
              && (forall k | j <= k < |s| :: IsSpace(s[k]))
    ensures TrimSpace(s) == [] || (!IsSpace(TrimSpace(s)[0]) && !IsSpace(TrimSpace(s)[|TrimSpace(s)| - 1]))
  {
    var l := TrimLeft(s);
    TrimLeftDrops(s);
    var i := |s| - |l|;
    var m := TrimRight(l);
    TrimRightDrops(l);
    var j := i + |m|;
    assert l == s[i..];
    assert m == l[..|m|];
    assert s[i..][..|m|] == s[i..j];
    assert TrimSpace(s) == s[i..j];
    assert forall k | j <= k < |s| :: s[k] == l[k - i];
    if m != [] {
      assert m[0] == l[0];
    }
  }

  /** Text that neither starts nor ends with white space, followed by white
      space, trims to itself. */
  lemma {:induction false} TrimPadded(x: Bytes, pad: Bytes)
    requires x != [] && !IsSpace(x[0]) && !IsSpace(x[|x| - 1])
    requires forall k | 0 <= k < |pad| :: IsSpace(pad[k])
    ensures TrimSpace(x + pad) == x
    decreases |pad|
  {
    assert TrimLeft(x + pad) == x + pad;
    if pad != [] {
      assert (x + pad)[..|x + pad| - 1] == x + pad[..|pad| - 1];
      TrimPadded(x, pad[..|pad| - 1]);
    } else {
      assert x + pad == x;
    }
  }
}
