/** robots.txt rules: the allow/disallow decision for an agent and a path,
    the crawl delay lookup, and the line-by-line directive parser. */
module Robots {
  import opened Wrappers
  import opened Seqs
  import opened Bytes

  /** The entries filed under `k`, none when `k` has no entry (a Go map read
      of a missing key gives the nil slice). */
  function Get(m: map<Bytes, seq<Bytes>>, k: Bytes): seq<Bytes>
  {
    if k in m then m[k] else []
  }

  function Star(): Bytes
  {
    Lit("*")
  }

  // ---------------------------------------------------------------------------
  // The decision, as a function of the rule lists

  /** The state of the disallow loop: the verdict so far and the disallowed
      path it rests on ("" when there is none). */
  datatype Phase = Phase(allowed: bool, dpath: Bytes)

  const Open := Phase(true, [])

  /** An entry that can take part in the decision: non-empty and a prefix of
      the path. */
  predicate Matches(path: Bytes, d: Bytes)
  {
    d != [] && HasPrefix(path, d)
  }

  /** One disallow entry: "" resets the verdict, a matching entry denies and
      keeps the shorter of itself and the path already recorded (the first
      when there is none), any other entry changes nothing. */
  function DisallowStep(p: Phase, path: Bytes, d: Bytes): Phase
  {
    if d == [] then Open
    else if HasPrefix(path, d) then
      Phase(false, if |d| < |p.dpath| || p.dpath == [] then d else p.dpath)
    else p
  }

  /** The disallow loop over `ds` from `p`: the path it ends on is the one it
      started from, none, or a matching entry; it ends allowing only where it
      started or after a reset, and denying only on a recorded path or where
      it started. */
  function DisallowFold(p: Phase, path: Bytes, ds: seq<Bytes>): (r: Phase)
    ensures r.dpath == p.dpath || r.dpath == [] || (r.dpath in ds && Matches(path, r.dpath))
    ensures r.allowed ==> r == p || r == Open
    ensures !r.allowed ==> r.dpath != [] || r == p
    decreases |ds|
  {
    if ds == [] then p
    else
      assert forall x | x in DropLast(ds) :: x in ds;
      DisallowStep(DisallowFold(p, path, DropLast(ds)), path, Last(ds))
  }

  /** One allow entry: a prefix of the path strictly longer than the
      disallowed path allows. */
  function AllowStep(allowed: bool, dpath: Bytes, path: Bytes, a: Bytes): bool
  {
    if HasPrefix(path, a) && |a| > |dpath| then true else allowed
  }

  /** The allow loop over `as_`: it never turns an allowing verdict into a
      denial, and it keeps a denial when no entry is a prefix of the path
      longer than the disallowed path. */
  function AllowFold(allowed: bool, dpath: Bytes, path: Bytes, as_: seq<Bytes>): (r: bool)
    ensures allowed ==> r
    ensures !r ==> forall a | a in as_ :: !(HasPrefix(path, a) && |a| > |dpath|)
    decreases |as_|
  {
    assert as_ != [] ==> forall a | a in DropLast(as_) :: a in as_;
    if as_ == [] then allowed else AllowStep(AllowFold(allowed, dpath, path, DropLast(as_)), dpath, path, Last(as_))
  }

  /** The verdict for `path` under the disallow entries `ds` and the allow
      entries `as_`. */
  function Decide(ds: seq<Bytes>, as_: seq<Bytes>, path: Bytes): (r: bool)
    ensures !r ==> exists d | d in ds :: Matches(path, d)
    ensures !r ==> forall a | a in as_ :: HasPrefix(path, a) ==> |a| <= |DisallowFold(Open, path, ds).dpath|
  {
    var p := DisallowFold(Open, path, ds);
    AllowFold(p.allowed, p.dpath, path, as_)
  }

  /** One more turn of the disallow loop. */
  lemma DisallowFoldNext(path: Bytes, ds: seq<Bytes>, i: nat)
    requires i < |ds|
    ensures DisallowFold(Open, path, ds[..i + 1]) == DisallowStep(DisallowFold(Open, path, ds[..i]), path, ds[i])
  {
    assert DropLast(ds[..i + 1]) == ds[..i];
  }

  /** One more turn of the allow loop. */
  lemma AllowFoldNext(p: Phase, path: Bytes, as_: seq<Bytes>, i: nat)
    requires i < |as_|
    ensures AllowFold(p.allowed, p.dpath, path, as_[..i + 1]) == AllowStep(AllowFold(p.allowed, p.dpath, path, as_[..i]), p.dpath, path, as_[i])
  {
    assert DropLast(as_[..i + 1]) == as_[..i];
  }

  // ---------------------------------------------------------------------------
  // The rules

  class Txt {
    var CrawlDelay: map<Bytes, int>
    var Allow: map<Bytes, seq<Bytes>>
    var Disallow: map<Bytes, seq<Bytes>>
    var Sitemaps: seq<Bytes>

    constructor ()
      ensures CrawlDelay == map[] && Allow == map[] && Disallow == map[] && Sitemaps == []
    {
      CrawlDelay, Allow, Disallow, Sitemaps := map[], map[], map[], [];
    }

    /** Whether agent `ua` may fetch `path`: the entries for every agent come
        before those for `ua`. */
    method Allowed(ua: Bytes, path: Bytes) returns (allowed: bool)
      ensures allowed == Decide(Get(Disallow, Star()) + Get(Disallow, ua), Get(Allow, Star()) + Get(Allow, ua), path)
    {
      allowed := true;
      var disallowedPath: Bytes := [];
      var ds := Get(Disallow, Star()) + Get(Disallow, ua);
      for i := 0 to |ds|
        invariant Phase(allowed, disallowedPath) == DisallowFold(Open, path, ds[..i])
      {
        DisallowFoldNext(path, ds, i);
        var d := ds[i];
        if d == [] {
          allowed := true;
          disallowedPath := [];
          continue;
        }
        if HasPrefix(path, d) {
          if |d| < |disallowedPath| || disallowedPath == [] {
            disallowedPath := d;
          }
          allowed := false;
        }
      }
      assert ds[..|ds|] == ds;
      ghost var p := Phase(allowed, disallowedPath);
      var as_ := Get(Allow, Star()) + Get(Allow, ua);
      for i := 0 to |as_|
        invariant allowed == AllowFold(p.allowed, p.dpath, path, as_[..i])
      {
        AllowFoldNext(p, path, as_, i);
        var a := as_[i];
        if HasPrefix(path, a) {
          if |a| > |disallowedPath| {
            allowed := true;
          }
        }
      }
      assert as_[..|as_|] == as_;
    }

    /** Seconds to wait between fetches from the host for agent `ua`: its own
        entry, else the entry for every agent, else 0. */
    function Delay(ua: Bytes): (d: int)
      reads this
      ensures ua in CrawlDelay ==> d == CrawlDelay[ua]
      ensures ua !in CrawlDelay && Star() in CrawlDelay ==> d == CrawlDelay[Star()]
      ensures ua !in CrawlDelay && Star() !in CrawlDelay ==> d == 0
    {
      if ua in CrawlDelay then CrawlDelay[ua]
      else if Star() in CrawlDelay then CrawlDelay[Star()]
      else 0
    }
  }

  // ---------------------------------------------------------------------------
  // Properties of the decision

  /** The disallow loop denies exactly when it has recorded a path. */
  lemma {:induction false} DeniedIffRecorded(path: Bytes, ds: seq<Bytes>)
    ensures !DisallowFold(Open, path, ds).allowed <==> DisallowFold(Open, path, ds).dpath != []
    decreases |ds|
  {
    if ds != [] {
      DeniedIffRecorded(path, DropLast(ds));
    }
  }

  /** With no matching disallow entry the path is allowed, whatever the allow
      entries. */
  lemma {:induction false} NoMatchAllowed(path: Bytes, ds: seq<Bytes>, as_: seq<Bytes>)
    requires forall i | 0 <= i < |ds| :: !Matches(path, ds[i])
    ensures DisallowFold(Open, path, ds) == Open
    ensures Decide(ds, as_, path)
  {
    NoMatchOpen(path, ds);
    AllowKeeps(Open.allowed, [], path, as_);
  }

  lemma {:induction false} NoMatchOpen(path: Bytes, ds: seq<Bytes>)
    requires forall i | 0 <= i < |ds| :: !Matches(path, ds[i])
    ensures DisallowFold(Open, path, ds) == Open
    decreases |ds|
  {
    if ds != [] {
      NoMatchOpen(path, DropLast(ds));
    }
  }

  /** Folding a concatenation is folding its second part from where the
      first left off. */
  lemma {:induction false} DisallowFoldAppend(p: Phase, path: Bytes, ds1: seq<Bytes>, ds2: seq<Bytes>)
    ensures DisallowFold(p, path, ds1 + ds2) == DisallowFold(DisallowFold(p, path, ds1), path, ds2)
    decreases |ds2|
  {
    if ds2 == [] {
      assert ds1 + ds2 == ds1;
    } else {
      assert DropLast(ds1 + ds2) == ds1 + DropLast(ds2);
      assert Last(ds1 + ds2) == Last(ds2);
      DisallowFoldAppend(p, path, ds1, DropLast(ds2));
    }
  }

  /** An empty disallow entry resets the decision: nothing before it counts. */
  lemma ResetByEmpty(path: Bytes, ds1: seq<Bytes>, ds2: seq<Bytes>)
    ensures DisallowFold(Open, path, ds1 + [[]] + ds2) == DisallowFold(Open, path, ds2)
  {
    DisallowFoldAppend(Open, path, ds1 + [[]], ds2);
    assert DropLast(ds1 + [[]]) == ds1;
  }

  /** Without an empty entry, the recorded path is a matching entry no longer
      than any other matching entry, and none when no entry matches.  (Two
      matching entries of the same length are both the first bytes of the path,
      so "the earliest of the shortest" names the same bytes.) */
  lemma {:induction false} ShortestMatch(path: Bytes, ds: seq<Bytes>)
    requires forall i | 0 <= i < |ds| :: ds[i] != []
    ensures DisallowFold(Open, path, ds).dpath == [] <==> forall i | 0 <= i < |ds| :: !Matches(path, ds[i])
    ensures DisallowFold(Open, path, ds).dpath != [] ==>
              DisallowFold(Open, path, ds).dpath in ds && Matches(path, DisallowFold(Open, path, ds).dpath)
    ensures forall j | 0 <= j < |ds| && Matches(path, ds[j]) :: |DisallowFold(Open, path, ds).dpath| <= |ds[j]|
    decreases |ds|
  {
    if ds != [] {
      var init, d := DropLast(ds), Last(ds);
      assert ds == init + [d];
      assert forall i | 0 <= i < |init| :: init[i] == ds[i];
      ShortestMatch(path, init);
      var q := DisallowFold(Open, path, init).dpath;
      var r := DisallowFold(Open, path, ds).dpath;
      assert r == if Matches(path, d) && (|d| < |q| || q == []) then d else q;
      assert forall j | 0 <= j < |ds| :: ds[j] == if j < |init| then init[j] else d;
    }
  }

  /** The allow loop only switches the verdict to true: its result is the
      disallow verdict or-ed with the existence of a matching allow entry
      longer than the disallowed path. */
  lemma {:induction false} AllowKeeps(allowed: bool, dpath: Bytes, path: Bytes, as_: seq<Bytes>)
    ensures AllowFold(allowed, dpath, path, as_) <==>
              allowed || exists i | 0 <= i < |as_| :: HasPrefix(path, as_[i]) && |as_[i]| > |dpath|
    decreases |as_|
  {
    if as_ != [] {
      AllowKeeps(allowed, dpath, path, DropLast(as_));
      assert forall i | 0 <= i < |as_| - 1 :: as_[i] == DropLast(as_)[i];
    }
  }

  /** An allow entry that is a prefix of the path and longer than every
      matching disallow entry wins. */
  lemma AllowWins(ds: seq<Bytes>, as_: seq<Bytes>, path: Bytes, i: nat)
    requires i < |as_| && HasPrefix(path, as_[i])
    requires forall j | 0 <= j < |ds| :: Matches(path, ds[j]) ==> |ds[j]| < |as_[i]|
    ensures Decide(ds, as_, path)
  {
    var p := DisallowFold(Open, path, ds);
    DeniedIffRecorded(path, ds);
    RecordedIsEntry(path, ds);
    AllowKeeps(p.allowed, p.dpath, path, as_);
    if p.dpath != [] {
      assert HasPrefix(path, as_[i]) && |as_[i]| > |p.dpath|;
    }
  }

  /** The recorded path is always one of the matching entries, or none. */
  lemma {:induction false} RecordedIsEntry(path: Bytes, ds: seq<Bytes>)
    ensures DisallowFold(Open, path, ds).dpath == [] ||
            exists k | 0 <= k < |ds| :: ds[k] == DisallowFold(Open, path, ds).dpath && Matches(path, ds[k])
    decreases |ds|
  {
    if ds != [] {
      RecordedIsEntry(path, DropLast(ds));
      assert forall i | 0 <= i < |ds| - 1 :: ds[i] == DropLast(ds)[i];
      if DisallowFold(Open, path, ds).dpath == Last(ds) && Last(ds) != [] {
        assert ds[|ds| - 1] == Last(ds);
      }
    }
  }

  // ---------------------------------------------------------------------------
  // Parsing

  function UserAgentKey(): Bytes { Lit("User-agent: ") }
  function DisallowKey(): Bytes { Lit("Disallow:") }
  function AllowKey(): Bytes { Lit("Allow: ") }
  function SitemapKey(): Bytes { Lit("Sitemap: ") }
  function CrawlDelayKey(): Bytes { Lit("Crawl-delay: ") }

  /** The parser's state: the current agent and the rules so far. */
  datatype Rules = Rules(
    ua: Bytes,
    crawlDelay: map<Bytes, int>,
    allow: map<Bytes, seq<Bytes>>,
    disallow: map<Bytes, seq<Bytes>>,
    sitemaps: seq<Bytes>)

  const Start := Rules([], map[], map[], map[], [])

  /** `v` appended to the entries filed under `k`. */
  function Append(m: map<Bytes, seq<Bytes>>, k: Bytes, v: Bytes): (r: map<Bytes, seq<Bytes>>)
    ensures Get(r, k) == Get(m, k) + [v]
    ensures forall k' | k' != k :: Get(r, k') == Get(m, k')
    ensures r.Keys == m.Keys + {k}
  {
    m[k := Get(m, k) + [v]]
  }

  /** The value of a Disallow line: one byte after the colon is skipped,
      whatever it is, and a bare "Disallow:" gives "". */
  function DisallowValue(l: Bytes): (v: Bytes)
    requires HasPrefix(l, DisallowKey())
    ensures |l| > |DisallowKey()| ==> v == l[|DisallowKey()| + 1..]
    ensures |l| <= |DisallowKey()| ==> v == []
  {
    if |l| > |DisallowKey()| then l[|DisallowKey()| + 1..] else []
  }

  /** The effect of one line, newline removed; the prefixes are tried in
      this order and a line matching none is skipped.  `atoi` is the decimal
      parser of crawl delays. */
  function Directive(st: Rules, l: Bytes, atoi: Bytes -> Option<int>): (r: Rules)
    ensures r.ua == st.ua || HasPrefix(l, UserAgentKey())
    ensures st.sitemaps <= r.sitemaps && |r.sitemaps| <= |st.sitemaps| + 1
    ensures forall k | k != st.ua :: Get(r.allow, k) == Get(st.allow, k) && Get(r.disallow, k) == Get(st.disallow, k)
    ensures forall k | k != st.ua && k in st.crawlDelay :: k in r.crawlDelay && r.crawlDelay[k] == st.crawlDelay[k]
    ensures (!HasPrefix(l, UserAgentKey()) && !HasPrefix(l, DisallowKey()) && !HasPrefix(l, AllowKey())
             && !HasPrefix(l, CrawlDelayKey()) && !HasPrefix(l, SitemapKey())) ==> r == st
  {
    if HasPrefix(l, UserAgentKey()) then st.(ua := l[|UserAgentKey()|..])
    else if HasPrefix(l, DisallowKey()) then st.(disallow := Append(st.disallow, st.ua, DisallowValue(l)))
    else if HasPrefix(l, AllowKey()) then st.(allow := Append(st.allow, st.ua, l[|AllowKey()|..]))
    else if HasPrefix(l, CrawlDelayKey()) then
      match atoi(l[|CrawlDelayKey()|..])
      case None => st
      case Some(i) => st.(crawlDelay := st.crawlDelay[st.ua := i])
    else if HasPrefix(l, SitemapKey()) then st.(sitemaps := st.sitemaps + [l[|SitemapKey()|..]])
    else st
  }

  /** Each field of the rules, after one line: only the first prefix the line
      has decides which field changes. */
  lemma DirectiveFields(st: Rules, l: Bytes, atoi: Bytes -> Option<int>)
    ensures Directive(st, l, atoi).ua == if HasPrefix(l, UserAgentKey()) then l[|UserAgentKey()|..] else st.ua
    ensures Directive(st, l, atoi).disallow ==
      if !HasPrefix(l, UserAgentKey()) && HasPrefix(l, DisallowKey()) then Append(st.disallow, st.ua, DisallowValue(l))
      else st.disallow
    ensures !HasPrefix(l, AllowKey()) ==> Directive(st, l, atoi).allow == st.allow
    ensures Directive(st, l, atoi).allow.Keys <= st.allow.Keys + {st.ua}
    ensures Directive(st, l, atoi).crawlDelay.Keys <= st.crawlDelay.Keys + {st.ua}
  {
  }

  /** A line as read, without its final byte (the newline). */
  function Strip(line: Bytes): Bytes
  {
    if line == [] then [] else line[..|line| - 1]
  }

  /** The rules read from the complete lines `lines`, in order. */
  function ParseLines(lines: seq<Bytes>, atoi: Bytes -> Option<int>): Rules
    decreases |lines|
  {
    if lines == [] then Start
    else Directive(ParseLines(DropLast(lines), atoi), Strip(Last(lines)), atoi)
  }

  /** The rules of a robots.txt file. */
  method Parse(text: Bytes, atoi: Bytes -> Option<int>) returns (txt: Txt)
    ensures fresh(txt)
    ensures var r := ParseLines(CompleteLines(text), atoi);
            && txt.CrawlDelay == r.crawlDelay && txt.Allow == r.allow
            && txt.Disallow == r.disallow && txt.Sitemaps == r.sitemaps
  {
    txt := new Txt();
    var ua: Bytes := [];
    var pos := 0;
    ghost var done: seq<Bytes> := [];
    ReadStart(text);
    while true
      invariant ReadSoFar(text, pos, done)
      invariant Rules(ua, txt.CrawlDelay, txt.Allow, txt.Disallow, txt.Sitemaps) == ParseLines(done, atoi)
      decreases |text| - pos
    {
      var line, next := ReadLine(text, pos);
      if line.None? {
        ReadEnd(text, pos, done);
        break;
      }
      ReadNext(text, pos, done);
      var l := Strip(line.value);
      if HasPrefix(l, UserAgentKey()) {
        ua := l[|UserAgentKey()|..];
      } else if HasPrefix(l, DisallowKey()) {
        var dis: Bytes := [];
        if |l| > |DisallowKey()| {
          dis := l[|DisallowKey()| + 1..];
        }
        txt.Disallow := txt.Disallow[ua := Get(txt.Disallow, ua) + [dis]];
      } else if HasPrefix(l, AllowKey()) {
        txt.Allow := txt.Allow[ua := Get(txt.Allow, ua) + [l[|AllowKey()|..]]];
      } else if HasPrefix(l, CrawlDelayKey()) {
        var i := atoi(l[|CrawlDelayKey()|..]);
        if i.Some? {
          txt.CrawlDelay := txt.CrawlDelay[ua := i.value];
        }
      } else if HasPrefix(l, SitemapKey()) {
        txt.Sitemaps := txt.Sitemaps + [l[|SitemapKey()|..]];
      }
      assert DropLast(done + [line.value]) == done && Last(done + [line.value]) == line.value;
      done := done + [line.value];
      pos := next;
    }
  }

  // ---------------------------------------------------------------------------
  // Properties of parsing

  predicate IsAgentLine(line: Bytes)
  {
    HasPrefix(Strip(line), UserAgentKey())
  }

  predicate IsSitemapLine(line: Bytes)
  {
    HasPrefix(Strip(line), SitemapKey())
  }

  predicate IsDisallowLine(line: Bytes)
  {
    HasPrefix(Strip(line), DisallowKey())
  }

  function SitemapOf(line: Bytes): Bytes
  {
    if IsSitemapLine(line) then Strip(line)[|SitemapKey()|..] else []
  }

  function DisallowOf(line: Bytes): Bytes
  {
    if IsDisallowLine(line) then DisallowValue(Strip(line)) else []
  }

  function AgentOf(line: Bytes): Bytes
  {
    if IsAgentLine(line) then Strip(line)[|UserAgentKey()|..] else []
  }

  /** The five directive prefixes start with different bytes, so a line has
      at most one of them. */
  lemma SitemapIsNoOther(l: Bytes)
    requires HasPrefix(l, SitemapKey())
    ensures !HasPrefix(l, UserAgentKey()) && !HasPrefix(l, DisallowKey())
    ensures !HasPrefix(l, AllowKey()) && !HasPrefix(l, CrawlDelayKey())
  {
    assert l[0] == SitemapKey()[0];
    assert SitemapKey()[0] == 83;
  }

  lemma DisallowIsNoAgent(l: Bytes)
    requires HasPrefix(l, DisallowKey())
    ensures !HasPrefix(l, UserAgentKey())
  {
    assert l[0] == DisallowKey()[0];
    assert DisallowKey()[0] == 68;
  }

  /** Sitemap lines are collected in file order, whatever agent is current. */
  lemma {:induction false} SitemapsInOrder(lines: seq<Bytes>, atoi: Bytes -> Option<int>)
    ensures ParseLines(lines, atoi).sitemaps == Map(Select(lines, IsSitemapLine), SitemapOf)
    decreases |lines|
  {
    if lines != [] {
      var init, line := DropLast(lines), Last(lines);
      SitemapsInOrder(init, atoi);
      MapAppend(Select(init, IsSitemapLine), if IsSitemapLine(line) then [line] else [], SitemapOf);
      if IsSitemapLine(line) {
        SitemapIsNoOther(Strip(line));
      }
    }
  }

  /** The current agent is the one named by the last User-agent line, and ""
      before any. */
  lemma {:induction false} CurrentAgent(lines: seq<Bytes>, atoi: Bytes -> Option<int>)
    ensures ParseLines(lines, atoi).ua == match LastWhere(lines, IsAgentLine)
                                         case None => []
                                         case Some(l) => AgentOf(l)
    decreases |lines|
  {
    if lines != [] {
      CurrentAgent(DropLast(lines), atoi);
      DirectiveFields(ParseLines(DropLast(lines), atoi), Strip(Last(lines)), atoi);
    }
  }

  /** Until the first User-agent line the current agent stays "" ... */
  lemma {:induction false} AgentBeforeAny(lines: seq<Bytes>, atoi: Bytes -> Option<int>)
    requires forall i | 0 <= i < |lines| :: !IsAgentLine(lines[i])
    ensures ParseLines(lines, atoi).ua == []
    decreases |lines|
  {
    if lines != [] {
      assert forall i | 0 <= i < |lines| - 1 :: DropLast(lines)[i] == lines[i];
      assert !IsAgentLine(lines[|lines| - 1]);
      AgentBeforeAny(DropLast(lines), atoi);
    }
  }

  /** ... so every Disallow line is filed under "", in file order ... */
  lemma {:induction false} DisallowBeforeAny(lines: seq<Bytes>, atoi: Bytes -> Option<int>)
    requires forall i | 0 <= i < |lines| :: !IsAgentLine(lines[i])
    ensures Get(ParseLines(lines, atoi).disallow, []) == Map(Select(lines, IsDisallowLine), DisallowOf)
    ensures ParseLines(lines, atoi).disallow.Keys <= {[]}
    decreases |lines|
  {
    if lines != [] {
      var init, line := DropLast(lines), Last(lines);
      assert forall i | 0 <= i < |init| :: init[i] == lines[i];
      assert !IsAgentLine(lines[|lines| - 1]);
      AgentBeforeAny(init, atoi);
      DisallowBeforeAny(init, atoi);
      DirectiveFields(ParseLines(init, atoi), Strip(line), atoi);
      MapAppend(Select(init, IsDisallowLine), if IsDisallowLine(line) then [line] else [], DisallowOf);
    }
  }

  /** ... and no agent other than "" gets Allow or Crawl-delay rules. */
  lemma {:induction false} RulesBeforeAny(lines: seq<Bytes>, atoi: Bytes -> Option<int>)
    requires forall i | 0 <= i < |lines| :: !IsAgentLine(lines[i])
    ensures ParseLines(lines, atoi).allow.Keys <= {[]}
    ensures ParseLines(lines, atoi).crawlDelay.Keys <= {[]}
    decreases |lines|
  {
    if lines != [] {
      var init := DropLast(lines);
      assert forall i | 0 <= i < |init| :: init[i] == lines[i];
      assert !IsAgentLine(lines[|lines| - 1]);
      AgentBeforeAny(init, atoi);
      RulesBeforeAny(init, atoi);
      DirectiveFields(ParseLines(init, atoi), Strip(lines[|lines| - 1]), atoi);
    }
  }

  /** "Disallow:/private" disallows "private", not "/private": the byte
      after the colon is skipped even when it is not a space. */
  lemma DisallowSkipsOneByte(st: Rules, atoi: Bytes -> Option<int>)
    ensures Get(Directive(st, Lit("Disallow:/private"), atoi).disallow, st.ua) == Get(st.disallow, st.ua) + [Lit("private")]
  {
    var l := Lit("Disallow:/private");
    assert l[..|DisallowKey()|] == DisallowKey();
    DisallowIsNoAgent(l);
    assert l[|DisallowKey()| + 1..] == Lit("private");
  }

  /** A Crawl-delay whose value does not parse changes nothing. */
  lemma BadDelayIgnored(st: Rules, l: Bytes, atoi: Bytes -> Option<int>)
    requires HasPrefix(l, CrawlDelayKey()) && atoi(l[|CrawlDelayKey()|..]).None?
    ensures Directive(st, l, atoi) == st
  {
    assert l[0] == CrawlDelayKey()[0];
    assert CrawlDelayKey()[0] == 67;
  }

  predicate IsDelayLine(line: Bytes)
  {
    HasPrefix(Strip(line), CrawlDelayKey())
  }

  /** The text after "Crawl-delay: " on a Crawl-delay line. */
  function DelayText(line: Bytes): Bytes
    requires IsDelayLine(line)
  {
    Strip(line)[|CrawlDelayKey()|..]
  }

  /** The agent current after `lines`: the one the last User-agent line names,
      "" before any. */
  function AgentAfter(lines: seq<Bytes>): Bytes
  {
    match LastWhere(lines, IsAgentLine)
    case None => []
    case Some(l) => AgentOf(l)
  }

  /** Line `i` sets a crawl delay for agent `k`: a Crawl-delay line whose value
      `atoi` accepts, read while `k` is the current agent. */
  predicate DelayFor(lines: seq<Bytes>, i: int, atoi: Bytes -> Option<int>, k: Bytes)
    requires 0 <= i < |lines|
  {
    IsDelayLine(lines[i]) && atoi(DelayText(lines[i])).Some? && AgentAfter(lines[..i]) == k
  }

  /** Some line sets a crawl delay for `k`. */
  predicate HasDelay(lines: seq<Bytes>, atoi: Bytes -> Option<int>, k: Bytes)
  {
    exists i | 0 <= i < |lines| :: DelayFor(lines, i, atoi, k)
  }

  /** `d` is the value of the last line that sets a crawl delay for `k`. */
  predicate LastDelayIs(lines: seq<Bytes>, atoi: Bytes -> Option<int>, k: Bytes, d: int)
  {
    exists i | 0 <= i < |lines| ::
      && DelayFor(lines, i, atoi, k)
      && d == atoi(DelayText(lines[i])).value
      && forall j | i < j < |lines| :: !DelayFor(lines, j, atoi, k)
  }

  /** A line changes the crawl delays only when it is a Crawl-delay line with
      a value that parses, and then only for the current agent. */
  lemma DelayDirective(st: Rules, l: Bytes, atoi: Bytes -> Option<int>)
    ensures Directive(st, l, atoi).crawlDelay ==
      if HasPrefix(l, CrawlDelayKey()) && atoi(l[|CrawlDelayKey()|..]).Some?
      then st.crawlDelay[st.ua := atoi(l[|CrawlDelayKey()|..]).value]
      else st.crawlDelay
  {
    if HasPrefix(l, CrawlDelayKey()) {
      assert l[0] == CrawlDelayKey()[0];
      assert CrawlDelayKey()[0] == 67;
    }
  }

  /** Reading one more line: the crawl delays change only when it sets one,
      and then for the agent current before it. */
  lemma DelayStep(lines: seq<Bytes>, atoi: Bytes -> Option<int>)
    requires lines != []
    ensures var init, line := DropLast(lines), Last(lines);
      ParseLines(lines, atoi).crawlDelay ==
        if IsDelayLine(line) && atoi(DelayText(line)).Some?
        then ParseLines(init, atoi).crawlDelay[AgentAfter(init) := atoi(DelayText(line)).value]
        else ParseLines(init, atoi).crawlDelay
  {
    CurrentAgent(DropLast(lines), atoi);
    DelayDirective(ParseLines(DropLast(lines), atoi), Strip(Last(lines)), atoi);
  }

  /** Dropping the last line keeps whether an earlier line sets a delay for `k`. */
  lemma DelayForInit(lines: seq<Bytes>, atoi: Bytes -> Option<int>, k: Bytes)
    requires lines != []
    ensures forall i | 0 <= i < |lines| - 1 :: DelayFor(lines, i, atoi, k) == DelayFor(DropLast(lines), i, atoi, k)
    ensures DelayFor(lines, |lines| - 1, atoi, k) <==>
      IsDelayLine(Last(lines)) && atoi(DelayText(Last(lines))).Some? && AgentAfter(DropLast(lines)) == k
  {
    forall i | 0 <= i < |lines| - 1
      ensures DelayFor(lines, i, atoi, k) == DelayFor(DropLast(lines), i, atoi, k)
    {
      assert lines[..i] == DropLast(lines)[..i];
    }
    assert lines[..|lines| - 1] == DropLast(lines);
  }

  /** The next line sets the delay of `k`: it is now the last such line. */
  lemma DelaysSnocSet(lines: seq<Bytes>, atoi: Bytes -> Option<int>, k: Bytes, before: map<Bytes, int>, after: map<Bytes, int>)
    requires lines != [] && DelayFor(lines, |lines| - 1, atoi, k)
    requires after == before[k := atoi(DelayText(Last(lines))).value]
    ensures k in after && HasDelay(lines, atoi, k)
    ensures LastDelayIs(lines, atoi, k, after[k])
  {
    assert lines[|lines| - 1] == Last(lines);
  }

  /** The next line does not set the delay of `k`: what was known about it
      still holds. */
  lemma DelaysSnocKeep(lines: seq<Bytes>, atoi: Bytes -> Option<int>, k: Bytes, before: map<Bytes, int>, after: map<Bytes, int>)
    requires lines != [] && !DelayFor(lines, |lines| - 1, atoi, k)
    requires k in before <==> HasDelay(DropLast(lines), atoi, k)
    requires k in before ==> LastDelayIs(DropLast(lines), atoi, k, before[k])
    requires k in after <==> k in before
    requires k in after ==> after[k] == before[k]
    ensures k in after <==> HasDelay(lines, atoi, k)
    ensures k in after ==> LastDelayIs(lines, atoi, k, after[k])
  {
    var init := DropLast(lines);
    var n := |init|;
    DelayForInit(lines, atoi, k);
    assert forall j | 0 <= j < |lines| :: DelayFor(lines, j, atoi, k) ==> j < n && DelayFor(init, j, atoi, k);
    assert forall j | 0 <= j < n :: DelayFor(init, j, atoi, k) ==> DelayFor(lines, j, atoi, k);
    if k in before {
      var i :| 0 <= i < n && DelayFor(init, i, atoi, k) && before[k] == atoi(DelayText(init[i])).value
               && forall j | i < j < n :: !DelayFor(init, j, atoi, k);
      assert init[i] == lines[i];
      assert forall j | i < j < |lines| :: !DelayFor(lines, j, atoi, k);
    }
  }

  /** The characterisation of the delays survives reading one more line. */
  lemma DelaysSnoc(lines: seq<Bytes>, atoi: Bytes -> Option<int>, k: Bytes, before: map<Bytes, int>, after: map<Bytes, int>)
    requires lines != []
    requires k in before <==> HasDelay(DropLast(lines), atoi, k)
    requires k in before ==> LastDelayIs(DropLast(lines), atoi, k, before[k])
    requires after == if IsDelayLine(Last(lines)) && atoi(DelayText(Last(lines))).Some?
                      then before[AgentAfter(DropLast(lines)) := atoi(DelayText(Last(lines))).value]
                      else before
    ensures k in after <==> HasDelay(lines, atoi, k)
    ensures k in after ==> LastDelayIs(lines, atoi, k, after[k])
  {
    DelayForInit(lines, atoi, k);
    if DelayFor(lines, |lines| - 1, atoi, k) {
      DelaysSnocSet(lines, atoi, k, before, after);
    } else {
      DelaysSnocKeep(lines, atoi, k, before, after);
    }
  }

  /** The crawl delays read from `lines`: an agent has one exactly when some
      Crawl-delay line with a value that parses is read while it is the
      current agent, and the value is that of the last such line. */
  lemma {:induction false} DelaysFromLines(lines: seq<Bytes>, atoi: Bytes -> Option<int>, k: Bytes)
    ensures k in ParseLines(lines, atoi).crawlDelay <==> HasDelay(lines, atoi, k)
    ensures k in ParseLines(lines, atoi).crawlDelay ==> LastDelayIs(lines, atoi, k, ParseLines(lines, atoi).crawlDelay[k])
    decreases |lines|
  {
    if lines != [] {
      DelaysFromLines(DropLast(lines), atoi, k);
      DelayStep(lines, atoi);
      DelaysSnoc(lines, atoi, k, ParseLines(DropLast(lines), atoi).crawlDelay, ParseLines(lines, atoi).crawlDelay);
    }
  }

  /** The delay for `ua` of a parsed file is the value of the last Crawl-delay
      line read under `ua`; failing that, under "*"; failing that, 0. */
  lemma DelayOfParse(txt: Txt, text: Bytes, atoi: Bytes -> Option<int>, ua: Bytes)
    requires txt.CrawlDelay == ParseLines(CompleteLines(text), atoi).crawlDelay
    ensures var lines := CompleteLines(text);
      && (HasDelay(lines, atoi, ua) ==> LastDelayIs(lines, atoi, ua, txt.Delay(ua)))
      && (!HasDelay(lines, atoi, ua) && HasDelay(lines, atoi, Star()) ==> LastDelayIs(lines, atoi, Star(), txt.Delay(ua)))
      && (!HasDelay(lines, atoi, ua) && !HasDelay(lines, atoi, Star()) ==> txt.Delay(ua) == 0)
  {
    DelaysFromLines(CompleteLines(text), atoi, ua);
    DelaysFromLines(CompleteLines(text), atoi, Star());
  }

  /** A final line without a newline is never read: appending one to a file
      of complete lines changes no rule. */
  lemma TailIgnored(lines: seq<Bytes>, tail: Bytes, atoi: Bytes -> Option<int>)
    requires forall i | 0 <= i < |lines| :: IsLine(lines[i])
    requires NL !in tail
    ensures ParseLines(CompleteLines(Concat(lines) + tail), atoi) == ParseLines(CompleteLines(Concat(lines)), atoi)
  {
    LinesOfConcat(lines, tail);
    LinesOfConcat(lines, []);
    assert Concat(lines) + [] == Concat(lines);
  }
}
