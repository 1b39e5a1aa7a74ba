/** Sequence helpers used to state what a scan collects: the elements that pass a
    test, the first and the last such element, and flattening. */
module Seqs {
  import opened Wrappers

  function Last<T>(s: seq<T>): T
    requires |s| > 0
  {
    s[|s| - 1]
  }

  function DropLast<T>(s: seq<T>): seq<T>
    requires |s| > 0
  {
    s[..|s| - 1]
  }

  /** The elements of `s` that satisfy `f`, in their order in `s`. */
  function Select<T>(s: seq<T>, f: T -> bool): seq<T>
    decreases |s|
  {
    if s == [] then [] else Select(DropLast(s), f) + (if f(Last(s)) then [Last(s)] else [])
  }

  lemma {:induction false} SelectAppend<T>(a: seq<T>, b: seq<T>, f: T -> bool)
    ensures Select(a + b, f) == Select(a, f) + Select(b, f)
    decreases |b|
  {
    if b == [] {
      assert a + b == a;
    } else {
      assert DropLast(a + b) == a + DropLast(b);
      assert Last(a + b) == Last(b);
      SelectAppend(a, DropLast(b), f);
    }
  }

  lemma SelectCons<T>(s: seq<T>, f: T -> bool)
    requires s != []
    ensures Select(s, f) == (if f(s[0]) then [s[0]] else []) + Select(s[1..], f)
  {
    assert s == [s[0]] + s[1..];
    SelectAppend([s[0]], s[1..], f);
    assert DropLast([s[0]]) == [];
  }

  lemma {:induction false} SelectMembers<T>(s: seq<T>, f: T -> bool)
    ensures forall x :: x in Select(s, f) <==> x in s && f(x)
    decreases |s|
  {
    if s != [] {
      SelectMembers(DropLast(s), f);
      assert s == DropLast(s) + [Last(s)];
    }
  }

  /** The first element of `s` that satisfies `f`. */
  function FirstWhere<T>(s: seq<T>, f: T -> bool): (r: Option<T>)
    ensures r.None? <==> forall i | 0 <= i < |s| :: !f(s[i])
    ensures r.Some? ==> exists i | 0 <= i < |s| :: s[i] == r.value && f(s[i]) && forall j | 0 <= j < i :: !f(s[j])
    decreases |s|
  {
    if s == [] then None
    else if f(s[0]) then Some(s[0])
    else
      var r := FirstWhere(s[1..], f);
      assert forall i | 1 <= i < |s| :: s[i] == s[1..][i - 1];
      r
  }

  /** The last element of `s` that satisfies `f`. */
  function LastWhere<T>(s: seq<T>, f: T -> bool): (r: Option<T>)
    ensures r.None? <==> forall i | 0 <= i < |s| :: !f(s[i])
    decreases |s|
  {
    if s == [] then None
    else if f(Last(s)) then Some(Last(s))
    else
      var r := LastWhere(DropLast(s), f);
      assert forall i | 0 <= i < |s| - 1 :: s[i] == DropLast(s)[i];
      r
  }

  /** The element LastWhere finds satisfies `f` and no later one does. */
  lemma {:induction false} LastWhereIsLast<T>(s: seq<T>, f: T -> bool)
    ensures LastWhere(s, f).Some? ==>
      exists i | 0 <= i < |s| :: s[i] == LastWhere(s, f).value && f(s[i]) && forall j | i < j < |s| :: !f(s[j])
    decreases |s|
  {
    if s != [] && !f(Last(s)) {
      LastWhereIsLast(DropLast(s), f);
      if LastWhere(s, f).Some? {
        var i :| 0 <= i < |s| - 1 && DropLast(s)[i] == LastWhere(s, f).value && f(DropLast(s)[i])
          && forall j | i < j < |s| - 1 :: !f(DropLast(s)[j]);
        assert s[i] == DropLast(s)[i];
        assert forall j | i < j < |s| :: !f(s[j]) by {
          forall j | i < j < |s|
            ensures !f(s[j])
          {
            if j < |s| - 1 {
              assert s[j] == DropLast(s)[j];
            }
          }
        }
      }
    } else if s != [] {
      assert s[|s| - 1] == Last(s);
    }
  }

  /** `f` applied to every element of `s`. */
  function Map<T, U>(s: seq<T>, f: T -> U): (r: seq<U>)
    ensures |r| == |s|
    ensures forall i | 0 <= i < |s| :: r[i] == f(s[i])
  {
    seq(|s|, i requires 0 <= i < |s| => f(s[i]))
  }

  lemma MapAppend<T, U>(a: seq<T>, b: seq<T>, f: T -> U)
    ensures Map(a + b, f) == Map(a, f) + Map(b, f)
  {
    assert forall i | 0 <= i < |a + b| :: Map(a + b, f)[i] == (Map(a, f) + Map(b, f))[i];
  }

  /** Selecting and mapping one more element. */
  lemma MapSelectSnoc<T, U>(s: seq<T>, x: T, f: T -> bool, g: T -> U)
    ensures Map(Select(s + [x], f), g) == Map(Select(s, f), g) + (if f(x) then [g(x)] else [])
  {
    assert DropLast(s + [x]) == s && Last(s + [x]) == x;
    MapAppend(Select(s, f), if f(x) then [x] else [], g);
  }

  /** Two predicates that no element satisfies together select at most
      `|s|` elements between them. */
  lemma {:induction false} SelectDisjoint<T>(s: seq<T>, f: T -> bool, g: T -> bool)
    requires forall x | x in s :: !(f(x) && g(x))
    ensures |Select(s, f)| + |Select(s, g)| <= |s|
    decreases |s|
  {
    if s != [] {
      assert forall x | x in DropLast(s) :: x in s;
      assert Last(s) in s;
      SelectDisjoint(DropLast(s), f, g);
    }
  }

  /** Cutting `m` elements from the front and `n` from the back of a slice
      is a slice of the whole. */
  lemma SliceOfSlice<T>(s: seq<T>, a: nat, b: nat, m: nat, n: nat)
    requires a <= b <= |s| && m + n <= b - a
    ensures s[a..b][m..b - a - n] == s[a + m..b - n]
  {
    var t := s[a..b];
    var u := t[m..|t| - n];
    var v := s[a + m..b - n];
    assert |u| == |v|;
    forall k | 0 <= k < |u|
      ensures u[k] == v[k]
    {
      assert u[k] == t[m + k] == s[a + m + k];
    }
  }

  /** Every element of `s` satisfies `f`, stated one element at a time. */
  predicate AllOf<T>(s: seq<T>, f: T -> bool)
    decreases |s|
  {
    s == [] || (AllOf(DropLast(s), f) && f(Last(s)))
  }

  lemma AllOfStep<T>(s: seq<T>, k: nat, f: T -> bool)
    requires k < |s| && AllOf(s[..k], f) && f(s[k])
    ensures AllOf(s[..k + 1], f)
  {
    assert DropLast(s[..k + 1]) == s[..k];
  }

  lemma {:induction false} AllOfMeans<T>(s: seq<T>, f: T -> bool)
    ensures AllOf(s, f) <==> forall k | 0 <= k < |s| :: f(s[k])
    decreases |s|
  {
    if s != [] {
      AllOfMeans(DropLast(s), f);
      assert forall k | 0 <= k < |s| - 1 :: DropLast(s)[k] == s[k];
    }
  }

  /** No element occurs twice in `s`. */
  predicate Distinct<T(==)>(s: seq<T>)
  {
    forall i, j | 0 <= i < j < |s| :: s[i] != s[j]
  }

  /** Two sequences without repeats and without a common element concatenate
      to one without repeats. */
  lemma DistinctAppend<T>(a: seq<T>, b: seq<T>)
    requires Distinct(a) && Distinct(b)
    requires forall x | x in a :: x !in b
    ensures Distinct(a + b)
  {
    forall i, j | 0 <= i < j < |a + b|
      ensures (a + b)[i] != (a + b)[j]
    {
      if i < |a| && |a| <= j {
        assert (a + b)[i] in a && (a + b)[j] == b[j - |a|];
      }
    }
  }

  /** A non-empty sequence is its front followed by its last element. */
  lemma DropLastSplit<T>(s: seq<T>)
    requires s != []
    ensures s == DropLast(s) + [Last(s)]
  {
  }

  lemma EmptyPrefix<T>(s: seq<T>)
    ensures [] + s == s
  {
  }

  /** Appending the next element when it passes to a sequence that ends with
      the selection so far gives the selection including that element. */
  lemma SelectGrows<T>(base: seq<T>, s: seq<T>, x: T, f: T -> bool)
    ensures (base + Select(s, f)) + (if f(x) then [x] else []) == base + Select(s + [x], f)
  {
    assert DropLast(s + [x]) == s && Last(s + [x]) == x;
  }

  /** The concatenation of the sequences in `ss`, in order. */
  function Concat<T>(ss: seq<seq<T>>): seq<T>
    decreases |ss|
  {
    if ss == [] then [] else ss[0] + Concat(ss[1..])
  }

  lemma ConcatCons<T>(x: seq<T>, xs: seq<seq<T>>)
    ensures Concat([x] + xs) == x + Concat(xs)
  {
    assert ([x] + xs)[1..] == xs;
  }

  /** Appending one more sequence appends its elements. */
  lemma {:induction false} ConcatSnoc<T>(ss: seq<seq<T>>, x: seq<T>)
    ensures Concat(ss + [x]) == Concat(ss) + x
    decreases |ss|
  {
    if ss == [] {
      assert [] + [x] == [x];
      ConcatCons(x, []);
    } else {
      assert ss + [x] == [ss[0]] + (ss[1..] + [x]);
      ConcatCons(ss[0], ss[1..] + [x]);
      ConcatSnoc(ss[1..], x);
      ConcatCons(ss[0], ss[1..]);
      assert ss == [ss[0]] + ss[1..];
    }
  }

  /** Mapping one more element and flattening appends its image. */
  lemma ConcatMapStep<T, U>(s: seq<T>, k: nat, f: T -> seq<U>)
    requires k < |s|
    ensures Concat(Map(s[..k + 1], f)) == Concat(Map(s[..k], f)) + f(s[k])
  {
    assert Map(s[..k + 1], f) == Map(s[..k], f) + [f(s[k])];
    ConcatSnoc(Map(s[..k], f), f(s[k]));
  }
}
