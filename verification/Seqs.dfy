/** Filtering and mapping a sequence, and sequences without repetitions. */
module Seqs {
  function Filter<T>(s: seq<T>, p: T -> bool): seq<T> {
    if s == [] then [] else Filter(s[..|s| - 1], p) + if p(s[|s| - 1]) then [s[|s| - 1]] else []
  }

  lemma {:induction false} FilterMembers<T>(s: seq<T>, p: T -> bool)
    ensures forall x :: x in Filter(s, p) <==> x in s && p(x)
  {
    if s != [] {
      FilterMembers(s[..|s| - 1], p);
      assert s == s[..|s| - 1] + [s[|s| - 1]];
    }
  }

  /** Distributes over concatenation. */
  lemma {:induction false} FilterConcat<T>(a: seq<T>, b: seq<T>, p: T -> bool)
    ensures Filter(a + b, p) == Filter(a, p) + Filter(b, p)
  {
    if b == [] {
      assert a + b == a;
    } else {
      FilterConcat(a, b[..|b| - 1], p);
      assert (a + b)[..|a + b| - 1] == a + b[..|b| - 1];
    }
  }

  lemma {:induction false} FilterAll<T>(s: seq<T>, p: T -> bool)
    requires forall x | x in s :: p(x)
    ensures Filter(s, p) == s
  {
    if s != [] {
      FilterAll(s[..|s| - 1], p);
      assert s == s[..|s| - 1] + [s[|s| - 1]];
    }
  }

  lemma {:induction false} FilterNone<T>(s: seq<T>, p: T -> bool)
    requires forall x | x in s :: !p(x)
    ensures Filter(s, p) == []
  {
    if s != [] {
      FilterNone(s[..|s| - 1], p);
    }
  }

  /** Two filters that agree on the elements give the same result. */
  lemma {:induction false} FilterSame<T>(s: seq<T>, p: T -> bool, q: T -> bool)
    requires forall x | x in s :: p(x) == q(x)
    ensures Filter(s, p) == Filter(s, q)
  {
    if s != [] {
      FilterSame(s[..|s| - 1], p, q);
    }
  }

  /** What passes keeps its number of occurrences. */
  lemma {:induction false} FilterCounts<T>(s: seq<T>, p: T -> bool, x: T)
    ensures multiset(Filter(s, p))[x] == if p(x) then multiset(s)[x] else 0
  {
    if s != [] {
      var rest, last := s[..|s| - 1], s[|s| - 1];
      FilterCounts(rest, p, x);
      assert s == rest + [last];
    }
  }

  /** Splitting by a condition keeps every occurrence. */
  lemma {:induction false} FilterSplit<T>(s: seq<T>, p: T -> bool, q: T -> bool)
    requires forall i | 0 <= i < |s| :: q(s[i]) == !p(s[i])
    ensures multiset(Filter(s, p)) + multiset(Filter(s, q)) == multiset(s)
  {
    if s != [] {
      var rest, last := s[..|s| - 1], s[|s| - 1];
      FilterSplit(rest, p, q);
      Snoc(Filter(rest, p), last);
      Snoc(Filter(rest, q), last);
      Snoc(rest, last);
      assert s == rest + [last];
    }
  }

  lemma FilterStep<T>(s: seq<T>, k: nat, p: T -> bool)
    requires k < |s|
    ensures Filter(s[..k + 1], p) == Filter(s[..k], p) + if p(s[k]) then [s[k]] else []
  {
    assert s[..k + 1][..k] == s[..k];
  }

  lemma Snoc<T>(a: seq<T>, x: T)
    ensures multiset(a + [x]) == multiset(a) + multiset{x} && a + [] == a
  {}

  function Map<S, T>(s: seq<S>, f: S -> T): (r: seq<T>)
    ensures |r| == |s| && forall i | 0 <= i < |s| :: r[i] == f(s[i])
    ensures forall y | y in r :: exists x | x in s :: f(x) == y
    ensures forall x | x in s :: f(x) in r
  {
    var r := seq(|s|, i requires 0 <= i < |s| => f(s[i]));
    assert forall i | 0 <= i < |s| :: s[i] in s && r[i] == f(s[i]);
    r
  }

  lemma MapConcat<S, T>(a: seq<S>, b: seq<S>, f: S -> T)
    ensures Map(a + b, f) == Map(a, f) + Map(b, f)
  {}

  lemma MapStep<S, T>(s: seq<S>, k: nat, f: S -> T)
    requires k < |s|
    ensures Map(s[..k + 1], f) == Map(s[..k], f) + [f(s[k])]
  {}

  ghost predicate Distinct<T>(s: seq<T>) {
    forall i, j | 0 <= i < j < |s| :: s[i] != s[j]
  }

  function Elements<T>(s: seq<T>): set<T> {
    set x | x in s
  }

  lemma DistinctSnoc<T>(s: seq<T>, x: T)
    ensures Distinct(s + [x]) <==> Distinct(s) && x !in s
  {
    var r := s + [x];
    assert r[|s|] == x && forall i | 0 <= i < |s| :: r[i] == s[i];
  }

  ghost predicate OnceEach<T>(s: seq<T>) {
    forall x | x in s :: multiset(s)[x] == 1
  }

  lemma {:induction false} DistinctMeansOnce<T>(s: seq<T>)
    ensures Distinct(s) <==> OnceEach(s)
  {
    if s != [] {
      var rest, x := s[..|s| - 1], s[|s| - 1];
      assert s == rest + [x];
      DistinctMeansOnce(rest);
      DistinctSnoc(rest, x);
      assert forall y :: multiset(s)[y] == multiset(rest)[y] + if y == x then 1 else 0;
      if x in rest {
        assert multiset(rest)[x] >= 1;
      } else {
        assert multiset(rest)[x] == 0;
      }
    }
  }

  /** A list without repetitions holds the same as its set of elements. */
  lemma DistinctIsSet<T>(s: seq<T>)
    ensures multiset(s) == multiset(Elements(s)) <==> Distinct(s)
  {
    DistinctMeansOnce(s);
    forall x ensures multiset(Elements(s))[x] == if x in s then 1 else 0 {}
    forall x ensures x in s <==> multiset(s)[x] >= 1 {
      assert x in s <==> x in multiset(s);
    }
    if OnceEach(s) {
      forall x ensures multiset(s)[x] == multiset(Elements(s))[x] {
        assert x in s ==> multiset(s)[x] == 1;
      }
    }
  }
}
