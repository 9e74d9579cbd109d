/**
 * The array operations the workout code is written with (`filter`, `map`,
 * `find`, `some`), as functions on sequences, with the facts about them that
 * the rest of the model relies on.
 *
 * Predicates are passed as function values. Callers build them with named
 * functions (never with a lambda written at the call site), so that the same
 * predicate term appears in a definition and in the lemmas about it.
 */
module Seqs {
  import opened Wrappers

  /** `s.some(p)`: some element satisfies `p`, exactly when `s.find(p)` finds one. */
  predicate Any<T>(s: seq<T>, p: T -> bool): (r: bool)
    ensures r <==> Find(s, p).Some?
  {
    exists k :: 0 <= k < |s| && p(s[k])
  }

  /** `s.filter(p)`: the elements that satisfy `p`, in their original order. */
  function Filter<T(==,!new)>(s: seq<T>, p: T -> bool): (r: seq<T>)
    ensures |r| <= |s|
    ensures forall x :: x in r <==> x in s && p(x)
  {
    if s == [] then []
    else
      assert s == [s[0]] + s[1..];
      (if p(s[0]) then [s[0]] else []) + Filter(s[1..], p)
  }

  /** Each element the filter keeps is kept as often as it occurs; the others not at all. */
  lemma {:induction false} FilterMultiset<T(!new)>(s: seq<T>, p: T -> bool)
    ensures forall x :: multiset(Filter(s, p))[x] == if p(x) then multiset(s)[x] else 0
  {
    if s != [] {
      assert s == [s[0]] + s[1..];
      FilterMultiset(s[1..], p);
    }
  }

  /** Filtering distributes over concatenation, so the kept elements stay in order. */
  lemma {:induction false} FilterConcat<T(!new)>(a: seq<T>, b: seq<T>, p: T -> bool)
    ensures Filter(a + b, p) == Filter(a, p) + Filter(b, p)
  {
    if a == [] {
      assert a + b == b;
    } else {
      assert (a + b)[0] == a[0];
      assert (a + b)[1..] == a[1..] + b;
      FilterConcat(a[1..], b, p);
    }
  }

  lemma FilterSingleton<T(!new)>(x: T, p: T -> bool)
    ensures Filter([x], p) == if p(x) then [x] else []
  {
    assert [x][1..] == [];
  }

  /** A filter that rejects nothing is the identity. */
  lemma {:induction false} FilterKeepsAll<T(!new)>(s: seq<T>, p: T -> bool)
    requires forall k :: 0 <= k < |s| ==> p(s[k])
    ensures Filter(s, p) == s
  {
    if s != [] {
      FilterKeepsAll(s[1..], p);
    }
  }

  /** A filter that keeps nothing returns the empty sequence. */
  lemma FilterKeepsNone<T(!new)>(s: seq<T>, p: T -> bool)
    requires forall k :: 0 <= k < |s| ==> !p(s[k])
    ensures Filter(s, p) == []
  {
  }

  /** Filtering twice by the same predicate is filtering once. */
  lemma FilterIdempotent<T(!new)>(s: seq<T>, p: T -> bool)
    ensures Filter(Filter(s, p), p) == Filter(s, p)
  {
    var r := Filter(s, p);
    forall k | 0 <= k < |r| ensures p(r[k]) {
      assert r[k] in r;
    }
    FilterKeepsAll(r, p);
  }

  /** `s.map(f)`. */
  function Map<T, U>(s: seq<T>, f: T -> U): (r: seq<U>)
    ensures |r| == |s|
    ensures forall k :: 0 <= k < |s| ==> r[k] == f(s[k])
  {
    if s == [] then [] else [f(s[0])] + Map(s[1..], f)
  }

  lemma {:induction false} MapConcat<T, U>(a: seq<T>, b: seq<T>, f: T -> U)
    ensures Map(a + b, f) == Map(a, f) + Map(b, f)
  {
    var l, r := Map(a + b, f), Map(a, f) + Map(b, f);
    assert |l| == |r|;
    forall k | 0 <= k < |l| ensures l[k] == r[k] {
      if k < |a| {
        assert (a + b)[k] == a[k];
      } else {
        assert (a + b)[k] == b[k - |a|];
      }
    }
  }

  /** `s.find(p)`: the first element that satisfies `p`, if any. */
  function Find<T>(s: seq<T>, p: T -> bool): (r: Option<T>)
    ensures r.Some? ==> r.value in s && p(r.value)
    ensures r.None? <==> forall k :: 0 <= k < |s| ==> !p(s[k])
  {
    if s == [] then None
    else if p(s[0]) then Some(s[0])
    else
      var r := Find(s[1..], p);
      assert forall k :: 1 <= k < |s| ==> s[k] == s[1..][k - 1];
      r
  }

  /** `find` returns the first element that `filter` keeps. */
  lemma {:induction false} FindIsFirstOfFilter<T(!new)>(s: seq<T>, p: T -> bool)
    ensures Find(s, p) == if Filter(s, p) == [] then None else Some(Filter(s, p)[0])
  {
    if s != [] {
      assert Filter(s, p) == (if p(s[0]) then [s[0]] else []) + Filter(s[1..], p);
      if !p(s[0]) {
        assert [] + Filter(s[1..], p) == Filter(s[1..], p);
        FindIsFirstOfFilter(s[1..], p);
      }
    }
  }

  /** The element `find` returns is the one at the first index satisfying `p`. */
  lemma {:induction false} FindFirst<T>(s: seq<T>, p: T -> bool, i: nat)
    requires i < |s| && p(s[i])
    requires forall k :: 0 <= k < i ==> !p(s[k])
    ensures Find(s, p) == Some(s[i])
  {
    if i > 0 {
      assert !p(s[0]);
      assert s[1..][i - 1] == s[i];
      forall k | 0 <= k < i - 1 ensures !p(s[1..][k]) {
        assert s[1..][k] == s[k + 1];
      }
      FindFirst(s[1..], p, i - 1);
    }
  }

  /** When some element satisfies `p`, there is a first one. */
  lemma {:induction false} FirstMatch<T>(s: seq<T>, p: T -> bool) returns (i: nat)
    requires exists k :: 0 <= k < |s| && p(s[k])
    ensures i < |s| && p(s[i])
    ensures forall k :: 0 <= k < i ==> !p(s[k])
  {
    if p(s[0]) {
      i := 0;
    } else {
      var k :| 0 <= k < |s| && p(s[k]);
      assert s[1..][k - 1] == s[k];
      var j := FirstMatch(s[1..], p);
      i := j + 1;
      forall m | 0 <= m < i ensures !p(s[m]) {
        if m > 0 {
          assert s[m] == s[1..][m - 1];
        }
      }
    }
  }

  /**
   * Removing elements that can never be found does not change what is found:
   * if every element satisfying `p` also satisfies `q`, filtering by `q`
   * first leaves the result of `find` unchanged.
   */
  lemma {:induction false} FindAfterFilter<T(!new)>(s: seq<T>, p: T -> bool, q: T -> bool)
    requires forall x :: p(x) ==> q(x)
    ensures Find(Filter(s, q), p) == Find(s, p)
  {
    if s != [] {
      var rest := Filter(s[1..], q);
      assert Filter(s, q) == (if q(s[0]) then [s[0]] else []) + rest;
      if q(s[0]) {
        assert (([s[0]] + rest)[1..]) == rest;
      } else {
        assert [] + rest == rest;
      }
      FindAfterFilter(s[1..], p, q);
    }
  }

  /** Filtering by a predicate that every `p`-element passes does not change whether some element satisfies `p`. */
  lemma AnyAfterFilter<T(!new)>(s: seq<T>, p: T -> bool, q: T -> bool)
    requires forall x :: p(x) ==> q(x)
    ensures Any(Filter(s, q), p) <==> Any(s, p)
  {
    var r := Filter(s, q);
    if Any(s, p) {
      var k :| 0 <= k < |s| && p(s[k]);
      assert s[k] in r;
      var j :| 0 <= j < |r| && r[j] == s[k];
    }
    if Any(r, p) {
      var j :| 0 <= j < |r| && p(r[j]);
      assert r[j] in s;
      var k :| 0 <= k < |s| && s[k] == r[j];
    }
  }

  /** `s.filter(x => x !== undefined)`: the present values, in order. */
  function Somes<T(==,!new)>(s: seq<Option<T>>): (r: seq<T>)
    ensures |r| <= |s|
    ensures forall x :: x in r <==> Some(x) in s
  {
    if s == [] then []
    else
      assert s == [s[0]] + s[1..];
      (if s[0].Some? then [s[0].value] else []) + Somes(s[1..])
  }

  lemma {:induction false} SomesConcat<T(!new)>(a: seq<Option<T>>, b: seq<Option<T>>)
    ensures Somes(a + b) == Somes(a) + Somes(b)
  {
    if a == [] {
      assert a + b == b;
    } else {
      assert (a + b)[0] == a[0];
      assert (a + b)[1..] == a[1..] + b;
      SomesConcat(a[1..], b);
    }
  }

  lemma SomesSingleton<T(!new)>(x: Option<T>)
    ensures Somes([x]) == if x.Some? then [x.value] else []
  {
    assert [x][1..] == [];
  }

  /** Each value occurs at most once. */
  ghost predicate NoDuplicates<T(!new)>(s: seq<T>) {
    forall x :: multiset(s)[x] <= 1
  }
}
