/**
 * The two array built-ins the screens call: `Array.prototype.filter` with a pure
 * predicate, and `Array.prototype.sort` with a comparator. The language requires `sort`
 * to be stable; it is modelled here by a stable insertion sort, and `SortedEntriesUnique`
 * (in `ResultFormat`) shows that for the comparator the screens pass any other correct
 * sort returns the same array.
 */
module JsArray {

  // ---------------------------------------------------------------------------
  // Subsequences
  // ---------------------------------------------------------------------------

  /** `t` is obtained from `s` by deleting elements, keeping the order of the rest. */
  predicate IsSubsequence<T(==)>(t: seq<T>, s: seq<T>)
    decreases |s|
  {
    if t == [] then true
    else if s == [] then false
    else (t[0] == s[0] && IsSubsequence(t[1..], s[1..])) || IsSubsequence(t, s[1..])
  }

  lemma {:induction false} SubsequenceReflexive<T>(s: seq<T>)
    ensures IsSubsequence(s, s)
    decreases |s|
  {
    if s != [] {
      SubsequenceReflexive(s[1..]);
    }
  }

  lemma {:induction false} SubsequenceTransitive<T>(r: seq<T>, t: seq<T>, s: seq<T>)
    requires IsSubsequence(r, t) && IsSubsequence(t, s)
    ensures IsSubsequence(r, s)
    decreases |s|
  {
    if r != [] {
      assert t != [] && s != [];
      if t[0] == s[0] && IsSubsequence(t[1..], s[1..]) {
        if r[0] == t[0] && IsSubsequence(r[1..], t[1..]) {
          SubsequenceTransitive(r[1..], t[1..], s[1..]);
        } else {
          SubsequenceTransitive(r, t[1..], s[1..]);
        }
      } else {
        SubsequenceTransitive(r, t, s[1..]);
      }
    }
  }

  // ---------------------------------------------------------------------------
  // Array.prototype.filter
  // ---------------------------------------------------------------------------

  /** `s.filter(p)`: the elements satisfying `p`, in their original order. */
  function Filter<T>(s: seq<T>, p: T -> bool): (r: seq<T>)
    ensures |r| <= |s|
    ensures forall i :: 0 <= i < |r| ==> p(r[i])
    ensures forall x :: x in r ==> x in s && p(x)
    ensures forall i :: 0 <= i < |s| && p(s[i]) ==> s[i] in r
    decreases |s|
  {
    if s == [] then []
    else (if p(s[0]) then [s[0]] else []) + Filter(s[1..], p)
  }

  /** `filter` keeps every passing element as often as it occurs, and no other element. */
  lemma {:induction false} FilterCounts<T>(s: seq<T>, p: T -> bool)
    ensures forall x :: multiset(Filter(s, p))[x] == if p(x) then multiset(s)[x] else 0
    decreases |s|
  {
    if s != [] {
      FilterCounts(s[1..], p);
      assert s == [s[0]] + s[1..];
    }
  }

  lemma {:induction false} FilterIsSubsequence<T>(s: seq<T>, p: T -> bool)
    ensures IsSubsequence(Filter(s, p), s)
    decreases |s|
  {
    if s != [] {
      FilterIsSubsequence(s[1..], p);
      var rest := Filter(s[1..], p);
      if p(s[0]) {
        assert Filter(s, p) == [s[0]] + rest;
        assert (Filter(s, p))[1..] == rest;
      } else {
        assert Filter(s, p) == rest;
        if rest != [] {
          assert IsSubsequence(rest, s[1..]);
        }
      }
    }
  }

  /** Filtering a sequence whose elements all pass changes nothing. */
  lemma {:induction false} FilterKeepsAll<T>(s: seq<T>, p: T -> bool)
    requires forall i :: 0 <= i < |s| ==> p(s[i])
    ensures Filter(s, p) == s
    decreases |s|
  {
    if s != [] {
      FilterKeepsAll(s[1..], p);
    }
  }

  /** Predicates that agree on every element filter alike. */
  lemma {:induction false} FilterCongruent<T>(s: seq<T>, p: T -> bool, q: T -> bool)
    requires forall x :: p(x) == q(x)
    ensures Filter(s, p) == Filter(s, q)
    decreases |s|
  {
    if s != [] {
      FilterCongruent(s[1..], p, q);
    }
  }

  /** Two filters in a row are one filter by the conjunction of their predicates. */
  lemma {:induction false} FilterFusion<T>(s: seq<T>, p: T -> bool, q: T -> bool, both: T -> bool)
    requires forall x :: both(x) == (p(x) && q(x))
    ensures Filter(Filter(s, p), q) == Filter(s, both)
    decreases |s|
  {
    if s != [] {
      FilterFusion(s[1..], p, q, both);
      var rest := Filter(s[1..], p);
      if p(s[0]) {
        assert Filter(s, p) == [s[0]] + rest;
        assert ([s[0]] + rest)[1..] == rest;
      } else {
        assert Filter(s, p) == rest;
      }
    }
  }

  // ---------------------------------------------------------------------------
  // Array.prototype.sort
  // ---------------------------------------------------------------------------

  /** What the language asks of a comparator for `sort` to be well defined on the pairs it
      compares: the sign of `cmp(b, a)` is the opposite of that of `cmp(a, b)`. */
  ghost predicate Antisymmetric<T(!new)>(cmp: (T, T) -> int) {
    forall a, b :: cmp(a, b) > 0 <==> cmp(b, a) < 0
  }

  /** Every two neighbours are in comparator order. */
  ghost predicate SortedBy<T>(s: seq<T>, cmp: (T, T) -> int) {
    forall i :: 0 <= i < |s| - 1 ==> cmp(s[i], s[i + 1]) <= 0
  }

  /** Insert `x` before the first element that does not sort ahead of it. */
  function Insert<T>(x: T, s: seq<T>, cmp: (T, T) -> int): (r: seq<T>)
    ensures multiset(r) == multiset(s) + multiset{x}
    ensures |r| == |s| + 1
    ensures r != [] && (r[0] == x || (s != [] && r[0] == s[0]))
    decreases |s|
  {
    if s == [] || cmp(x, s[0]) <= 0 then [x] + s
    else
      assert s == [s[0]] + s[1..];
      [s[0]] + Insert(x, s[1..], cmp)
  }

  /** `s.sort(cmp)`: a stable insertion sort, each element inserted ahead of its equals
      that came later in the input. */
  function SortBy<T>(s: seq<T>, cmp: (T, T) -> int): (r: seq<T>)
    ensures multiset(r) == multiset(s)
    ensures |r| == |s|
    decreases |s|
  {
    if s == [] then []
    else
      assert s == [s[0]] + s[1..];
      Insert(s[0], SortBy(s[1..], cmp), cmp)
  }

  lemma {:induction false} InsertSorted<T(!new)>(x: T, s: seq<T>, cmp: (T, T) -> int)
    requires Antisymmetric(cmp) && SortedBy(s, cmp)
    ensures SortedBy(Insert(x, s, cmp), cmp)
    decreases |s|
  {
    if s != [] && cmp(x, s[0]) > 0 {
      InsertSorted(x, s[1..], cmp);
      var rest := Insert(x, s[1..], cmp);
      assert Insert(x, s, cmp) == [s[0]] + rest;
      assert cmp(s[0], rest[0]) <= 0;
    }
  }

  /** For an antisymmetric comparator the result is sorted. */
  lemma {:induction false} SortBySorted<T(!new)>(s: seq<T>, cmp: (T, T) -> int)
    requires Antisymmetric(cmp)
    ensures SortedBy(SortBy(s, cmp), cmp)
    decreases |s|
  {
    if s != [] {
      SortBySorted(s[1..], cmp);
      InsertSorted(s[0], SortBy(s[1..], cmp), cmp);
    }
  }

  /** Two comparators that agree on every pair sort every array alike. */
  lemma {:induction false} SortByCongruent<T>(s: seq<T>, c1: (T, T) -> int, c2: (T, T) -> int)
    requires forall a, b :: c1(a, b) == c2(a, b)
    ensures SortBy(s, c1) == SortBy(s, c2)
    decreases |s|
  {
    if s != [] {
      SortByCongruent(s[1..], c1, c2);
      InsertCongruent(s[0], SortBy(s[1..], c1), c1, c2);
    }
  }

  lemma {:induction false} InsertCongruent<T>(x: T, s: seq<T>, c1: (T, T) -> int, c2: (T, T) -> int)
    requires forall a, b :: c1(a, b) == c2(a, b)
    ensures Insert(x, s, c1) == Insert(x, s, c2)
    decreases |s|
  {
    if s != [] {
      InsertCongruent(x, s[1..], c1, c2);
    }
  }
}
