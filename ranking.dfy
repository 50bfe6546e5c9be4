/**
 * The two ways the downloader picks the best of a list of media by a numeric
 * key: a stable sort in descending order followed by a search
 * (`[...media].sort((a, b) => key(b) - key(a)).find(...)`), and a `reduce`
 * that replaces its accumulator only on a strictly larger key. Both are
 * related here to one reference: the first element with the largest key.
 */
module Ranking {
  import opened Wrappers

  // ---------------------------------------------------------------------------
  // The reference: the first element with the largest key

  /** `s[i]` has the largest key of `s` and every element before it has a smaller one. */
  predicate IsFirstMax<T>(s: seq<T>, i: nat, key: T -> int)
  {
    i < |s|
    && (forall j :: 0 <= j < |s| ==> key(s[j]) <= key(s[i]))
    && (forall j :: 0 <= j < i ==> key(s[j]) < key(s[i]))
  }

  /** The position of the first element with the largest key. */
  function FirstMaxIndex<T>(s: seq<T>, key: T -> int): (r: nat)
    requires s != []
    ensures IsFirstMax(s, r, key)
    decreases |s|
  {
    if |s| == 1 then 0
    else
      var i := FirstMaxIndex(s[1..], key);
      assert forall j :: 1 <= j < |s| ==> s[j] == s[1..][j - 1];
      if key(s[0]) >= key(s[1 + i]) then 0 else i + 1
  }

  /** There is only one such position. */
  lemma FirstMaxUnique<T>(s: seq<T>, i: nat, j: nat, key: T -> int)
    requires IsFirstMax(s, i, key) && IsFirstMax(s, j, key)
    ensures i == j
  {
    assert key(s[i]) == key(s[j]);
  }

  /** The first element with the largest key. */
  function FirstMax<T>(s: seq<T>, key: T -> int): T
    requires s != []
  {
    s[FirstMaxIndex(s, key)]
  }

  // ---------------------------------------------------------------------------
  // Stable sort, largest key first

  predicate SortedDesc<T>(s: seq<T>, key: T -> int)
  {
    forall i, j :: 0 <= i < j < |s| ==> key(s[i]) >= key(s[j])
  }

  /** Puts `x` before the first element whose key is not larger than its own. */
  function Insert<T>(x: T, s: seq<T>, key: T -> int): (r: seq<T>)
    ensures |r| == |s| + 1
  {
    if s == [] || key(s[0]) <= key(x) then [x] + s else [s[0]] + Insert(x, s[1..], key)
  }

  /**
   * `[...xs].sort((a, b) => key(b) - key(a))`. JavaScript's sort is stable,
   * so elements with equal keys keep their order: inserting each element in
   * front of the sorted rest, before the elements whose key equals its own,
   * gives that order.
   */
  function SortDesc<T>(xs: seq<T>, key: T -> int): (r: seq<T>)
    ensures |r| == |xs|
  {
    if xs == [] then [] else Insert(xs[0], SortDesc(xs[1..], key), key)
  }

  lemma {:induction false} InsertPermutes<T>(x: T, s: seq<T>, key: T -> int)
    ensures multiset(Insert(x, s, key)) == multiset(s) + multiset{x}
    decreases |s|
  {
    if s != [] && key(s[0]) > key(x) {
      InsertPermutes(x, s[1..], key);
      assert s == [s[0]] + s[1..];
    }
  }

  lemma {:induction false} InsertSorted<T>(x: T, s: seq<T>, key: T -> int)
    requires SortedDesc(s, key)
    ensures SortedDesc(Insert(x, s, key), key)
    decreases |s|
  {
    if s != [] && key(s[0]) > key(x) {
      var rest := Insert(x, s[1..], key);
      InsertSorted(x, s[1..], key);
      InsertPermutes(x, s[1..], key);
      forall j | 0 <= j < |rest| ensures key(s[0]) >= key(rest[j]) {
        assert rest[j] in multiset(rest);
        if rest[j] != x {
          assert rest[j] in multiset(s[1..]);
          var k :| 0 <= k < |s[1..]| && s[1..][k] == rest[j];
          assert s[k + 1] == rest[j];
        }
      }
    }
  }

  /** The sort gives the same elements, each as often as before. */
  lemma {:induction false} SortPermutes<T>(xs: seq<T>, key: T -> int)
    ensures multiset(SortDesc(xs, key)) == multiset(xs)
    decreases |xs|
  {
    if xs != [] {
      SortPermutes(xs[1..], key);
      InsertPermutes(xs[0], SortDesc(xs[1..], key), key);
      assert xs == [xs[0]] + xs[1..];
    }
  }

  /** The sort gives the largest key first. */
  lemma {:induction false} SortSorted<T>(xs: seq<T>, key: T -> int)
    ensures SortedDesc(SortDesc(xs, key), key)
    decreases |xs|
  {
    if xs != [] {
      SortSorted(xs[1..], key);
      InsertSorted(xs[0], SortDesc(xs[1..], key), key);
    }
  }

  /** The head of the sorted list is the first element with the largest key. */
  lemma {:induction false} SortHead<T>(xs: seq<T>, key: T -> int)
    requires xs != []
    ensures SortDesc(xs, key)[0] == FirstMax(xs, key)
    decreases |xs|
  {
    if |xs| > 1 {
      SortHead(xs[1..], key);
    }
  }

  // ---------------------------------------------------------------------------
  // Searching the sorted list

  /** The elements that satisfy `p`, in order (`xs.filter(p)`). */
  function Filter<T>(p: T -> bool, xs: seq<T>): (r: seq<T>)
    ensures |r| <= |xs|
  {
    if xs == [] then [] else (if p(xs[0]) then [xs[0]] else []) + Filter(p, xs[1..])
  }

  /** `xs.find(p)`: the first element that satisfies `p`. */
  function Find<T>(p: T -> bool, xs: seq<T>): (r: Option<T>)
    ensures r.Some? ==> p(r.value)
  {
    if xs == [] then None else if p(xs[0]) then Some(xs[0]) else Find(p, xs[1..])
  }

  /** `find` gives the head of `filter`. */
  lemma {:induction false} FindFilter<T>(p: T -> bool, xs: seq<T>)
    ensures Find(p, xs) == if Filter(p, xs) == [] then None else Some(Filter(p, xs)[0])
    decreases |xs|
  {
    if xs != [] {
      FindFilter(p, xs[1..]);
    }
  }

  lemma {:induction false} FilterFrom<T>(p: T -> bool, xs: seq<T>, j: nat)
    requires j < |Filter(p, xs)|
    ensures exists k :: 0 <= k < |xs| && xs[k] == Filter(p, xs)[j]
    decreases |xs|
  {
    if !p(xs[0]) || j > 0 {
      FilterFrom(p, xs[1..], if p(xs[0]) then j - 1 else j);
      var k :| 0 <= k < |xs[1..]| && xs[1..][k] == Filter(p, xs[1..])[if p(xs[0]) then j - 1 else j];
      assert xs[k + 1] == Filter(p, xs)[j];
    } else {
      assert xs[0] == Filter(p, xs)[j];
    }
  }

  /** Everything kept satisfies `p`. */
  lemma {:induction false} FilterSatisfies<T>(p: T -> bool, xs: seq<T>)
    ensures forall j :: 0 <= j < |Filter(p, xs)| ==> p(Filter(p, xs)[j])
    decreases |xs|
  {
    if xs != [] {
      FilterSatisfies(p, xs[1..]);
      var h := if p(xs[0]) then [xs[0]] else [];
      assert Filter(p, xs) == h + Filter(p, xs[1..]);
      forall j | 0 <= j < |Filter(p, xs)| ensures p(Filter(p, xs)[j]) {
        if j >= |h| {
          assert Filter(p, xs)[j] == Filter(p, xs[1..])[j - |h|];
        }
      }
    }
  }

  /** Filtering keeps a strictly increasing measure strictly increasing. */
  lemma {:induction false} FilterIncreasing<T>(p: T -> bool, xs: seq<T>, f: T -> int)
    requires forall i, j :: 0 <= i < j < |xs| ==> f(xs[i]) < f(xs[j])
    ensures forall i, j :: 0 <= i < j < |Filter(p, xs)| ==> f(Filter(p, xs)[i]) < f(Filter(p, xs)[j])
    decreases |xs|
  {
    if xs != [] {
      FilterIncreasing(p, xs[1..], f);
      var r := Filter(p, xs[1..]);
      if p(xs[0]) {
        forall j | 0 <= j < |r| ensures f(xs[0]) < f(r[j]) {
          FilterFrom(p, xs[1..], j);
          var k :| 0 <= k < |xs[1..]| && xs[1..][k] == r[j];
          assert xs[k + 1] == r[j];
        }
        IncreasingCons(xs[0], r, f);
        assert Filter(p, xs) == [xs[0]] + r;
      } else {
        assert Filter(p, xs) == r;
      }
    }
  }

  lemma IncreasingCons<T>(x: T, r: seq<T>, f: T -> int)
    requires forall j :: 0 <= j < |r| ==> f(x) < f(r[j])
    requires forall i, j :: 0 <= i < j < |r| ==> f(r[i]) < f(r[j])
    ensures forall i, j :: 0 <= i < j < |[x] + r| ==> f(([x] + r)[i]) < f(([x] + r)[j])
  {
    var s := [x] + r;
    forall i, j | 0 <= i < j < |s| ensures f(s[i]) < f(s[j]) {
      if i > 0 {
        assert s[i] == r[i - 1] && s[j] == r[j - 1];
      } else {
        assert s[j] == r[j - 1];
      }
    }
  }

  /** The elements of `xs` that satisfy `p`, each mapped by `f`, in order. */
  function FilterMap<A, B>(p: A -> bool, f: A -> B, xs: seq<A>): seq<B>
  {
    if xs == [] then [] else (if p(xs[0]) then [f(xs[0])] else []) + FilterMap(p, f, xs[1..])
  }

  /** One step of a loop that pushes `f(x)` for each `x` passing `p`. */
  lemma FilterMapStep<A, B>(p: A -> bool, f: A -> B, xs: seq<A>, i: nat)
    requires i < |xs|
    ensures FilterMap(p, f, xs[i..]) == (if p(xs[i]) then [f(xs[i])] else []) + FilterMap(p, f, xs[i + 1..])
  {
    assert xs[i..][1..] == xs[i + 1..];
  }

  /** `FilterMap` is `f` applied to each element `Filter` keeps. */
  lemma {:induction false} FilterMapIs<A, B>(p: A -> bool, f: A -> B, xs: seq<A>)
    ensures |FilterMap(p, f, xs)| == |Filter(p, xs)|
    ensures forall k :: 0 <= k < |FilterMap(p, f, xs)| ==> FilterMap(p, f, xs)[k] == f(Filter(p, xs)[k])
    decreases |xs|
  {
    if xs != [] {
      FilterMapIs(p, f, xs[1..]);
      var m := FilterMap(p, f, xs[1..]);
      var k := Filter(p, xs[1..]);
      if p(xs[0]) {
        assert FilterMap(p, f, xs) == [f(xs[0])] + m;
        assert Filter(p, xs) == [xs[0]] + k;
        forall j | 1 <= j < |m| + 1 ensures ([f(xs[0])] + m)[j] == f(([xs[0]] + k)[j]) {
          assert ([f(xs[0])] + m)[j] == m[j - 1];
          assert ([xs[0]] + k)[j] == k[j - 1];
        }
      } else {
        assert FilterMap(p, f, xs) == m;
        assert Filter(p, xs) == k;
      }
    }
  }

  /** Filtering commutes with inserting into a sorted list. */
  lemma {:induction false} FilterInsert<T>(p: T -> bool, x: T, s: seq<T>, key: T -> int)
    requires SortedDesc(s, key)
    ensures Filter(p, Insert(x, s, key)) == if p(x) then Insert(x, Filter(p, s), key) else Filter(p, s)
    decreases |s|
  {
    if s == [] {
    } else if key(s[0]) <= key(x) {
      assert Insert(x, s, key) == [x] + s;
      assert Filter(p, [x] + s) == (if p(x) then [x] else []) + Filter(p, s);
      if p(x) && Filter(p, s) != [] {
        FilterFrom(p, s, 0);
      }
    } else {
      FilterInsert(p, x, s[1..], key);
      var f := Filter(p, s[1..]);
      var g := Filter(p, Insert(x, s[1..], key));
      assert Insert(x, s, key) == [s[0]] + Insert(x, s[1..], key);
      assert Filter(p, Insert(x, s, key)) == (if p(s[0]) then [s[0]] + g else g);
      assert Filter(p, s) == (if p(s[0]) then [s[0]] + f else f);
      if p(s[0]) && p(x) {
        assert ([s[0]] + f)[1..] == f;
        assert Insert(x, [s[0]] + f, key) == [s[0]] + Insert(x, f, key);
      }
    }
  }

  /** Filtering the sorted list is sorting the filtered list. */
  lemma {:induction false} FilterSort<T>(p: T -> bool, xs: seq<T>, key: T -> int)
    ensures Filter(p, SortDesc(xs, key)) == SortDesc(Filter(p, xs), key)
    decreases |xs|
  {
    if xs != [] {
      FilterSort(p, xs[1..], key);
      SortSorted(xs[1..], key);
      FilterInsert(p, xs[0], SortDesc(xs[1..], key), key);
      var f := Filter(p, xs[1..]);
      if p(xs[0]) {
        assert Filter(p, xs) == [xs[0]] + f;
        assert Filter(p, xs)[1..] == f;
      } else {
        assert Filter(p, xs) == f;
      }
    }
  }

  /**
   * Searching the sorted list finds the first element, among those that
   * satisfy `p`, with the largest key; and nothing when none does.
   */
  lemma FindSorted<T>(p: T -> bool, xs: seq<T>, key: T -> int)
    ensures Find(p, SortDesc(xs, key)) == if Filter(p, xs) == [] then None else Some(FirstMax(Filter(p, xs), key))
  {
    FindFilter(p, SortDesc(xs, key));
    FilterSort(p, xs, key);
    if Filter(p, xs) != [] {
      SortHead(Filter(p, xs), key);
    }
  }

  // ---------------------------------------------------------------------------
  // reduce with a strict comparison

  /** `xs.reduce((best, x) => key(x) > key(best) ? x : best, acc)`. */
  function ReduceBest<T>(acc: T, xs: seq<T>, key: T -> int): T
    decreases |xs|
  {
    if xs == [] then acc else ReduceBest(if key(xs[0]) > key(acc) then xs[0] else acc, xs[1..], key)
  }

  lemma {:induction false} ReduceBestIsFirstMax<T>(acc: T, xs: seq<T>, key: T -> int)
    ensures exists i: nat :: IsFirstMax([acc] + xs, i, key) && ReduceBest(acc, xs, key) == ([acc] + xs)[i]
    decreases |xs|
  {
    var s := [acc] + xs;
    if xs == [] {
      assert IsFirstMax(s, 0, key);
    } else {
      var a := if key(xs[0]) > key(acc) then xs[0] else acc;
      ReduceBestIsFirstMax(a, xs[1..], key);
      var t := [a] + xs[1..];
      var i: nat :| IsFirstMax(t, i, key) && ReduceBest(a, xs[1..], key) == t[i];
      if key(xs[0]) > key(acc) {
        assert t == xs;
        FirstMaxCons(acc, t, i, key);
        assert ReduceBest(acc, xs, key) == s[i + 1];
      } else {
        FirstMaxInsert(acc, xs[0], xs[1..], i, key);
        assert s == [acc, xs[0]] + xs[1..];
        assert ReduceBest(acc, xs, key) == s[if i == 0 then 0 else i + 1];
      }
    }
  }

  /** An element put in front with a smaller key moves the first maximum one place on. */
  lemma FirstMaxCons<T>(y: T, t: seq<T>, i: nat, key: T -> int)
    requires IsFirstMax(t, i, key) && key(y) < key(t[i])
    ensures IsFirstMax([y] + t, i + 1, key)
  {
    var s := [y] + t;
    forall j | 0 <= j < |s| ensures key(s[j]) <= key(s[i + 1]) {
      if j > 0 {
        assert s[j] == t[j - 1];
      }
    }
    forall j | 0 <= j < i + 1 ensures key(s[j]) < key(s[i + 1]) {
      if j > 0 {
        assert s[j] == t[j - 1];
      }
    }
  }

  /** An element with a key not above the head's, put second, moves a later first maximum one place on. */
  lemma FirstMaxInsert<T>(x: T, y: T, rest: seq<T>, i: nat, key: T -> int)
    requires IsFirstMax([x] + rest, i, key) && key(y) <= key(x)
    ensures IsFirstMax([x, y] + rest, if i == 0 then 0 else i + 1, key)
  {
    var t := [x] + rest;
    var s := [x, y] + rest;
    var m := if i == 0 then 0 else i + 1;
    assert s[m] == t[i];
    forall j | 0 <= j < |s| ensures key(s[j]) <= key(s[m]) {
      if j > 1 {
        assert s[j] == t[j - 1];
      } else if j == 1 {
        assert key(t[0]) <= key(t[i]);
      }
    }
    forall j | 0 <= j < m ensures key(s[j]) < key(s[m]) {
      if j > 1 {
        assert s[j] == t[j - 1];
      } else {
        assert key(t[0]) < key(t[i]);
      }
    }
  }

  /**
   * The `reduce` gives the first element of `[acc] + xs` with the largest
   * key: the accumulator survives unless a strictly larger key comes.
   */
  lemma ReduceBestFirstMax<T>(acc: T, xs: seq<T>, key: T -> int)
    ensures ReduceBest(acc, xs, key) == FirstMax([acc] + xs, key)
  {
    ReduceBestIsFirstMax(acc, xs, key);
    var i: nat :| IsFirstMax([acc] + xs, i, key) && ReduceBest(acc, xs, key) == ([acc] + xs)[i];
    FirstMaxUnique([acc] + xs, i, FirstMaxIndex([acc] + xs, key), key);
  }

  /**
   * Started from the first element, the `reduce` agrees with the head of the
   * stable sort.
   */
  lemma ReduceAgreesWithSort<T>(xs: seq<T>, key: T -> int)
    requires xs != []
    ensures ReduceBest(xs[0], xs[1..], key) == SortDesc(xs, key)[0]
  {
    ReduceBestFirstMax(xs[0], xs[1..], key);
    assert [xs[0]] + xs[1..] == xs;
    SortHead(xs, key);
  }
}
