/**
 `Array.prototype.sort(compareFn)` as the scripts use it. ECMAScript requires the
 sort to be stable, and every comparator in the scripts is a consistent one
 (a total preorder expressed as "negative, zero or positive"), so the result is
 the unique stable sorted permutation of the input. It is modelled here as
 stable insertion sort over an `int`-valued comparator.
 */
module Sorting {

  /** A consistent comparator: sign-antisymmetric and transitive on "not after". */
  ghost predicate IsComparator<T(!new)>(cmp: (T, T) -> int) {
    && (forall a, b :: cmp(a, b) < 0 <==> cmp(b, a) > 0)
    && (forall a, b, c {:trigger cmp(a, b), cmp(b, c), cmp(a, c)} ::
          cmp(a, b) <= 0 && cmp(b, c) <= 0 ==> cmp(a, c) <= 0)
  }

  /** Every element is "not after" every later element. */
  ghost predicate Sorted<T>(s: seq<T>, cmp: (T, T) -> int) {
    forall i, j :: 0 <= i < j < |s| ==> cmp(s[i], s[j]) <= 0
  }

  /** The elements of `s` the comparator ranks equal to `k`, in their order in `s`. */
  function Equivalents<T>(s: seq<T>, k: T, cmp: (T, T) -> int): seq<T>
  {
    if |s| == 0 then []
    else (if cmp(s[0], k) == 0 then [s[0]] else []) + Equivalents(s[1..], k, cmp)
  }

  /** `y` is not after any element of `s`. */
  ghost predicate NotAfterAll<T>(y: T, s: seq<T>, cmp: (T, T) -> int) {
    forall j :: 0 <= j < |s| ==> cmp(y, s[j]) <= 0
  }
  lemma NotAfterAllMultiset<T>(y: T, s: seq<T>, u: seq<T>, cmp: (T, T) -> int)
    requires multiset(s) == multiset(u)
    requires NotAfterAll(y, u, cmp)
    ensures NotAfterAll(y, s, cmp)
  {
    forall j | 0 <= j < |s| ensures cmp(y, s[j]) <= 0 {
      assert s[j] in multiset(u);
      var i :| 0 <= i < |u| && u[i] == s[j];
    }
  }
  lemma SortedCons<T>(y: T, s: seq<T>, cmp: (T, T) -> int)
    requires NotAfterAll(y, s, cmp)
    requires Sorted(s, cmp)
    ensures Sorted([y] + s, cmp)
  {
    forall i, j | 0 <= i < j < |s| + 1 ensures cmp(([y] + s)[i], ([y] + s)[j]) <= 0 {
      if i > 0 {
        assert ([y] + s)[i] == s[i - 1];
      }
      assert ([y] + s)[j] == s[j - 1];
    }
  }
  /** Inserts `x` in front of the first element it is not after. */
  function Insert<T>(x: T, t: seq<T>, cmp: (T, T) -> int): (r: seq<T>)
    ensures |r| == |t| + 1
    ensures multiset(r) == multiset(t) + multiset{x}
  {
    if |t| == 0 then [x]
    else if cmp(x, t[0]) <= 0 then [x] + t
    else
      assert t == [t[0]] + t[1..];
      [t[0]] + Insert(x, t[1..], cmp)
  }

  /** Insertion keeps a sorted sequence sorted. */
  lemma {:induction false} InsertSorted<T(!new)>(x: T, t: seq<T>, cmp: (T, T) -> int)
    requires IsComparator(cmp)
    requires Sorted(t, cmp)
    ensures Sorted(Insert(x, t, cmp), cmp)
  {
    if |t| == 0 {
    } else if cmp(x, t[0]) <= 0 {
      assert NotAfterAll(x, t, cmp) by {
        forall j | 0 <= j < |t| ensures cmp(x, t[j]) <= 0 {
          if j > 0 {
            assert cmp(t[0], t[j]) <= 0;
          }
        }
      }
      SortedCons(x, t, cmp);
    } else {
      var rest := Insert(x, t[1..], cmp);
      InsertSorted(x, t[1..], cmp);
      assert t == [t[0]] + t[1..];
      assert NotAfterAll(t[0], t[1..] + [x], cmp) by {
        forall j | 0 <= j < |t| ensures cmp(t[0], (t[1..] + [x])[j]) <= 0 {
          if j < |t| - 1 {
            assert (t[1..] + [x])[j] == t[j + 1];
          }
        }
      }
      assert multiset(t[1..] + [x]) == multiset(t[1..]) + multiset{x};
      NotAfterAllMultiset(t[0], rest, t[1..] + [x], cmp);
      SortedCons(t[0], rest, cmp);
    }
  }

  /** The stable sort of `s`. */
  function Sort<T(!new)>(s: seq<T>, cmp: (T, T) -> int): (r: seq<T>)
    requires IsComparator(cmp)
    ensures |r| == |s|
    ensures multiset(r) == multiset(s)
    ensures Sorted(r, cmp)
  {
    if |s| == 0 then []
    else
      assert s == [s[0]] + s[1..];
      InsertSorted(s[0], Sort(s[1..], cmp), cmp);
      Insert(s[0], Sort(s[1..], cmp), cmp)
  }

  /** Inserting `x` adds it in front of the elements equivalent to it and leaves the rest in place. */
  lemma {:induction false} InsertEquivalents<T(!new)>(x: T, t: seq<T>, k: T, cmp: (T, T) -> int)
    requires IsComparator(cmp)
    ensures Equivalents(Insert(x, t, cmp), k, cmp)
         == (if cmp(x, k) == 0 then [x] else []) + Equivalents(t, k, cmp)
  {
    if |t| == 0 {
      assert Equivalents([x], k, cmp) == (if cmp(x, k) == 0 then [x] else []) + Equivalents([], k, cmp);
    } else if cmp(x, t[0]) <= 0 {
      assert ([x] + t)[1..] == t;
    } else {
      var h := t[0];
      InsertEquivalents(x, t[1..], k, cmp);
      PassedOverNotBothEquivalent(x, h, k, cmp);
      assert t == [h] + t[1..];
      EquivalentsCons(x, h, Insert(x, t[1..], cmp), t[1..], k, cmp);
    }
  }

  /** An element that `x` is after cannot rank equal to the same key as `x`. */
  lemma PassedOverNotBothEquivalent<T(!new)>(x: T, h: T, k: T, cmp: (T, T) -> int)
    requires IsComparator(cmp)
    requires cmp(x, h) > 0
    ensures !(cmp(x, k) == 0 && cmp(h, k) == 0)
  {
    assert cmp(h, k) == 0 ==> cmp(k, h) <= 0;
    assert cmp(x, k) <= 0 && cmp(k, h) <= 0 ==> cmp(x, h) <= 0;
  }

  lemma EquivalentsCons<T>(x: T, h: T, rest: seq<T>, t: seq<T>, k: T, cmp: (T, T) -> int)
    requires Equivalents(rest, k, cmp) == (if cmp(x, k) == 0 then [x] else []) + Equivalents(t, k, cmp)
    requires !(cmp(x, k) == 0 && cmp(h, k) == 0)
    ensures Equivalents([h] + rest, k, cmp) == (if cmp(x, k) == 0 then [x] else []) + Equivalents([h] + t, k, cmp)
  {
    assert ([h] + rest)[1..] == rest;
    assert ([h] + t)[1..] == t;
  }

  /**
   Stability: for every key, the elements ranked equal to it appear in the
   sorted output in exactly the order they had in the input.
   */
  lemma {:induction false} SortStable<T(!new)>(s: seq<T>, k: T, cmp: (T, T) -> int)
    requires IsComparator(cmp)
    ensures Equivalents(Sort(s, cmp), k, cmp) == Equivalents(s, k, cmp)
  {
    if |s| > 0 {
      SortStable(s[1..], k, cmp);
      InsertEquivalents(s[0], Sort(s[1..], cmp), k, cmp);
    }
  }

  /** The equivalents of a concatenation are those of each part, in turn. */
  lemma {:induction false} EquivalentsAppend<T>(a: seq<T>, b: seq<T>, k: T, cmp: (T, T) -> int)
    ensures Equivalents(a + b, k, cmp) == Equivalents(a, k, cmp) + Equivalents(b, k, cmp)
    decreases |a|
  {
    if |a| > 0 {
      EquivalentsAppend(a[1..], b, k, cmp);
      assert (a + b)[1..] == a[1..] + b;
    } else {
      assert a + b == b;
    }
  }

  /**
   A prefix of any rearrangement that keeps each class of tied elements in
   input order (such as `Sort`, by `SortStable`) holds, of each class, the
   ones that came first in the input.
   */
  lemma CutKeepsFirstTies<T>(sorted: seq<T>, s: seq<T>, m: nat, k: T, cmp: (T, T) -> int)
    requires Equivalents(sorted, k, cmp) == Equivalents(s, k, cmp) && m <= |sorted|
    ensures Equivalents(sorted[..m], k, cmp) <= Equivalents(s, k, cmp)
  {
    assert sorted == sorted[..m] + sorted[m..];
    EquivalentsAppend(sorted[..m], sorted[m..], k, cmp);
  }

  /** In a sorted sequence nothing outside a prefix comes before anything in it. */
  lemma SortedPrefixFirst<T>(s: seq<T>, n: nat, cmp: (T, T) -> int)
    requires Sorted(s, cmp)
    requires n <= |s|
    ensures forall e, j :: e in multiset(s) - multiset(s[..n]) && 0 <= j < n ==> cmp(s[j], e) <= 0
  {
    assert s == s[..n] + s[n..];
    assert multiset(s) == multiset(s[..n]) + multiset(s[n..]);
    forall e, j | e in multiset(s) - multiset(s[..n]) && 0 <= j < n
      ensures cmp(s[j], e) <= 0
    {
      assert e in multiset(s[n..]);
      var k :| 0 <= k < |s[n..]| && s[n..][k] == e;
      assert s[n + k] == e;
    }
  }

  /**
   The first `n` elements of a sorted permutation of `s`: `n` of the elements
   of `s`, in order, none after anything left out.
   */
  lemma SortedPrefix<T>(sorted: seq<T>, s: seq<T>, n: nat, cmp: (T, T) -> int)
    requires Sorted(sorted, cmp) && multiset(sorted) == multiset(s)
    requires n <= |sorted|
    ensures var p := sorted[..n];
            && Sorted(p, cmp)
            && multiset(p) <= multiset(s)
            && forall e, j :: e in multiset(s) - multiset(p) && 0 <= j < n ==> cmp(p[j], e) <= 0
  {
    var p := sorted[..n];
    assert Sorted(p, cmp) by {
      forall i, j | 0 <= i < j < n ensures cmp(p[i], p[j]) <= 0 {
        assert p[i] == sorted[i] && p[j] == sorted[j];
      }
    }
    SortedPrefixFirst(sorted, n, cmp);
    assert sorted == p + sorted[n..];
    assert multiset(sorted) == multiset(p) + multiset(sorted[n..]);
  }
}
