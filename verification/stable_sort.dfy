/**
 * Degree-aware comparison and the stable sort that `Arrays.sort(mas, from, to, c)` performs
 * on one sub-range in MultiCompare.rsort.
 *
 * A comparator answers `compare(a, b, degree)` with a negative, zero or positive int. Java's
 * `Comparator` contract (sign antisymmetry, transitivity) is stated per degree as
 * `TotalPreorder`; only the ordering and stability lemmas need it.
 */
module StableSort {

  type Compare<-T> = (T, T, int) -> int

  /** One instance of the sign rule of Java's `Comparator` contract:
      `sgn(compare(a, b)) == -sgn(compare(b, a))`. */
  ghost predicate SignFlips<T>(cmp: Compare<T>, d: int, a: T, b: T) {
    cmp(a, b, d) < 0 <==> cmp(b, a, d) > 0
  }

  /** One instance of transitivity of `compare <= 0`. */
  ghost predicate Chains<T>(cmp: Compare<T>, d: int, a: T, b: T, c: T) {
    cmp(a, b, d) <= 0 && cmp(b, c, d) <= 0 ==> cmp(a, c, d) <= 0
  }

  /** Java's `Comparator` contract for one fixed degree: `compare <= 0` is a total preorder
      whose sign flips with the arguments. The instances are named so that proofs use them
      deliberately rather than by unbounded instantiation. */
  ghost predicate TotalPreorder<T(!new)>(cmp: Compare<T>, d: int) {
    && (forall a, b :: SignFlips(cmp, d, a, b))
    && (forall a, b, c :: Chains(cmp, d, a, b, c))
  }

  /** The comparator honours the contract on every degree the sort visits. */
  ghost predicate ValidComparator<T(!new)>(cmp: Compare<T>, degrees: int) {
    forall d :: 0 <= d < degrees ==> TotalPreorder(cmp, d)
  }

  /** `a` and `b` compare equal on every degree in `[lo, hi)`. */
  predicate EqualOn<T>(cmp: Compare<T>, a: T, b: T, lo: int, hi: int) {
    forall e :: lo <= e < hi ==> cmp(a, b, e) == 0
  }

  /** Ascending order at degree `d`, stated over every pair of positions. */
  predicate SortedAt<T>(cmp: Compare<T>, s: seq<T>, d: int) {
    forall i, j :: 0 <= i < j < |s| ==> cmp(s[i], s[j], d) <= 0
  }

  // ----- consequences of the contract ---------------------------------------------------

  lemma ZeroSymmetric<T(!new)>(cmp: Compare<T>, d: int, a: T, b: T)
    requires TotalPreorder(cmp, d)
    ensures cmp(a, b, d) == 0 <==> cmp(b, a, d) == 0
  {
    assert SignFlips(cmp, d, a, b) && SignFlips(cmp, d, b, a);
  }

  lemma ZeroTransitive<T(!new)>(cmp: Compare<T>, d: int, a: T, b: T, c: T)
    requires TotalPreorder(cmp, d)
    requires cmp(a, b, d) == 0 && cmp(b, c, d) == 0
    ensures cmp(a, c, d) == 0
  {
    assert SignFlips(cmp, d, a, c) && SignFlips(cmp, d, c, a);
    assert SignFlips(cmp, d, a, b) && SignFlips(cmp, d, b, c);
    assert Chains(cmp, d, a, b, c) && Chains(cmp, d, c, b, a);
  }

  lemma LessThenAtMost<T(!new)>(cmp: Compare<T>, d: int, a: T, b: T, c: T)
    requires TotalPreorder(cmp, d)
    requires cmp(a, b, d) < 0 && cmp(b, c, d) <= 0
    ensures cmp(a, c, d) < 0
  {
    assert SignFlips(cmp, d, a, b) && SignFlips(cmp, d, a, c) && SignFlips(cmp, d, c, a);
    assert Chains(cmp, d, b, c, a);
  }

  lemma AtMostThenLess<T(!new)>(cmp: Compare<T>, d: int, a: T, b: T, c: T)
    requires TotalPreorder(cmp, d)
    requires cmp(a, b, d) <= 0 && cmp(b, c, d) < 0
    ensures cmp(a, c, d) < 0
  {
    assert SignFlips(cmp, d, b, c) && SignFlips(cmp, d, a, c) && SignFlips(cmp, d, c, a);
    assert Chains(cmp, d, c, a, b);
  }

  /** `compare <= 0` is transitive. */
  lemma AtMostTransitive<T(!new)>(cmp: Compare<T>, d: int, a: T, b: T, c: T)
    requires TotalPreorder(cmp, d)
    requires cmp(a, b, d) <= 0 && cmp(b, c, d) <= 0
    ensures cmp(a, c, d) <= 0
  {
    assert Chains(cmp, d, a, b, c);
  }

  /** When `a` is not below `b`, `b` is at most `a`: the preorder is total. */
  lemma NotLessFlips<T(!new)>(cmp: Compare<T>, d: int, a: T, b: T)
    requires TotalPreorder(cmp, d)
    requires cmp(a, b, d) >= 0
    ensures cmp(b, a, d) <= 0
  {
    assert SignFlips(cmp, d, a, b) && SignFlips(cmp, d, b, a);
  }

  /** Two elements that both compare equal to `k` compare equal to each other. */
  lemma SameClass<T(!new)>(cmp: Compare<T>, d: int, a: T, b: T, k: T)
    requires TotalPreorder(cmp, d)
    requires cmp(a, k, d) == 0 && cmp(b, k, d) == 0
    ensures cmp(a, b, d) == 0
  {
    ZeroSymmetric(cmp, d, b, k);
    ZeroTransitive(cmp, d, a, k, b);
  }

  // ----- the equivalence-class filter used to state stability ---------------------------

  /** The subsequence of `s` (in order) of the elements equal to `k` on degrees `[lo, hi)`. */
  function Keep<T>(s: seq<T>, k: T, cmp: Compare<T>, lo: int, hi: int): (r: seq<T>)
    ensures |r| <= |s|
  {
    if |s| == 0 then []
    else (if EqualOn(cmp, s[0], k, lo, hi) then [s[0]] else []) + Keep(s[1..], k, cmp, lo, hi)
  }

  lemma {:induction false} KeepConcat<T>(a: seq<T>, b: seq<T>, k: T, cmp: Compare<T>, lo: int, hi: int)
    ensures Keep(a + b, k, cmp, lo, hi) == Keep(a, k, cmp, lo, hi) + Keep(b, k, cmp, lo, hi)
  {
    if |a| > 0 {
      assert (a + b)[1..] == a[1..] + b;
      KeepConcat(a[1..], b, k, cmp, lo, hi);
    } else {
      assert a + b == b;
    }
  }

  /** Filtering by a coarser class first changes nothing when a finer filter follows. */
  lemma {:induction false} KeepNested<T>(s: seq<T>, k: T, cmp: Compare<T>, lo1: int, hi1: int, lo2: int, hi2: int)
    requires lo2 <= lo1 && hi1 <= hi2
    ensures Keep(Keep(s, k, cmp, lo1, hi1), k, cmp, lo2, hi2) == Keep(s, k, cmp, lo2, hi2)
  {
    if |s| > 0 {
      KeepNested(s[1..], k, cmp, lo1, hi1, lo2, hi2);
      var head := if EqualOn(cmp, s[0], k, lo1, hi1) then [s[0]] else [];
      KeepConcat(head, Keep(s[1..], k, cmp, lo1, hi1), k, cmp, lo2, hi2);
      if EqualOn(cmp, s[0], k, lo2, hi2) {
        assert EqualOn(cmp, s[0], k, lo1, hi1);
        assert Keep(head, k, cmp, lo2, hi2) == [s[0]] by {
          assert head[1..] == [];
        }
      } else {
        assert Keep(head, k, cmp, lo2, hi2) == [] by {
          if |head| > 0 { assert head[1..] == []; }
        }
      }
    }
  }

  /** A sequence whose every element differs from `k` on `[lo, hi)` keeps nothing. */
  lemma {:induction false} KeepNone<T>(s: seq<T>, k: T, cmp: Compare<T>, lo: int, hi: int)
    requires forall i :: 0 <= i < |s| ==> !EqualOn(cmp, s[i], k, lo, hi)
    ensures Keep(s, k, cmp, lo, hi) == []
  {
    if |s| > 0 {
      KeepNone(s[1..], k, cmp, lo, hi);
    }
  }

  // ----- the stable sort ----------------------------------------------------------------

  /** Inserts `x` into `t` just before the first element strictly greater than it at
      degree `d`, so that it lands after every element it ties with. */
  function Insert<T>(t: seq<T>, x: T, cmp: Compare<T>, d: int): (r: seq<T>)
    ensures |r| == |t| + 1
    decreases |t|
  {
    if |t| == 0 then [x]
    else if cmp(x, t[0], d) < 0 then [x] + t
    else [t[0]] + Insert(t[1..], x, cmp, d)
  }

  /** Stable sort at degree `d`: each element is inserted after all earlier ties. */
  function Sort<T>(s: seq<T>, cmp: Compare<T>, d: int): (r: seq<T>)
    ensures |r| == |s|
    decreases |s|
  {
    if |s| == 0 then []
    else Insert(Sort(s[..|s| - 1], cmp, d), s[|s| - 1], cmp, d)
  }

  lemma {:induction false} InsertPermutes<T>(t: seq<T>, x: T, cmp: Compare<T>, d: int)
    ensures multiset(Insert(t, x, cmp, d)) == multiset(t) + multiset{x}
    decreases |t|
  {
    if |t| > 0 && cmp(x, t[0], d) >= 0 {
      InsertPermutes(t[1..], x, cmp, d);
      assert t == [t[0]] + t[1..];
    }
  }

  /** The sort only permutes its input. */
  lemma {:induction false} SortPermutes<T>(s: seq<T>, cmp: Compare<T>, d: int)
    ensures multiset(Sort(s, cmp, d)) == multiset(s)
    decreases |s|
  {
    if |s| > 0 {
      SortPermutes(s[..|s| - 1], cmp, d);
      InsertPermutes(Sort(s[..|s| - 1], cmp, d), s[|s| - 1], cmp, d);
      assert s == s[..|s| - 1] + [s[|s| - 1]];
    }
  }

  lemma {:induction false} InsertSorted<T(!new)>(t: seq<T>, x: T, cmp: Compare<T>, d: int)
    requires TotalPreorder(cmp, d)
    requires SortedAt(cmp, t, d)
    ensures SortedAt(cmp, Insert(t, x, cmp, d), d)
    decreases |t|
  {
    var r := Insert(t, x, cmp, d);
    if |t| == 0 {
    } else if cmp(x, t[0], d) < 0 {
      forall i, j | 0 <= i < j < |r|
        ensures cmp(r[i], r[j], d) <= 0
      {
        if i == 0 {
          assert r[j] == t[j - 1];
          if j > 1 {
            LessThenAtMost(cmp, d, x, t[0], t[j - 1]);
          }
        } else {
          assert r[i] == t[i - 1] && r[j] == t[j - 1];
        }
      }
    } else {
      var rest := Insert(t[1..], x, cmp, d);
      InsertSorted(t[1..], x, cmp, d);
      InsertPermutes(t[1..], x, cmp, d);
      assert r == [t[0]] + rest;
      forall i, j | 0 <= i < j < |r|
        ensures cmp(r[i], r[j], d) <= 0
      {
        if i == 0 {
          var y := r[j];
          assert y == rest[j - 1];
          assert y in multiset(rest);
          if y == x {
            NotLessFlips(cmp, d, x, t[0]);
          } else {
            assert y in multiset(t[1..]);
            var m :| 0 <= m < |t[1..]| && t[1..][m] == y;
            assert t[m + 1] == y;
          }
        } else {
          assert r[i] == rest[i - 1] && r[j] == rest[j - 1];
        }
      }
    }
  }

  lemma {:induction false} SortSorted<T(!new)>(s: seq<T>, cmp: Compare<T>, d: int)
    requires TotalPreorder(cmp, d)
    ensures SortedAt(cmp, Sort(s, cmp, d), d)
    decreases |s|
  {
    if |s| > 0 {
      SortSorted(s[..|s| - 1], cmp, d);
      InsertSorted(Sort(s[..|s| - 1], cmp, d), s[|s| - 1], cmp, d);
    }
  }

  /** Inserting `x` appends it to its own class and leaves every other class alone. */
  lemma {:induction false} InsertStable<T(!new)>(t: seq<T>, x: T, k: T, cmp: Compare<T>, d: int)
    requires TotalPreorder(cmp, d)
    requires SortedAt(cmp, t, d)
    ensures Keep(Insert(t, x, cmp, d), k, cmp, d, d + 1)
         == Keep(t, k, cmp, d, d + 1) + (if EqualOn(cmp, x, k, d, d + 1) then [x] else [])
    decreases |t|
  {
    KeepSingle(x, k, cmp, d, d + 1);
    hide TotalPreorder, SortedAt, EqualOn, Keep;
    if |t| == 0 {
      assert Insert(t, x, cmp, d) == [x];
    } else if cmp(x, t[0], d) < 0 {
      assert Insert(t, x, cmp, d) == [x] + t;
      KeepConcat([x], t, k, cmp, d, d + 1);
      if EqualOn(cmp, x, k, d, d + 1) {
        NoTiesAfterSmaller(t, x, k, cmp, d);
      }
    } else {
      var rest := Insert(t[1..], x, cmp, d);
      assert Insert(t, x, cmp, d) == [t[0]] + rest;
      SortedTail(cmp, t, d);
      hide Insert;
      InsertStable(t[1..], x, k, cmp, d);
      KeepConcat([t[0]], rest, k, cmp, d, d + 1);
      KeepConcat([t[0]], t[1..], k, cmp, d, d + 1);
      assert [t[0]] + t[1..] == t;
    }
  }

  lemma KeepSingle<T>(x: T, k: T, cmp: Compare<T>, lo: int, hi: int)
    ensures Keep([x], k, cmp, lo, hi) == if EqualOn(cmp, x, k, lo, hi) then [x] else []
  {
    assert [x][1..] == [];
  }

  /** Dropping the first element keeps a sequence sorted. */
  lemma SortedTail<T>(cmp: Compare<T>, t: seq<T>, d: int)
    requires SortedAt(cmp, t, d) && |t| > 0
    ensures SortedAt(cmp, t[1..], d)
  {
    forall i, j | 0 <= i < j < |t[1..]|
      ensures cmp(t[1..][i], t[1..][j], d) <= 0
    {
      assert t[1..][i] == t[i + 1] && t[1..][j] == t[j + 1];
    }
  }

  /** When `x` ties with `k` and sorts strictly before the head of sorted `t`, nothing in `t`
      ties with `k`. */
  lemma NoTiesAfterSmaller<T(!new)>(t: seq<T>, x: T, k: T, cmp: Compare<T>, d: int)
    requires TotalPreorder(cmp, d) && SortedAt(cmp, t, d)
    requires |t| > 0 && cmp(x, t[0], d) < 0 && EqualOn(cmp, x, k, d, d + 1)
    ensures Keep(t, k, cmp, d, d + 1) == []
  {
    assert cmp(x, k, d) == 0;
    forall i | 0 <= i < |t|
      ensures !EqualOn(cmp, t[i], k, d, d + 1)
    {
      if i > 0 {
        assert cmp(t[0], t[i], d) <= 0;
        LessThenAtMost(cmp, d, x, t[0], t[i]);
      }
      if cmp(t[i], k, d) == 0 {
        SameClass(cmp, d, x, t[i], k);
      }
    }
    KeepNone(t, k, cmp, d, d + 1);
  }

  /** The sort is stable: each class at degree `d` keeps its input order. */
  lemma {:induction false} SortStable<T(!new)>(s: seq<T>, k: T, cmp: Compare<T>, d: int)
    requires TotalPreorder(cmp, d)
    ensures Keep(Sort(s, cmp, d), k, cmp, d, d + 1) == Keep(s, k, cmp, d, d + 1)
    decreases |s|
  {
    if |s| > 0 {
      var p := s[..|s| - 1];
      var x := s[|s| - 1];
      var tail := if EqualOn(cmp, x, k, d, d + 1) then [x] else [];
      SortStable(p, k, cmp, d);
      SortSorted(p, cmp, d);
      InsertStable(Sort(p, cmp, d), x, k, cmp, d);
      assert Keep([x], k, cmp, d, d + 1) == tail by {
        assert [x][1..] == [];
      }
      KeepConcat(p, [x], k, cmp, d, d + 1);
      assert s == p + [x];
      calc {
        Keep(Sort(s, cmp, d), k, cmp, d, d + 1);
        Keep(Insert(Sort(p, cmp, d), x, cmp, d), k, cmp, d, d + 1);
        Keep(Sort(p, cmp, d), k, cmp, d, d + 1) + tail;
        Keep(p, k, cmp, d, d + 1) + Keep([x], k, cmp, d, d + 1);
        Keep(s, k, cmp, d, d + 1);
      }
    }
  }

  /** Sorting at a degree `d < hi` keeps every finer class `[lo, hi)` (with `lo <= d`) in
      input order: the whole-key stability the multi-degree sort relies on. */
  lemma SortKeepsFinerClasses<T(!new)>(s: seq<T>, k: T, cmp: Compare<T>, d: int, lo: int, hi: int)
    requires TotalPreorder(cmp, d)
    requires lo <= d < hi
    ensures Keep(Sort(s, cmp, d), k, cmp, lo, hi) == Keep(s, k, cmp, lo, hi)
  {
    SortStable(s, k, cmp, d);
    KeepNested(Sort(s, cmp, d), k, cmp, d, d + 1, lo, hi);
    KeepNested(s, k, cmp, d, d + 1, lo, hi);
  }
}
