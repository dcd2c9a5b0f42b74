/**
 * MultiCompare.rsort: hierarchical multi-key sort.
 *
 * The sort keeps a list of borders. A border `(q, g)` says that positions `q` and `q + 1`
 * were separated by the pass at degree `g`; the list always starts with `(-1, 0)` and ends
 * with `(n - 1, 0)`, so consecutive borders delimit the groups `(B[i], B[i + 1]]`. The pass
 * at degree `d` stably sorts every group at `d` and then inserts a border between every two
 * neighbours of a group that differ at `d`.
 *
 * The functions below state the passes; `MultiCompare.RSortLoops` is the loop-for-loop model
 * of the Java method and is proved to compute them.
 */
module MultiCompare {
  import opened StableSort

  datatype Border = Border(position: int, degree: int)

  /** The state the degree loop carries: the array as sorted so far and the borders. */
  datatype SortState<T> = SortState(sorted: seq<T>, borders: seq<Border>)

  predicate Increasing(B: seq<Border>) {
    forall i, j :: 0 <= i < j < |B| ==> B[i].position < B[j].position
  }

  /** The border list of an `n`-element array: `(-1, 0)` first, `(n - 1, 0)` last, positions
      strictly increasing. */
  predicate Framed(B: seq<Border>, n: int) {
    && |B| >= 2
    && B[0] == Border(-1, 0)
    && B[|B| - 1] == Border(n - 1, 0)
    && Increasing(B)
  }

  function Positions(B: seq<Border>): set<int> {
    set b | b in B :: b.position
  }

  /** Group `j`: the elements at positions `(B[j].position, B[j + 1].position]`. */
  function Group<T>(s: seq<T>, B: seq<Border>, j: int): seq<T>
    requires Framed(B, |s|) && 0 <= j < |B| - 1
  {
    s[B[j].position + 1 .. B[j + 1].position + 1]
  }

  /** Gluing an increasing list below `b` and one above it around `b`. */
  lemma IncreasingAround(a: seq<Border>, b: Border, c: seq<Border>)
    requires Increasing(a) && Increasing(c)
    requires forall x :: x in a ==> x.position < b.position
    requires forall x :: x in c ==> b.position < x.position
    ensures Increasing(a + [b] + c)
  {
    var r := a + [b] + c;
    forall i, j | 0 <= i < j < |r|
      ensures r[i].position < r[j].position
    {
      if j < |a| {
      } else if i < |a| {
        assert a[i] in a;
        if j > |a| {
          assert c[j - |a| - 1] in c;
        }
      } else if i == |a| {
        assert c[j - |a| - 1] in c;
      }
    }
  }

  lemma FramedIncreasing(B: seq<Border>, n: int)
    requires Framed(B, n)
    ensures Increasing(B)
  {
  }

  lemma FramedEnds(B: seq<Border>, n: int)
    requires Framed(B, n)
    ensures |B| >= 2 && B[0].position == -1 && B[|B| - 1].position == n - 1
  {
  }

  /** The bounds of group `i - 1`: it starts after position `B[i - 1].position >= -1` and ends
      at `B[i].position <= n - 1`, with at least one element. */
  lemma GroupBounds(B: seq<Border>, n: int, i: int)
    requires Framed(B, n) && 0 < i <= |B| - 1
    ensures -1 <= B[i - 1].position < B[i].position <= n - 1
  {
    assert B[0].position <= B[i - 1].position;
  }

  // ----- pass 1: stably sort every group at the current degree ---------------------------

  /** `Arrays.sort(mas, lo, hi, c)`: a stable sort of `s[lo..hi]` in place. */
  function SortRange<T>(s: seq<T>, lo: int, hi: int, cmp: Compare<T>, d: int): (r: seq<T>)
    requires 0 <= lo <= hi <= |s|
    ensures |r| == |s|
    ensures r[..lo] == s[..lo] && r[hi..] == s[hi..]
    ensures r[lo..hi] == Sort(s[lo..hi], cmp, d)
  {
    var m := Sort(s[lo..hi], cmp, d);
    seq(|s|, k requires 0 <= k < |s| => if lo <= k < hi then m[k - lo] else s[k])
  }

  /** The first `i` groups of `B` sorted at degree `d`, in the order the Java loop visits them. */
  function SortGroupsUpTo<T>(s: seq<T>, B: seq<Border>, cmp: Compare<T>, d: int, i: int): (r: seq<T>)
    requires Framed(B, |s|) && 0 <= i <= |B| - 1
    ensures |r| == |s|
    decreases i
  {
    if i == 0 then s
    else SortRange(SortGroupsUpTo(s, B, cmp, d, i - 1), B[i - 1].position + 1, B[i].position + 1, cmp, d)
  }

  lemma SortRangePermutes<T>(s: seq<T>, lo: int, hi: int, cmp: Compare<T>, d: int)
    requires 0 <= lo <= hi <= |s|
    ensures multiset(SortRange(s, lo, hi, cmp, d)) == multiset(s)
  {
    hide Sort;
    var r := SortRange(s, lo, hi, cmp, d);
    SortPermutes(s[lo..hi], cmp, d);
    assert s == s[..lo] + s[lo..hi] + s[hi..];
    assert r == r[..lo] + r[lo..hi] + r[hi..];
    assert multiset(r) == multiset(r[..lo]) + multiset(r[lo..hi]) + multiset(r[hi..]);
  }

  /** The pass only permutes the array. */
  lemma {:induction false} SortGroupsUpToPermutes<T>(s: seq<T>, B: seq<Border>, cmp: Compare<T>, d: int, i: int)
    requires Framed(B, |s|) && 0 <= i <= |B| - 1
    ensures multiset(SortGroupsUpTo(s, B, cmp, d, i)) == multiset(s)
    decreases i
  {
    hide SortRange;
    if i > 0 {
      SortGroupsUpToPermutes(s, B, cmp, d, i - 1);
      var prev := SortGroupsUpTo(s, B, cmp, d, i - 1);
      var lo, hi := B[i - 1].position + 1, B[i].position + 1;
      assert SortGroupsUpTo(s, B, cmp, d, i) == SortRange(prev, lo, hi, cmp, d);
      SortRangePermutes(prev, lo, hi, cmp, d);
    }
  }

  function SortGroups<T>(s: seq<T>, B: seq<Border>, cmp: Compare<T>, d: int): (r: seq<T>)
    requires Framed(B, |s|)
    ensures |r| == |s|
  {
    SortGroupsUpTo(s, B, cmp, d, |B| - 1)
  }

  /** A slice outside the replaced range `[lo, hi)` is unchanged. */
  lemma SliceOutside<T>(s: seq<T>, r: seq<T>, lo: int, hi: int, a: int, b: int)
    requires 0 <= lo <= hi <= |s| == |r|
    requires r[..lo] == s[..lo] && r[hi..] == s[hi..]
    requires 0 <= a <= b <= |s| && (b <= lo || hi <= a)
    ensures r[a..b] == s[a..b]
  {
    forall k | a <= k < b
      ensures r[k] == s[k]
    {
      if b <= lo {
        assert r[k] == r[..lo][k] && s[k] == s[..lo][k];
      } else {
        assert r[k] == r[hi..][k - hi] && s[k] == s[hi..][k - hi];
      }
    }
  }

  /** Sorting group `i` leaves every other group as it was. */
  lemma OtherGroupUnchanged<T>(s: seq<T>, B: seq<Border>, cmp: Compare<T>, d: int, i: int, j: int)
    requires Framed(B, |s|) && 0 <= i < |B| - 1 && 0 <= j < |B| - 1 && j != i
    ensures Group(SortRange(s, B[i].position + 1, B[i + 1].position + 1, cmp, d), B, j) == Group(s, B, j)
  {
    var lo, hi := B[i].position + 1, B[i + 1].position + 1;
    var r := SortRange(s, lo, hi, cmp, d);
    var a, b := B[j].position + 1, B[j + 1].position + 1;
    if j < i {
      assert b <= lo;
    } else {
      assert hi <= a;
    }
    assert b <= |s|;
    SliceOutside(s, r, lo, hi, a, b);
    assert r[a..b] == s[a..b];
  }

  /** Groups `[0, i)` sorted, groups `[i, |B| - 1)` as in `s`. */
  ghost predicate GroupsSortedBelow<T>(s: seq<T>, r: seq<T>, B: seq<Border>, cmp: Compare<T>, d: int, i: int)
    requires Framed(B, |s|) && |r| == |s|
  {
    && (forall j :: 0 <= j < i && j < |B| - 1 ==> Group(r, B, j) == Sort(Group(s, B, j), cmp, d))
    && (forall j :: i <= j < |B| - 1 && 0 <= j ==> Group(r, B, j) == Group(s, B, j))
  }

  lemma SortGroupStep<T>(s: seq<T>, prev: seq<T>, B: seq<Border>, cmp: Compare<T>, d: int, i: int)
    requires Framed(B, |s|) && |prev| == |s| && 0 < i <= |B| - 1
    requires GroupsSortedBelow(s, prev, B, cmp, d, i - 1)
    ensures GroupsSortedBelow(s, SortRange(prev, B[i - 1].position + 1, B[i].position + 1, cmp, d), B, cmp, d, i)
  {
    hide Sort;
    var lo, hi := B[i - 1].position + 1, B[i].position + 1;
    var r := SortRange(prev, lo, hi, cmp, d);
    assert Group(r, B, i - 1) == r[lo..hi];
    assert Group(prev, B, i - 1) == prev[lo..hi];
    forall j | 0 <= j < |B| - 1 && j != i - 1
      ensures Group(r, B, j) == Group(prev, B, j)
    {
      OtherGroupUnchanged(prev, B, cmp, d, i - 1, j);
    }
  }

  /** After the pass, group `j` holds the stable sort of what it held before. */
  lemma {:induction false} SortGroupsUpToShape<T>(s: seq<T>, B: seq<Border>, cmp: Compare<T>, d: int, i: int)
    requires Framed(B, |s|) && 0 <= i <= |B| - 1
    ensures GroupsSortedBelow(s, SortGroupsUpTo(s, B, cmp, d, i), B, cmp, d, i)
    decreases i
  {
    hide SortRange;
    if i > 0 {
      SortGroupsUpToShape(s, B, cmp, d, i - 1);
      var prev := SortGroupsUpTo(s, B, cmp, d, i - 1);
      var lo, hi := B[i - 1].position + 1, B[i].position + 1;
      assert SortGroupsUpTo(s, B, cmp, d, i) == SortRange(prev, lo, hi, cmp, d);
      SortGroupStep(s, prev, B, cmp, d, i);
    }
  }

  /** Sorting a range at a degree `d` with `lo <= d < hi` keeps every class on degrees
      `[lo, hi)` in order. */
  lemma SortRangeStable<T(!new)>(p: seq<T>, a: int, b: int, cmp: Compare<T>, d: int, k: T, lo: int, hi: int)
    requires 0 <= a <= b <= |p|
    requires TotalPreorder(cmp, d) && lo <= d < hi
    ensures Keep(SortRange(p, a, b, cmp, d), k, cmp, lo, hi) == Keep(p, k, cmp, lo, hi)
  {
    hide Sort, Keep;
    var r := SortRange(p, a, b, cmp, d);
    assert p == p[..a] + p[a..b] + p[b..];
    assert r == r[..a] + r[a..b] + r[b..];
    KeepConcat(p[..a] + p[a..b], p[b..], k, cmp, lo, hi);
    KeepConcat(p[..a], p[a..b], k, cmp, lo, hi);
    KeepConcat(r[..a] + r[a..b], r[b..], k, cmp, lo, hi);
    KeepConcat(r[..a], r[a..b], k, cmp, lo, hi);
    SortKeepsFinerClasses(p[a..b], k, cmp, d, lo, hi);
  }

  lemma {:induction false} SortGroupsUpToStable<T(!new)>(s: seq<T>, B: seq<Border>, cmp: Compare<T>, d: int, i: int, k: T, lo: int, hi: int)
    requires Framed(B, |s|) && 0 <= i <= |B| - 1
    requires TotalPreorder(cmp, d) && lo <= d < hi
    ensures Keep(SortGroupsUpTo(s, B, cmp, d, i), k, cmp, lo, hi) == Keep(s, k, cmp, lo, hi)
    decreases i
  {
    hide SortRange;
    if i > 0 {
      SortGroupsUpToStable(s, B, cmp, d, i - 1, k, lo, hi);
      var prev := SortGroupsUpTo(s, B, cmp, d, i - 1);
      var a, b := B[i - 1].position + 1, B[i].position + 1;
      assert SortGroupsUpTo(s, B, cmp, d, i) == SortRange(prev, a, b, cmp, d);
      SortRangeStable(prev, a, b, cmp, d, k, lo, hi);
    }
  }

  // ----- pass 2: split every group where neighbours differ at the current degree ---------

  /** Borders `(q, d)` for every `q` in `[lo, hi)` with `s[q]` and `s[q + 1]` different at `d`,
      ascending. */
  function Split<T>(s: seq<T>, lo: int, hi: int, cmp: Compare<T>, d: int): seq<Border>
    requires 0 <= lo && hi < |s|
    decreases hi - lo
  {
    if hi <= lo then []
    else Split(s, lo, hi - 1, cmp, d) + (if cmp(s[hi - 1], s[hi], d) != 0 then [Border(hi - 1, d)] else [])
  }

  /** The refined border list up to (not including) old border `i`. */
  function RefinedPrefix<T>(s: seq<T>, B: seq<Border>, cmp: Compare<T>, d: int, i: int): seq<Border>
    requires Framed(B, |s|) && 0 <= i <= |B| - 1
    decreases i
  {
    if i == 0 then []
    else RefinedPrefix(s, B, cmp, d, i - 1) + [B[i - 1]] + Split(s, B[i - 1].position + 1, B[i].position, cmp, d)
  }

  function Refine<T>(s: seq<T>, B: seq<Border>, cmp: Compare<T>, d: int): seq<Border>
    requires Framed(B, |s|)
  {
    RefinedPrefix(s, B, cmp, d, |B| - 1) + [B[|B| - 1]]
  }

  /** A border the pass at degree `d` adds: strictly inside an old group, between two
      neighbours that differ at `d`. */
  predicate NewBorder<T>(s: seq<T>, B: seq<Border>, cmp: Compare<T>, d: int, b: Border) {
    && b.degree == d
    && 0 <= b.position < |s| - 1
    && b.position !in Positions(B)
    && cmp(s[b.position], s[b.position + 1], d) != 0
  }

  lemma IncreasingConcat(a: seq<Border>, b: seq<Border>)
    requires Increasing(a) && Increasing(b)
    requires forall i, j :: 0 <= i < |a| && 0 <= j < |b| ==> a[i].position < b[j].position
    ensures Increasing(a + b)
  {
  }

  lemma SplitUnfold<T>(s: seq<T>, lo: int, hi: int, cmp: Compare<T>, d: int)
    requires 0 <= lo < hi < |s|
    ensures Split(s, lo, hi, cmp, d) ==
            Split(s, lo, hi - 1, cmp, d) + (if cmp(s[hi - 1], s[hi], d) != 0 then [Border(hi - 1, d)] else [])
  {
  }

  /** The new borders of one group, in increasing position. */
  lemma {:induction false} SplitIncreasing<T>(s: seq<T>, lo: int, hi: int, cmp: Compare<T>, d: int)
    requires 0 <= lo && hi < |s|
    ensures Increasing(Split(s, lo, hi, cmp, d))
    ensures forall b :: b in Split(s, lo, hi, cmp, d) ==> b.position < hi
    decreases hi - lo
  {
    if hi <= lo {
      assert Split(s, lo, hi, cmp, d) == [] && Increasing([]);
    }
    hide Split, Increasing;
    if hi > lo {
      SplitIncreasing(s, lo, hi - 1, cmp, d);
      SplitUnfold(s, lo, hi, cmp, d);
      var p := Split(s, lo, hi - 1, cmp, d);
      var last := if cmp(s[hi - 1], s[hi], d) != 0 then [Border(hi - 1, d)] else [];
      forall i, j | 0 <= i < |p| && 0 <= j < |last|
        ensures p[i].position < last[j].position
      {
        assert p[i] in p;
      }
      IncreasingConcat(p, last);
    }
  }

  /** Every new border of one group sits between two neighbours that differ at `d`. */
  lemma {:induction false} SplitMembers<T>(s: seq<T>, lo: int, hi: int, cmp: Compare<T>, d: int)
    requires 0 <= lo && hi < |s|
    ensures forall b :: b in Split(s, lo, hi, cmp, d) ==>
              b.degree == d && lo <= b.position < hi && cmp(s[b.position], s[b.position + 1], d) != 0
    decreases hi - lo
  {
    if hi <= lo {
      assert Split(s, lo, hi, cmp, d) == [];
    }
    hide Split;
    if hi > lo {
      SplitMembers(s, lo, hi - 1, cmp, d);
      SplitUnfold(s, lo, hi, cmp, d);
    }
  }

  /** Every pair of neighbours in the group that differs at `d` gets a border. */
  lemma {:induction false} SplitComplete<T>(s: seq<T>, lo: int, hi: int, cmp: Compare<T>, d: int)
    requires 0 <= lo && hi < |s|
    ensures forall q :: lo <= q < hi && cmp(s[q], s[q + 1], d) != 0 ==> Border(q, d) in Split(s, lo, hi, cmp, d)
    decreases hi - lo
  {
    hide Split;
    if hi > lo {
      SplitComplete(s, lo, hi - 1, cmp, d);
      SplitUnfold(s, lo, hi, cmp, d);
      var p := Split(s, lo, hi - 1, cmp, d);
      var last := if cmp(s[hi - 1], s[hi], d) != 0 then [Border(hi - 1, d)] else [];
      forall q | lo <= q < hi && cmp(s[q], s[q + 1], d) != 0
        ensures Border(q, d) in p + last
      {
        if q < hi - 1 {
          assert Border(q, d) in p;
        } else {
          assert last == [Border(q, d)];
        }
      }
    }
  }

  lemma SplitShape<T>(s: seq<T>, lo: int, hi: int, cmp: Compare<T>, d: int)
    requires 0 <= lo && hi < |s|
    ensures Increasing(Split(s, lo, hi, cmp, d))
    ensures forall b :: b in Split(s, lo, hi, cmp, d) ==>
              b.degree == d && lo <= b.position < hi && cmp(s[b.position], s[b.position + 1], d) != 0
    ensures forall q :: lo <= q < hi && cmp(s[q], s[q + 1], d) != 0 ==> Border(q, d) in Split(s, lo, hi, cmp, d)
  {
    SplitIncreasing(s, lo, hi, cmp, d);
    SplitMembers(s, lo, hi, cmp, d);
    SplitComplete(s, lo, hi, cmp, d);
  }

  /** A position strictly between two consecutive borders is not a border. */
  lemma BetweenNotBorder(B: seq<Border>, j: int, q: int)
    requires Increasing(B) && 0 <= j < |B| - 1
    requires B[j].position < q < B[j + 1].position
    ensures q !in Positions(B)
  {
    forall m | 0 <= m < |B|
      ensures B[m].position != q
    {
      if m < j {
        assert B[m].position < B[j].position;
      } else if m > j + 1 {
        assert B[j + 1].position < B[m].position;
      }
    }
  }

  /** The refined prefix up to old border `i` is increasing, starts with `B[0]`, and stays
      before `B[i]`. */
  lemma {:induction false} PrefixOrdered<T>(s: seq<T>, B: seq<Border>, cmp: Compare<T>, d: int, i: int)
    requires Framed(B, |s|) && 0 <= i <= |B| - 1
    ensures Increasing(RefinedPrefix(s, B, cmp, d, i))
    ensures i > 0 ==> |RefinedPrefix(s, B, cmp, d, i)| > 0 && RefinedPrefix(s, B, cmp, d, i)[0] == B[0]
    ensures forall b :: b in RefinedPrefix(s, B, cmp, d, i) ==> b.position < B[i].position
    decreases i
  {
    RefineEnds(s, B, cmp, d);
    assert Increasing([]);
    hide RefinedPrefix, Framed, Split, Increasing;
    if i > 0 {
      PrefixOrdered(s, B, cmp, d, i - 1);
      RefinedPrefixNext(s, B, cmp, d, i - 1);
      var P := RefinedPrefix(s, B, cmp, d, i - 1);
      var lo, hi := B[i - 1].position + 1, B[i].position;
      var sp := Split(s, lo, hi, cmp, d);
      SplitIncreasing(s, lo, hi, cmp, d);
      SplitMembers(s, lo, hi, cmp, d);
      IncreasingAround(P, B[i - 1], sp);
      GroupBounds(B, |s|, i);
      forall b | b in P + [B[i - 1]] + sp
        ensures b.position < B[i].position
      {
      }
    }
  }

  /** The refined prefix up to old border `i` keeps every old border before it. */
  lemma {:induction false} PrefixKeepsOld<T>(s: seq<T>, B: seq<Border>, cmp: Compare<T>, d: int, i: int)
    requires Framed(B, |s|) && 0 <= i <= |B| - 1
    ensures forall j :: 0 <= j < i ==> B[j] in RefinedPrefix(s, B, cmp, d, i)
    decreases i
  {
    hide RefinedPrefix, Framed, Split;
    if i > 0 {
      PrefixKeepsOld(s, B, cmp, d, i - 1);
      RefinedPrefixNext(s, B, cmp, d, i - 1);
    }
  }

  /** Every border of the refined prefix is old or new. */
  lemma {:induction false} PrefixOldOrNew<T>(s: seq<T>, B: seq<Border>, cmp: Compare<T>, d: int, i: int)
    requires Framed(B, |s|) && 0 <= i <= |B| - 1
    ensures forall b :: b in RefinedPrefix(s, B, cmp, d, i) ==> b in B || NewBorder(s, B, cmp, d, b)
    decreases i
  {
    RefineEnds(s, B, cmp, d);
    FramedIncreasing(B, |s|);
    hide RefinedPrefix, Framed, Split;
    if i > 0 {
      PrefixOldOrNew(s, B, cmp, d, i - 1);
      RefinedPrefixNext(s, B, cmp, d, i - 1);
      var lo, hi := B[i - 1].position + 1, B[i].position;
      SplitMembers(s, lo, hi, cmp, d);
      forall b | b in Split(s, lo, hi, cmp, d)
        ensures NewBorder(s, B, cmp, d, b)
      {
        BetweenNotBorder(B, i - 1, b.position);
      }
    }
  }

  /** Every pair of neighbours before old border `i`, not split by an old border and
      differing at `d`, has its new border in the refined prefix. */
  lemma {:induction false} PrefixComplete<T>(s: seq<T>, B: seq<Border>, cmp: Compare<T>, d: int, i: int)
    requires Framed(B, |s|) && 0 <= i <= |B| - 1
    ensures forall q :: 0 <= q < B[i].position && q !in Positions(B) && cmp(s[q], s[q + 1], d) != 0 ==>
              Border(q, d) in RefinedPrefix(s, B, cmp, d, i)
    decreases i
  {
    FramedEnds(B, |s|);
    hide RefinedPrefix, Framed, Split;
    if i > 0 {
      PrefixComplete(s, B, cmp, d, i - 1);
      RefinedPrefixNext(s, B, cmp, d, i - 1);
      var lo, hi := B[i - 1].position + 1, B[i].position;
      SplitComplete(s, lo, hi, cmp, d);
      assert B[i - 1] in B;
      forall q | 0 <= q < B[i].position && q !in Positions(B) && cmp(s[q], s[q + 1], d) != 0
        ensures Border(q, d) in RefinedPrefix(s, B, cmp, d, i)
      {
        if q < B[i - 1].position {
          assert Border(q, d) in RefinedPrefix(s, B, cmp, d, i - 1);
        } else {
          assert Border(q, d) in Split(s, lo, hi, cmp, d);
        }
      }
    }
  }

  /** The pass never removes a border, keeps the frame, and adds exactly the new borders. */
  lemma RefineShape<T>(s: seq<T>, B: seq<Border>, cmp: Compare<T>, d: int)
    requires Framed(B, |s|)
    ensures Framed(Refine(s, B, cmp, d), |s|)
    ensures forall b :: b in B ==> b in Refine(s, B, cmp, d)
    ensures forall b :: b in Refine(s, B, cmp, d) ==> b in B || NewBorder(s, B, cmp, d, b)
    ensures forall q :: 0 <= q < |s| - 1 && q !in Positions(B) && cmp(s[q], s[q + 1], d) != 0 ==>
              Border(q, d) in Refine(s, B, cmp, d)
  {
    var n := |B| - 1;
    PrefixOrdered(s, B, cmp, d, n);
    PrefixKeepsOld(s, B, cmp, d, n);
    PrefixOldOrNew(s, B, cmp, d, n);
    PrefixComplete(s, B, cmp, d, n);
    var p := RefinedPrefix(s, B, cmp, d, n);
    assert forall m :: 0 <= m < |p| ==> p[m] in p;
    IncreasingConcat(p, [B[n]]);
    forall b | b in B
      ensures b in Refine(s, B, cmp, d)
    {
      var m :| 0 <= m < |B| && B[m] == b;
      if m < n { assert b in p; }
    }
  }

  lemma RefineFramed<T>(s: seq<T>, B: seq<Border>, cmp: Compare<T>, d: int)
    requires Framed(B, |s|)
    ensures Framed(Refine(s, B, cmp, d), |s|)
  {
    RefineShape(s, B, cmp, d);
  }

  // ----- facts about a valid comparator on a range of degrees ---------------------------

  lemma EqualOnReflexive<T(!new)>(cmp: Compare<T>, D: int, a: T, lo: int, hi: int)
    requires ValidComparator(cmp, D) && 0 <= lo && hi <= D
    ensures EqualOn(cmp, a, a, lo, hi)
  {
    forall e | lo <= e < hi
      ensures cmp(a, a, e) == 0
    {
      assert TotalPreorder(cmp, e);
      assert SignFlips(cmp, e, a, a);
    }
  }

  lemma EqualOnSymmetric<T(!new)>(cmp: Compare<T>, D: int, a: T, b: T, lo: int, hi: int)
    requires ValidComparator(cmp, D) && 0 <= lo && hi <= D
    requires EqualOn(cmp, a, b, lo, hi)
    ensures EqualOn(cmp, b, a, lo, hi)
  {
    forall e | lo <= e < hi
      ensures cmp(b, a, e) == 0
    {
      ZeroSymmetric(cmp, e, a, b);
    }
  }

  lemma EqualOnTransitive<T(!new)>(cmp: Compare<T>, D: int, a: T, b: T, c: T, lo: int, hi: int)
    requires ValidComparator(cmp, D) && 0 <= lo && hi <= D
    requires EqualOn(cmp, a, b, lo, hi) && EqualOn(cmp, b, c, lo, hi)
    ensures EqualOn(cmp, a, c, lo, hi)
  {
    forall e | lo <= e < hi
      ensures cmp(a, c, e) == 0
    {
      ZeroTransitive(cmp, e, a, b, c);
    }
  }

  /** `x` before `y` with the first difference at degree `g`. */
  predicate SplitAt<T>(cmp: Compare<T>, x: T, y: T, g: int) {
    EqualOn(cmp, x, y, 0, g) && cmp(x, y, g) < 0
  }

  /** Replacing both sides by elements equal to them below `d > g` keeps the split at `g`. */
  lemma SplitAtCongruent<T(!new)>(cmp: Compare<T>, D: int, x: T, y: T, x': T, y': T, g: int, d: int)
    requires ValidComparator(cmp, D) && 0 <= g < d <= D
    requires SplitAt(cmp, x, y, g)
    requires EqualOn(cmp, x', x, 0, d) && EqualOn(cmp, y', y, 0, d)
    ensures SplitAt(cmp, x', y', g)
  {
    EqualOnSymmetric(cmp, D, y', y, 0, g);
    EqualOnTransitive(cmp, D, x', x, y, 0, g);
    EqualOnTransitive(cmp, D, x', y, y', 0, g);
    assert cmp(x', x, g) == 0 && cmp(y', y, g) == 0;
    ZeroSymmetric(cmp, g, y', y);
    AtMostThenLess(cmp, g, x', x, y);
    LessThenAtMost(cmp, g, x', y, y');
  }

  /** Neighbours equal below `d` all through `[lo, hi)` make the whole range equal below `d`. */
  lemma {:induction false} ChainEqual<T(!new)>(cmp: Compare<T>, D: int, s: seq<T>, lo: int, hi: int, d: int, a: int, b: int)
    requires ValidComparator(cmp, D) && 0 <= d <= D
    requires 0 <= lo <= a <= b < hi <= |s|
    requires forall q :: lo <= q < hi - 1 ==> EqualOn(cmp, s[q], s[q + 1], 0, d)
    ensures EqualOn(cmp, s[a], s[b], 0, d) && EqualOn(cmp, s[b], s[a], 0, d)
    decreases b - a
  {
    if a == b {
      EqualOnReflexive(cmp, D, s[a], 0, d);
    } else {
      ChainEqual(cmp, D, s, lo, hi, d, a, b - 1);
      EqualOnTransitive(cmp, D, s[a], s[b - 1], s[b], 0, d);
      EqualOnSymmetric(cmp, D, s[a], s[b], 0, d);
    }
  }

  // ----- the invariant of the degree loop -------------------------------------------------

  /** Every border strictly inside the array carries a degree in `[0, d)`. */
  predicate DegreesBelow(B: seq<Border>, n: int, d: int) {
    forall b :: b in B && 0 <= b.position < n - 1 ==> 0 <= b.degree < d
  }

  /** After the passes for degrees `[0, d)`: every inner border `(q, g)` separates `s[q]` and
      `s[q + 1]` at `g` after they agree on `[0, g)`, and every other pair of neighbours agrees
      on `[0, d)`. */
  ghost predicate Refined<T>(cmp: Compare<T>, s: seq<T>, B: seq<Border>, d: int) {
    && DegreesBelow(B, |s|, d)
    && (forall b :: b in B && 0 <= b.position < |s| - 1 ==> SplitAt(cmp, s[b.position], s[b.position + 1], b.degree))
    && (forall q :: 0 <= q < |s| - 1 && q !in Positions(B) ==> EqualOn(cmp, s[q], s[q + 1], 0, d))
  }

  /** The group that holds position `q`. */
  lemma FindGroup(B: seq<Border>, n: int, q: int) returns (j: int)
    requires Framed(B, n) && 0 <= q < n
    ensures 0 <= j < |B| - 1 && B[j].position < q <= B[j + 1].position
  {
    j := 0;
    while B[j + 1].position < q
      invariant 0 <= j < |B| - 1 && B[j].position < q
      decreases |B| - j
    {
      j := j + 1;
    }
  }

  /** Every element of a sorted group comes from the same group before the sort. */
  lemma FromSameGroup<T>(s: seq<T>, r: seq<T>, B: seq<Border>, cmp: Compare<T>, d: int, j: int, p: int) returns (p': int)
    requires Framed(B, |s|) && |r| == |s| && 0 <= j < |B| - 1
    requires Group(r, B, j) == Sort(Group(s, B, j), cmp, d)
    requires B[j].position < p <= B[j + 1].position
    ensures B[j].position < p' <= B[j + 1].position && r[p] == s[p']
  {
    hide Framed, Sort;
    GroupBounds(B, |s|, j + 1);
    var lo := B[j].position + 1;
    var g := Group(s, B, j);
    SortPermutes(g, cmp, d);
    assert r[p] == Group(r, B, j)[p - lo] && r[p] in Group(r, B, j);
    assert r[p] in multiset(g);
    var m :| 0 <= m < |g| && g[m] == r[p];
    p' := lo + m;
  }

  /** Before the pass at `d`, a whole group agrees on `[0, d)`. */
  lemma GroupAgrees<T(!new)>(cmp: Compare<T>, D: int, s: seq<T>, B: seq<Border>, d: int, j: int, a: int, b: int)
    requires ValidComparator(cmp, D) && 0 <= d <= D
    requires Framed(B, |s|) && Refined(cmp, s, B, d) && 0 <= j < |B| - 1
    requires B[j].position < a <= B[j + 1].position && B[j].position < b <= B[j + 1].position
    ensures EqualOn(cmp, s[a], s[b], 0, d)
  {
    var lo, hi := B[j].position + 1, B[j + 1].position + 1;
    forall q | lo <= q < hi - 1
      ensures EqualOn(cmp, s[q], s[q + 1], 0, d)
    {
      BetweenNotBorder(B, j, q);
    }
    if a <= b {
      ChainEqual(cmp, D, s, lo, hi, d, a, b);
    } else {
      ChainEqual(cmp, D, s, lo, hi, d, b, a);
    }
  }

  lemma ValidAt<T(!new)>(cmp: Compare<T>, D: int, d: int)
    requires ValidComparator(cmp, D) && 0 <= d < D
    ensures TotalPreorder(cmp, d)
  {
  }

  lemma GroupSorted<T>(s: seq<T>, r: seq<T>, B: seq<Border>, cmp: Compare<T>, d: int, i: int, j: int)
    requires Framed(B, |s|) && |r| == |s| && GroupsSortedBelow(s, r, B, cmp, d, i)
    requires 0 <= j < i && j < |B| - 1
    ensures Group(r, B, j) == Sort(Group(s, B, j), cmp, d)
  {
  }

  lemma RefinedAt<T>(cmp: Compare<T>, s: seq<T>, B: seq<Border>, d: int, b: Border)
    requires Refined(cmp, s, B, d) && b in B && 0 <= b.position < |s| - 1
    ensures 0 <= b.degree < d && SplitAt(cmp, s[b.position], s[b.position + 1], b.degree)
  {
  }

  /** Inside a group, neighbours of the sorted array agree below `d` and are ordered at `d`. */
  lemma SortedNeighbours<T(!new)>(cmp: Compare<T>, D: int, s: seq<T>, r: seq<T>, B: seq<Border>, d: int, q: int)
    requires ValidComparator(cmp, D) && 0 <= d < D
    requires Framed(B, |s|) && Refined(cmp, s, B, d) && |r| == |s|
    requires GroupsSortedBelow(s, r, B, cmp, d, |B| - 1)
    requires 0 <= q < |s| - 1 && q !in Positions(B)
    ensures EqualOn(cmp, r[q], r[q + 1], 0, d) && cmp(r[q], r[q + 1], d) <= 0
  {
    hide Sort, ValidComparator, Framed, Refined, GroupsSortedBelow;
    var j := FindGroup(B, |s|, q);
    assert B[j + 1] in B;
    GroupBounds(B, |s|, j + 1);
    GroupSorted(s, r, B, cmp, d, |B| - 1, j);
    var a := FromSameGroup(s, r, B, cmp, d, j, q);
    var b := FromSameGroup(s, r, B, cmp, d, j, q + 1);
    GroupAgrees(cmp, D, s, B, d, j, a, b);
    var lo, hi := B[j].position + 1, B[j + 1].position + 1;
    ValidAt(cmp, D, d);
    SortSorted(Group(s, B, j), cmp, d);
    assert r[q] == Group(r, B, j)[q - lo] && r[q + 1] == Group(r, B, j)[q + 1 - lo];
  }

  /** An old border still separates its neighbours after the groups are sorted. */
  lemma SortedBorder<T(!new)>(cmp: Compare<T>, D: int, s: seq<T>, r: seq<T>, B: seq<Border>, d: int, b: Border)
    requires ValidComparator(cmp, D) && 0 <= d < D
    requires Framed(B, |s|) && Refined(cmp, s, B, d) && |r| == |s|
    requires GroupsSortedBelow(s, r, B, cmp, d, |B| - 1)
    requires b in B && 0 <= b.position < |s| - 1
    ensures SplitAt(cmp, r[b.position], r[b.position + 1], b.degree)
  {
    hide Sort, ValidComparator, Framed, Refined, GroupsSortedBelow;
    FramedEnds(B, |s|);
    var m :| 0 <= m < |B| && B[m] == b;
    var q := b.position;
    assert 0 < m < |B| - 1;
    GroupBounds(B, |s|, m);
    GroupBounds(B, |s|, m + 1);
    GroupSorted(s, r, B, cmp, d, |B| - 1, m - 1);
    GroupSorted(s, r, B, cmp, d, |B| - 1, m);
    var x := FromSameGroup(s, r, B, cmp, d, m - 1, q);
    var y := FromSameGroup(s, r, B, cmp, d, m, q + 1);
    GroupAgrees(cmp, D, s, B, d, m - 1, x, q);
    GroupAgrees(cmp, D, s, B, d, m, y, q + 1);
    RefinedAt(cmp, s, B, d, b);
    SplitAtCongruent(cmp, D, s[q], s[q + 1], r[q], r[q + 1], b.degree, d);
  }


  /** The sort pass keeps the invariant and leaves every group ordered at `d`. */
  lemma SortPassKeeps<T(!new)>(cmp: Compare<T>, D: int, s: seq<T>, B: seq<Border>, d: int)
    requires ValidComparator(cmp, D) && 0 <= d < D
    requires Framed(B, |s|) && Refined(cmp, s, B, d)
    ensures Refined(cmp, SortGroups(s, B, cmp, d), B, d)
    ensures forall q :: 0 <= q < |s| - 1 && q !in Positions(B) ==>
              cmp(SortGroups(s, B, cmp, d)[q], SortGroups(s, B, cmp, d)[q + 1], d) <= 0
  {
    hide SortGroupsUpTo, SortRange, Sort, Insert, Refine, Keep;
    var r := SortGroups(s, B, cmp, d);
    SortGroupsUpToShape(s, B, cmp, d, |B| - 1);
    forall q | 0 <= q < |s| - 1 && q !in Positions(B)
      ensures EqualOn(cmp, r[q], r[q + 1], 0, d) && cmp(r[q], r[q + 1], d) <= 0
    {
      SortedNeighbours(cmp, D, s, r, B, d, q);
    }
    forall b | b in B && 0 <= b.position < |s| - 1
      ensures SplitAt(cmp, r[b.position], r[b.position + 1], b.degree)
    {
      SortedBorder(cmp, D, s, r, B, d, b);
    }
  }

  /** The refine pass turns "ordered at `d`" into the invariant for `d + 1`. */
  lemma RefinePassKeeps<T(!new)>(cmp: Compare<T>, D: int, r: seq<T>, B: seq<Border>, d: int)
    requires ValidComparator(cmp, D) && 0 <= d < D
    requires Framed(B, |r|) && Refined(cmp, r, B, d)
    requires forall q :: 0 <= q < |r| - 1 && q !in Positions(B) ==> cmp(r[q], r[q + 1], d) <= 0
    ensures Refined(cmp, r, Refine(r, B, cmp, d), d + 1)
  {
    hide Refine, RefinedPrefix, Split, SortGroups, Keep;
    var R := Refine(r, B, cmp, d);
    RefineShape(r, B, cmp, d);
    forall q | 0 <= q < |r| - 1 && q !in Positions(R)
      ensures EqualOn(cmp, r[q], r[q + 1], 0, d + 1)
    {
      forall b | b in B
        ensures b.position != q
      {
        assert b in R;
      }
      assert q !in Positions(B);
      assert Border(q, d) !in R;
    }
  }

  // ----- the whole sort -------------------------------------------------------------------

  /** The array after the passes for degrees `[0, d)`. */
  function SortedUpTo<T>(mas: seq<T>, cmp: Compare<T>, d: int): (r: seq<T>)
    requires |mas| > 0 && d >= 0
    ensures |r| == |mas|
    decreases d, 0
  {
    hide SortGroups, Refine;
    if d == 0 then mas
    else SortGroups(SortedUpTo(mas, cmp, d - 1), BordersUpTo(mas, cmp, d - 1), cmp, d - 1)
  }

  /** The borders after the passes for degrees `[0, d)`. */
  function BordersUpTo<T>(mas: seq<T>, cmp: Compare<T>, d: int): (B: seq<Border>)
    requires |mas| > 0 && d >= 0
    ensures Framed(B, |mas|)
    decreases d, 1
  {
    hide SortGroups, Refine;
    if d == 0 then [Border(-1, 0), Border(|mas| - 1, 0)]
    else
      var m := SortedUpTo(mas, cmp, d);
      RefineFramed(m, BordersUpTo(mas, cmp, d - 1), cmp, d - 1);
      Refine(m, BordersUpTo(mas, cmp, d - 1), cmp, d - 1)
  }

  /** `rsort(mas, D)`: nothing for an empty array, otherwise the passes for degrees `[0, D)`. */
  function RSort<T>(mas: seq<T>, cmp: Compare<T>, D: int): SortState<T> {
    if |mas| == 0 then SortState([], [])
    else
      var d := if D > 0 then D else 0;
      SortState(SortedUpTo(mas, cmp, d), BordersUpTo(mas, cmp, d))
  }

  /** The pass for degree `d - 1` only permutes the array and adds borders of that degree. */
  lemma PassShape<T>(s: seq<T>, B: seq<Border>, cmp: Compare<T>, d: int)
    requires Framed(B, |s|) && 0 < d
    requires DegreesBelow(B, |s|, d - 1)
    ensures multiset(SortGroups(s, B, cmp, d - 1)) == multiset(s)
    ensures DegreesBelow(Refine(SortGroups(s, B, cmp, d - 1), B, cmp, d - 1), |s|, d)
  {
    hide SortGroupsUpTo, SortRange, Sort, Refine, RefinedPrefix, Split, Keep;
    var m := SortGroups(s, B, cmp, d - 1);
    var R := Refine(m, B, cmp, d - 1);
    SortGroupsUpToPermutes(s, B, cmp, d - 1, |B| - 1);
    RefineShape(m, B, cmp, d - 1);
    forall b | b in R && 0 <= b.position < |s| - 1
      ensures 0 <= b.degree < d
    {
      if b !in B {
        assert NewBorder(m, B, cmp, d - 1, b);
      }
    }
  }

  /** With a valid comparator the pass for degree `d - 1` keeps the invariant and the order
      of every class. */
  lemma PassRefines<T(!new)>(s: seq<T>, B: seq<Border>, cmp: Compare<T>, D: int, d: int, k: T)
    requires ValidComparator(cmp, D) && 0 < d <= D
    requires Framed(B, |s|) && Refined(cmp, s, B, d - 1)
    ensures Refined(cmp, SortGroups(s, B, cmp, d - 1), Refine(SortGroups(s, B, cmp, d - 1), B, cmp, d - 1), d)
    ensures Keep(SortGroups(s, B, cmp, d - 1), k, cmp, 0, D) == Keep(s, k, cmp, 0, D)
  {
    hide SortGroupsUpTo, SortRange, Sort, Refine, RefinedPrefix, Split, Keep;
    var m := SortGroups(s, B, cmp, d - 1);
    SortPassKeeps(cmp, D, s, B, d - 1);
    RefinePassKeeps(cmp, D, m, B, d - 1);
    SortGroupsUpToStable(s, B, cmp, d - 1, |B| - 1, k, 0, D);
  }

  /** The passes only permute the array, and every inner border carries a degree below `d`. */
  lemma {:induction false} RSortUpToShape<T>(mas: seq<T>, cmp: Compare<T>, d: int)
    requires |mas| > 0 && d >= 0
    ensures multiset(SortedUpTo(mas, cmp, d)) == multiset(mas)
    ensures DegreesBelow(BordersUpTo(mas, cmp, d), |mas|, d)
    decreases d
  {
    hide SortGroups, Refine, Keep;
    if d > 0 {
      RSortUpToShape(mas, cmp, d - 1);
      PassShape(SortedUpTo(mas, cmp, d - 1), BordersUpTo(mas, cmp, d - 1), cmp, d);
    }
  }

  /** With a valid comparator the invariant holds after every pass, and every class of
      elements equal on all `D` degrees keeps its input order. */
  lemma {:induction false} RSortUpToRefined<T(!new)>(mas: seq<T>, cmp: Compare<T>, D: int, d: int, k: T)
    requires |mas| > 0 && 0 <= d <= D && ValidComparator(cmp, D)
    ensures Refined(cmp, SortedUpTo(mas, cmp, d), BordersUpTo(mas, cmp, d), d)
    ensures Keep(SortedUpTo(mas, cmp, d), k, cmp, 0, D) == Keep(mas, k, cmp, 0, D)
    decreases d
  {
    hide SortGroups, Refine, Keep;
    if d > 0 {
      RSortUpToRefined(mas, cmp, D, d - 1, k);
      PassRefines(SortedUpTo(mas, cmp, d - 1), BordersUpTo(mas, cmp, d - 1), cmp, D, d, k);
    }
  }

  // ----- what the caller gets -------------------------------------------------------------

  /** `a` comes no later than `b` in the lexicographic order over degrees `[from, D)`: at the
      first degree where they differ, `a` compares lower. */
  predicate LexAtMost<T>(cmp: Compare<T>, a: T, b: T, from: int, D: int)
    decreases D - from
  {
    from >= D || cmp(a, b, from) < 0 || (cmp(a, b, from) == 0 && LexAtMost(cmp, a, b, from + 1, D))
  }

  lemma {:induction false} EqualLex<T>(cmp: Compare<T>, a: T, b: T, from: int, D: int)
    requires EqualOn(cmp, a, b, from, D)
    ensures LexAtMost(cmp, a, b, from, D)
    decreases D - from
  {
    if from < D {
      EqualLex(cmp, a, b, from + 1, D);
    }
  }

  lemma {:induction false} SplitLex<T>(cmp: Compare<T>, a: T, b: T, from: int, g: int, D: int)
    requires 0 <= from <= g < D && EqualOn(cmp, a, b, from, g) && cmp(a, b, g) < 0
    ensures LexAtMost(cmp, a, b, from, D)
    decreases g - from
  {
    if from < g {
      SplitLex(cmp, a, b, from + 1, g, D);
    }
  }

  /** The degree count an empty array never asks for: `D` of the comparator, or of the
      first element when the elements compare themselves. */
  datatype DegreeSource<-T> = FromComparator(count: int) | FromFirstElement(countOf: T -> int)

  /** What `MultiComparator` and `MultiComparable` supply: the comparison at a degree, the
      number of degrees, and the name of the block an element opens at a degree. */
  datatype Sorting<-T> = Sorting(compare: Compare<T>, degrees: DegreeSource<T>, blockName: (T, int) -> string)

  function DegreeCount<T>(degrees: DegreeSource<T>, mas: seq<T>): int
    requires |mas| > 0
  {
    match degrees
    case FromComparator(count) => count
    case FromFirstElement(countOf) => countOf(mas[0])
  }

  /** The sort only permutes the array; a non-empty array gets a framed border list whose
      inner borders carry degrees in `[0, D)`. */
  lemma RSortShape<T>(mas: seq<T>, cmp: Compare<T>, D: int)
    ensures multiset(RSort(mas, cmp, D).sorted) == multiset(mas)
    ensures |mas| == 0 ==> RSort(mas, cmp, D).borders == []
    ensures |mas| > 0 ==>
              Framed(RSort(mas, cmp, D).borders, |mas|) && DegreesBelow(RSort(mas, cmp, D).borders, |mas|, D)
  {
    if |mas| > 0 {
      RSortUpToShape(mas, cmp, if D > 0 then D else 0);
    }
  }

  /** The ordering facts after all passes, stated on the sorted array and the borders. */
  lemma FinalOrder<T(!new)>(mas: seq<T>, cmp: Compare<T>, D: int, s: seq<T>, B: seq<Border>)
    requires |mas| > 0 && ValidComparator(cmp, D)
    requires Framed(B, |mas|) && |s| == |mas| && Refined(cmp, s, B, if D > 0 then D else 0)
    ensures forall q :: 0 <= q < |mas| - 1 ==> LexAtMost(cmp, s[q], s[q + 1], 0, D)
    ensures forall q :: 0 <= q < |mas| - 1 ==> (q in Positions(B) <==> !EqualOn(cmp, s[q], s[q + 1], 0, D))
    ensures forall b :: b in B && 0 <= b.position < |mas| - 1 ==> SplitAt(cmp, s[b.position], s[b.position + 1], b.degree)
  {
    forall q | 0 <= q < |mas| - 1
      ensures LexAtMost(cmp, s[q], s[q + 1], 0, D)
      ensures q in Positions(B) <==> !EqualOn(cmp, s[q], s[q + 1], 0, D)
    {
      if q in Positions(B) {
        var b :| b in B && b.position == q;
        SplitLex(cmp, s[q], s[q + 1], 0, b.degree, D);
      } else {
        EqualLex(cmp, s[q], s[q + 1], 0, D);
      }
    }
  }

  /** With a valid comparator the result is ordered lexicographically over degrees `[0, D)`,
      every class of elements equal on all `D` degrees keeps its input order, and a border sits
      between two neighbours exactly when they differ on some degree, carrying the first
      degree at which they differ. */
  lemma RSortOrdered<T(!new)>(mas: seq<T>, cmp: Compare<T>, D: int, k: T)
    requires ValidComparator(cmp, D)
    ensures forall q :: 0 <= q < |mas| - 1 ==>
              LexAtMost(cmp, RSort(mas, cmp, D).sorted[q], RSort(mas, cmp, D).sorted[q + 1], 0, D)
    ensures Keep(RSort(mas, cmp, D).sorted, k, cmp, 0, D) == Keep(mas, k, cmp, 0, D)
    ensures forall q :: 0 <= q < |mas| - 1 ==>
              (q in Positions(RSort(mas, cmp, D).borders) <==>
               !EqualOn(cmp, RSort(mas, cmp, D).sorted[q], RSort(mas, cmp, D).sorted[q + 1], 0, D))
    ensures forall b :: b in RSort(mas, cmp, D).borders && 0 <= b.position < |mas| - 1 ==>
              SplitAt(cmp, RSort(mas, cmp, D).sorted[b.position], RSort(mas, cmp, D).sorted[b.position + 1], b.degree)
  {
    if |mas| > 0 {
      assert SortedUpTo(mas, cmp, 0) == mas;
      hide SortedUpTo, BordersUpTo, Keep;
      var d := if D > 0 then D else 0;
      var s, B := SortedUpTo(mas, cmp, d), BordersUpTo(mas, cmp, d);
      if D > 0 {
        RSortUpToRefined(mas, cmp, D, D, k);
      } else {
        RSortUpToRefined(mas, cmp, 0, 0, k);
      }
      FinalOrder(mas, cmp, D, s, B);
    }
  }

  /** The group loop of `rsort`: `Arrays.sort` on every group in turn, at the current degree. */
  method SortGroupsLoop<T>(mas: seq<T>, borders: seq<Border>, cmp: Compare<T>, degree: int) returns (sorted: seq<T>)
    requires Framed(borders, |mas|)
    ensures sorted == SortGroups(mas, borders, cmp, degree)
  {
    hide Sort, SortRange;
    sorted := mas;
    var i := 0;
    while i <= |borders| - 2
      invariant 0 <= i <= |borders| - 1
      invariant sorted == SortGroupsUpTo(mas, borders, cmp, degree, i)
    {
      sorted := SortRange(sorted, borders[i].position + 1, borders[i + 1].position + 1, cmp, degree);
      i := i + 1;
    }
  }

  /** The inner scan of `rsort`'s refining loop over one group `(left - 1, right]`; each new border goes in at
      `count`, which then moves past it. */
  method ScanGroup<T>(sorted: seq<T>, borders: seq<Border>, count: int, left: int, right: int,
                      cmp: Compare<T>, degree: int, ghost head: seq<Border>, ghost rest: seq<Border>)
    returns (borders': seq<Border>, count': int)
    requires 0 <= left <= right < |sorted|
    requires borders == head + rest && count == |head|
    ensures borders' == head + Split(sorted, left, right, cmp, degree) + rest
    ensures count' == |head| + |Split(sorted, left, right, cmp, degree)|
  {
    borders', count' := borders, count;
    var q := left;
    assert head + Split(sorted, left, q, cmp, degree) == head;
    while q <= right - 1
      invariant left <= q <= right
      invariant borders' == head + Split(sorted, left, q, cmp, degree) + rest
      invariant count' == |head| + |Split(sorted, left, q, cmp, degree)|
    {
      ghost var done := head + Split(sorted, left, q, cmp, degree);
      if cmp(sorted[q], sorted[q + 1], degree) != 0 {
        assert borders'[..count'] == done && borders'[count'..] == rest;
        borders' := borders'[..count'] + [Border(q, degree)] + borders'[count'..];
        count' := count' + 1;
      }
      assert Split(sorted, left, q + 1, cmp, degree) ==
             Split(sorted, left, q, cmp, degree) + (if cmp(sorted[q], sorted[q + 1], degree) != 0 then [Border(q, degree)] else []);
      q := q + 1;
    }
  }

  lemma PeelSlice<X>(p: seq<X>, t: seq<X>, i: int)
    requires 0 <= i < |t|
    ensures p + t[i..] == (p + [t[i]]) + t[i + 1..]
  {
    assert t[i..] == [t[i]] + t[i + 1..];
  }

  lemma RefineEnds<T>(s: seq<T>, B: seq<Border>, cmp: Compare<T>, d: int)
    requires Framed(B, |s|)
    ensures |B| >= 2 && RefinedPrefix(s, B, cmp, d, 0) == []
    ensures Refine(s, B, cmp, d) == RefinedPrefix(s, B, cmp, d, |B| - 1) + [B[|B| - 1]]
  {
  }

  lemma RefinedPrefixNext<T>(s: seq<T>, B: seq<Border>, cmp: Compare<T>, d: int, i: int)
    requires Framed(B, |s|) && 0 <= i < |B| - 1
    ensures 0 <= B[i].position + 1 <= B[i + 1].position < |s|
    ensures RefinedPrefix(s, B, cmp, d, i + 1) ==
            RefinedPrefix(s, B, cmp, d, i) + [B[i]] + Split(s, B[i].position + 1, B[i + 1].position, cmp, d)
  {
  }

  /** The refining loop of `rsort`: the scan over every old group, which turns `temp` into the refined list. */
  method RefineLoop<T>(sorted: seq<T>, temp: seq<Border>, cmp: Compare<T>, degree: int) returns (borders: seq<Border>)
    requires Framed(temp, |sorted|)
    ensures borders == Refine(sorted, temp, cmp, degree)
  {
    hide Split, RefinedPrefix, Framed, Refine;
    RefineEnds(sorted, temp, cmp, degree);
    borders := temp;
    var subSortingsCount := 0;
    var i := 0;
    while i <= |temp| - 2
      invariant 0 <= i <= |temp| - 1
      invariant borders == RefinedPrefix(sorted, temp, cmp, degree, i) + temp[i..]
      invariant subSortingsCount == |RefinedPrefix(sorted, temp, cmp, degree, i)|
    {
      ghost var prefix := RefinedPrefix(sorted, temp, cmp, degree, i);
      subSortingsCount := subSortingsCount + 1;
      var left, right := temp[i].position + 1, temp[i + 1].position;
      RefinedPrefixNext(sorted, temp, cmp, degree, i);
      ghost var head, rest := prefix + [temp[i]], temp[i + 1..];
      PeelSlice(prefix, temp, i);
      borders, subSortingsCount := ScanGroup(sorted, borders, subSortingsCount, left, right, cmp, degree, head, rest);
      i := i + 1;
    }
    assert i == |temp| - 1 && temp[i..] == [temp[i]];
  }

  /** `rsort` as the Java method runs it: the degree loop around the two
      loops above. */
  method RSortLoops<T>(mas: seq<T>, sorting: Sorting<T>) returns (sorted: seq<T>, borders: seq<Border>)
    ensures |mas| == 0 ==> sorted == [] && borders == []
    ensures |mas| > 0 ==> SortState(sorted, borders) == RSort(mas, sorting.compare, DegreeCount(sorting.degrees, mas))
  {
    hide SortGroups, Refine;
    if |mas| == 0 {
      return [], [];
    }
    var cmp := sorting.compare;
    var D := DegreeCount(sorting.degrees, mas);
    sorted := mas;
    borders := [Border(-1, 0), Border(|mas| - 1, 0)];
    var degree := 0;
    while degree < D
      invariant 0 <= degree && (degree <= D || degree == 0)
      invariant sorted == SortedUpTo(mas, cmp, degree) && borders == BordersUpTo(mas, cmp, degree)
    {
      sorted := SortGroupsLoop(sorted, borders, cmp, degree);
      assert sorted == SortedUpTo(mas, cmp, degree + 1);
      borders := RefineLoop(sorted, borders, cmp, degree);
      assert borders == BordersUpTo(mas, cmp, degree + 1);
      degree := degree + 1;
    }
  }

  /** `sort(T[])` and `sort(T[], MultiComparator)`: the array comes back
      permuted, and with a valid comparator it is in lexicographic order over all degrees with
      equal elements in their original order. */
  method SortArray<T(!new)>(mas: seq<T>, sorting: Sorting<T>) returns (sorted: seq<T>)
    ensures multiset(sorted) == multiset(mas)
    ensures |mas| > 0 && ValidComparator(sorting.compare, DegreeCount(sorting.degrees, mas)) ==>
              && (forall q :: 0 <= q < |sorted| - 1 ==>
                    LexAtMost(sorting.compare, sorted[q], sorted[q + 1], 0, DegreeCount(sorting.degrees, mas)))
              && (forall k :: Keep(sorted, k, sorting.compare, 0, DegreeCount(sorting.degrees, mas))
                              == Keep(mas, k, sorting.compare, 0, DegreeCount(sorting.degrees, mas)))
  {
    var borders;
    sorted, borders := RSortLoops(mas, sorting);
    if |mas| > 0 {
      var cmp, D := sorting.compare, DegreeCount(sorting.degrees, mas);
      RSortShape(mas, cmp, D);
      if ValidComparator(cmp, D) {
        forall k
          ensures Keep(sorted, k, cmp, 0, D) == Keep(mas, k, cmp, 0, D)
        {
          RSortOrdered(mas, cmp, D, k);
        }
        RSortOrdered(mas, cmp, D, mas[0]);
      }
    }
  }

  /** The `ListIterator` loop of both `sort(List)` overloads: `set` each list slot, front to
      back, from the sorted array. */
  method WriteBack<T>(list: seq<T>, arr: seq<T>) returns (list': seq<T>)
    requires |arr| == |list|
    ensures list' == arr
  {
    list' := list;
    var i := 0;
    while i < |arr|
      invariant 0 <= i <= |arr| && |list'| == |arr|
      invariant list'[..i] == arr[..i] && list'[i..] == list[i..]
    {
      list' := list'[i := arr[i]];
      i := i + 1;
    }
  }

  /** `sort(List)` and `sort(List, MultiComparator)`: copy to an array,
      sort it, write it back; the list ends up holding exactly what `sort` on an array gives. */
  method SortList<T(!new)>(list: seq<T>, sorting: Sorting<T>) returns (list': seq<T>)
    ensures multiset(list') == multiset(list)
    ensures |list| > 0 ==> list' == RSort(list, sorting.compare, DegreeCount(sorting.degrees, list)).sorted
  {
    var temp, borders := RSortLoops(list, sorting);
    list' := WriteBack(list, temp);
    if |list| > 0 {
      RSortShape(list, sorting.compare, DegreeCount(sorting.degrees, list));
    }
  }
}
