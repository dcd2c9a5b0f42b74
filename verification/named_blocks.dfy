/**
 * `sortNamed`: the sorted array with a named header in front of every block.
 *
 * After `rsort`, the element that opens the group after border `(p, g)` gets one
 * `SortedBlockName` header for every degree `g, g + 1, ..., D - 1`, each named by the
 * comparator (or by the element itself) at that degree. `Named` states the result as a
 * function of the sorted array and its borders; `NamedLoops` is the Java insertion loop with
 * its shifting of border positions, and is proved to compute `Named`.
 */
module NamedBlocks {
  import opened StableSort
  import opened MultiCompare
  import opened Common

  /** An entry of the returned `ArrayList<Object>`: a sorted element or a block header. */
  datatype Entry<T> = Element(value: T) | BlockName(degree: int, name: string)

  function Elements<T>(s: seq<T>): (r: seq<Entry<T>>)
    ensures |r| == |s|
    ensures forall k :: 0 <= k < |s| ==> r[k] == Element(s[k])
  {
    seq(|s|, k requires 0 <= k < |s| => Element(s[k]))
  }

  /** The headers that open a block whose first element is `x` and whose border has degree
      `g`: one per degree in `[g, D)`, in increasing degree. */
  function Headers<T>(x: T, g: int, D: int, name: (T, int) -> string): (r: seq<Entry<T>>)
    ensures |r| == if D > g then D - g else 0
    ensures forall k :: 0 <= k < |r| ==> r[k] == BlockName(g + k, name(x, g + k))
  {
    seq(if D > g then D - g else 0, k requires 0 <= k => BlockName(g + k, name(x, g + k)))
  }

  /** The first `i` blocks, each preceded by its headers. */
  function NamedPrefix<T>(s: seq<T>, B: seq<Border>, D: int, name: (T, int) -> string, i: int): seq<Entry<T>>
    requires Framed(B, |s|) && 0 <= i <= |B| - 1
    decreases i
  {
    if i == 0 then []
    else
      assert B[i - 1].position < B[i].position;
      NamedPrefix(s, B, D, name, i - 1)
      + Headers(s[B[i - 1].position + 1], B[i - 1].degree, D, name)
      + Elements(Group(s, B, i - 1))
  }

  /** What `rsortAndReturnArrayWithNamedBlocks` returns for sorted array `s` and borders `B`. */
  function Named<T>(s: seq<T>, B: seq<Border>, D: int, name: (T, int) -> string): seq<Entry<T>>
    requires Framed(B, |s|)
  {
    NamedPrefix(s, B, D, name, |B| - 1)
  }

  // ----- the elements, in order, are exactly the sorted array -----------------------------

  /** The elements of a result, with the headers dropped. */
  function Strip<T>(e: seq<Entry<T>>): (r: seq<T>)
    ensures |r| <= |e|
  {
    if |e| == 0 then []
    else (if e[0].Element? then [e[0].value] else []) + Strip(e[1..])
  }

  lemma {:induction false} StripConcat<T>(a: seq<Entry<T>>, b: seq<Entry<T>>)
    ensures Strip(a + b) == Strip(a) + Strip(b)
    decreases |a|
  {
    if |a| > 0 {
      assert (a + b)[1..] == a[1..] + b;
      StripConcat(a[1..], b);
    } else {
      assert a + b == b;
    }
  }

  lemma {:induction false} StripElements<T>(s: seq<T>)
    ensures Strip(Elements(s)) == s
    decreases |s|
  {
    if |s| > 0 {
      assert Elements(s)[1..] == Elements(s[1..]);
      StripElements(s[1..]);
    }
  }

  lemma {:induction false} StripHeaders<T>(h: seq<Entry<T>>)
    requires forall k :: 0 <= k < |h| ==> h[k].BlockName?
    ensures Strip(h) == []
    decreases |h|
  {
    if |h| > 0 {
      StripHeaders(h[1..]);
    }
  }

  /** One block of a result: the headers, then the block's elements. */
  lemma StripBlock<T>(p: seq<Entry<T>>, h: seq<Entry<T>>, g: seq<T>)
    requires forall k :: 0 <= k < |h| ==> h[k].BlockName?
    ensures Strip(p + h + Elements(g)) == Strip(p) + g
  {
    hide Strip, Elements;
    StripConcat(p + h, Elements(g));
    StripConcat(p, h);
    StripHeaders(h);
    StripElements(g);
  }

  lemma NamedPrefixUnfold<T>(s: seq<T>, B: seq<Border>, D: int, name: (T, int) -> string, i: int)
    requires Framed(B, |s|) && 0 < i <= |B| - 1
    ensures -1 <= B[i - 1].position < B[i].position <= |s| - 1
    ensures NamedPrefix(s, B, D, name, i) ==
            NamedPrefix(s, B, D, name, i - 1) + Headers(s[B[i - 1].position + 1], B[i - 1].degree, D, name)
            + Elements(s[B[i - 1].position + 1 .. B[i].position + 1])
  {
    GroupBounds(B, |s|, i);
  }

  lemma {:induction false} NamedPrefixStrip<T>(s: seq<T>, B: seq<Border>, D: int, name: (T, int) -> string, i: int)
    requires Framed(B, |s|) && 0 <= i <= |B| - 1
    ensures Strip(NamedPrefix(s, B, D, name, i)) == s[..B[i].position + 1]
    decreases i
  {
    FramedEnds(B, |s|);
    assert NamedPrefix(s, B, D, name, 0) == [] && Strip<T>([]) == [];
    hide Framed, NamedPrefix, Strip;
    if i > 0 {
      NamedPrefixStrip(s, B, D, name, i - 1);
      NamedPrefixStripStep(s, B, D, name, i);
    }
  }

  /** One block of the induction in `NamedPrefixStrip`. */
  lemma NamedPrefixStripStep<T>(s: seq<T>, B: seq<Border>, D: int, name: (T, int) -> string, i: int)
    requires Framed(B, |s|) && 0 < i <= |B| - 1
    requires Strip(NamedPrefix(s, B, D, name, i - 1)) == s[..B[i - 1].position + 1]
    ensures Strip(NamedPrefix(s, B, D, name, i)) == s[..B[i].position + 1]
  {
    hide Framed, NamedPrefix, Headers, Elements, Strip;
    NamedPrefixUnfold(s, B, D, name, i);
    var a, b := B[i - 1].position + 1, B[i].position + 1;
    StripBlock(NamedPrefix(s, B, D, name, i - 1), Headers(s[a], B[i - 1].degree, D, name), s[a..b]);
    assert s[..b] == s[..a] + s[a..b];
  }

  /** Dropping the headers gives back the sorted array. */
  lemma NamedStrip<T>(s: seq<T>, B: seq<Border>, D: int, name: (T, int) -> string)
    requires Framed(B, |s|)
    ensures Strip(Named(s, B, D, name)) == s
  {
    NamedPrefixStrip(s, B, D, name, |B| - 1);
    assert s[..|s|] == s;
  }

  // ----- how many headers ----------------------------------------------------------------

  /** The number of headers in front of the first `i` blocks. */
  function HeaderCount(B: seq<Border>, D: int, i: int): (r: int)
    requires 0 <= i <= |B|
    ensures r >= 0
  {
    if i == 0 then 0 else HeaderCount(B, D, i - 1) + (if D > B[i - 1].degree then D - B[i - 1].degree else 0)
  }

  lemma {:induction false} NamedPrefixLength<T>(s: seq<T>, B: seq<Border>, D: int, name: (T, int) -> string, i: int)
    requires Framed(B, |s|) && 0 <= i <= |B| - 1
    ensures |NamedPrefix(s, B, D, name, i)| == B[i].position + 1 + HeaderCount(B, D, i)
    decreases i
  {
    FramedEnds(B, |s|);
    assert NamedPrefix(s, B, D, name, 0) == [];
    hide Framed, NamedPrefix;
    if i > 0 {
      NamedPrefixLength(s, B, D, name, i - 1);
      NamedPrefixUnfold(s, B, D, name, i);
    }
  }

  /** The result holds every element once plus, for every border but the last, one header per
      degree from the border's degree up to `D`. */
  lemma NamedLength<T>(s: seq<T>, B: seq<Border>, D: int, name: (T, int) -> string)
    requires Framed(B, |s|)
    ensures |Named(s, B, D, name)| == |s| + HeaderCount(B, D, |B| - 1)
  {
    NamedPrefixLength(s, B, D, name, |B| - 1);
  }

  // ----- every header is named after the element that opens its block ---------------------

  /** The first element at or after index `k`. */
  function NextElement<T>(e: seq<Entry<T>>, k: nat): (r: Option<T>)
    decreases |e| - k
  {
    if k >= |e| then None
    else if e[k].Element? then Some(e[k].value)
    else NextElement(e, k + 1)
  }

  lemma {:induction false} NextElementAppend<T>(a: seq<Entry<T>>, b: seq<Entry<T>>, k: nat)
    requires NextElement(a, k).Some?
    ensures NextElement(a + b, k) == NextElement(a, k)
    decreases |a| - k
  {
    if k < |a| && !a[k].Element? {
      NextElementAppend(a, b, k + 1);
    }
  }

  lemma {:induction false} NextElementPastHeaders<T>(h: seq<Entry<T>>, x: T, rest: seq<Entry<T>>, k: nat)
    requires forall j :: 0 <= j < |h| ==> h[j].BlockName?
    requires k <= |h|
    ensures NextElement(h + [Element(x)] + rest, k) == Some(x)
    decreases |h| - k
  {
    if k < |h| {
      NextElementPastHeaders(h, x, rest, k + 1);
    }
  }

  /** Every header in a named prefix is named, at its own degree, after the next element. */
  ghost predicate HeadersNameNext<T>(e: seq<Entry<T>>, name: (T, int) -> string) {
    forall k :: 0 <= k < |e| && e[k].BlockName? ==>
      NextElement(e, k).Some? && e[k].name == name(NextElement(e, k).value, e[k].degree)
  }

  /** Appending one block keeps every header named after its next element. */
  lemma NamesBlock<T>(p: seq<Entry<T>>, h: seq<Entry<T>>, g: seq<T>, name: (T, int) -> string)
    requires HeadersNameNext(p, name) && |g| > 0
    requires forall k :: 0 <= k < |h| ==> h[k].BlockName? && h[k].name == name(g[0], h[k].degree)
    ensures HeadersNameNext(p + h + Elements(g), name)
  {
    var x := g[0];
    var tail := Elements(g)[1..];
    var e := p + h + Elements(g);
    assert Elements(g) == [Element(x)] + tail;
    assert e == p + (h + [Element(x)] + tail);
    hide Elements;
    forall k | 0 <= k < |e| && e[k].BlockName?
      ensures NextElement(e, k).Some? && e[k].name == name(NextElement(e, k).value, e[k].degree)
    {
      if k < |p| {
        assert e[k] == p[k];
        NextElementAppend(p, h + [Element(x)] + tail, k);
      } else {
        assert k < |p| + |h|;
        NextElementShift(p, h + [Element(x)] + tail, k - |p|);
        NextElementPastHeaders(h, x, tail, k - |p|);
        assert e[k] == h[k - |p|];
      }
    }
  }

  lemma {:induction false} NamedPrefixNames<T>(s: seq<T>, B: seq<Border>, D: int, name: (T, int) -> string, i: int)
    requires Framed(B, |s|) && 0 <= i <= |B| - 1
    ensures HeadersNameNext(NamedPrefix(s, B, D, name, i), name)
    decreases i
  {
    assert NamedPrefix(s, B, D, name, 0) == [] && HeadersNameNext<T>([], name);
    hide Framed, NamedPrefix, HeadersNameNext;
    if i > 0 {
      NamedPrefixNames(s, B, D, name, i - 1);
      NamedPrefixNamesStep(s, B, D, name, i);
    }
  }

  /** One block of the induction in `NamedPrefixNames`. */
  lemma NamedPrefixNamesStep<T>(s: seq<T>, B: seq<Border>, D: int, name: (T, int) -> string, i: int)
    requires Framed(B, |s|) && 0 < i <= |B| - 1
    requires HeadersNameNext(NamedPrefix(s, B, D, name, i - 1), name)
    ensures HeadersNameNext(NamedPrefix(s, B, D, name, i), name)
  {
    hide Framed, NamedPrefix, HeadersNameNext, Headers, Elements;
    NamedPrefixUnfold(s, B, D, name, i);
    var a, b := B[i - 1].position + 1, B[i].position + 1;
    assert s[a..b][0] == s[a];
    NamesBlock(NamedPrefix(s, B, D, name, i - 1), Headers(s[a], B[i - 1].degree, D, name), s[a..b], name);
  }

  lemma {:induction false} NextElementShift<T>(a: seq<Entry<T>>, b: seq<Entry<T>>, k: nat)
    ensures NextElement(a + b, |a| + k) == NextElement(b, k)
    decreases |b| - k
  {
    if k < |b| && !b[k].Element? {
      NextElementShift(a, b, k + 1);
    }
  }

  /** Every header in the result is named, at its degree, after the first element that
      follows it: the element that opens its block. */
  lemma NamedNames<T>(s: seq<T>, B: seq<Border>, D: int, name: (T, int) -> string)
    requires Framed(B, |s|)
    ensures HeadersNameNext(Named(s, B, D, name), name)
  {
    NamedPrefixNames(s, B, D, name, |B| - 1);
  }

  // ----- the Java loops ------------------------------------------------------------------

  /** How far the border-shifting loop of `rsortAndReturnArrayWithNamedBlocks` has moved
      border `i` after blocks `[0, i)`: by `D - degree` per earlier border, which can be
      negative. */
  function Shift(B: seq<Border>, D: int, i: int): int
    requires 0 <= i <= |B|
  {
    if i == 0 then 0 else Shift(B, D, i - 1) + (D - B[i - 1].degree)
  }

  /** Every border the naming loop visits has degree at most `D`, so each shift equals the
      number of headers inserted. */
  predicate HeadersFit(B: seq<Border>, D: int) {
    forall j :: 0 <= j < |B| - 2 ==> B[j].degree <= D
  }

  lemma {:induction false} ShiftCountsHeaders(B: seq<Border>, D: int, i: int)
    requires HeadersFit(B, D) && 0 <= i <= |B| - 2
    ensures Shift(B, D, i) == HeaderCount(B, D, i)
    decreases i
  {
    if i > 0 {
      ShiftCountsHeaders(B, D, i - 1);
    }
  }

  lemma ShiftNext(B: seq<Border>, D: int, i: int)
    requires 0 <= i < |B|
    ensures Shift(B, D, i + 1) == Shift(B, D, i) + (D - B[i].degree)
  {
  }

  lemma HeadersNext<T>(x: T, g: int, q: int, name: (T, int) -> string)
    requires g <= q
    ensures Headers(x, g, q + 1, name) == Headers(x, g, q, name) + [BlockName(q, name(x, q))]
  {
  }

  /** The header loop of `rsortAndReturnArrayWithNamedBlocks`: insert the headers of degrees
      `[g, D)` one by one in front of the element at `at`, each named after the element
      found at the insertion point. */
  method InsertHeaders<T>(ret: seq<Entry<T>>, at: int, g: int, D: int, name: (T, int) -> string,
                          ghost p: seq<Entry<T>>, ghost t: seq<T>)
    returns (ret': seq<Entry<T>>)
    requires ret == p + Elements(t) && at == |p| && |t| > 0
    ensures ret' == p + Headers(t[0], g, D, name) + Elements(t)
  {
    ret' := ret;
    var q, addsCount := g, 0;
    assert p + Headers(t[0], g, q, name) == p;
    while q < D
      invariant g <= q && (q <= D || q == g) && addsCount == q - g
      invariant ret' == p + Headers(t[0], g, q, name) + Elements(t)
    {
      ghost var h := Headers(t[0], g, q, name);
      var idx := at + addsCount;
      assert ret'[idx] == Element(t[0]);
      var blockName := name(ret'[idx].value, q);
      assert ret'[..idx] == p + h && ret'[idx..] == Elements(t);
      ret' := ret'[..idx] + [BlockName(q, blockName)] + ret'[idx..];
      HeadersNext(t[0], g, q, name);
      q, addsCount := q + 1, addsCount + 1;
    }
    if D <= g {
      assert Headers(t[0], g, D, name) == [];
    }
  }

  /** `borders` with every border from index `from` on moved by `delta`. */
  function ShiftFrom(borders: seq<Border>, from: int, delta: int): (r: seq<Border>)
    ensures |r| == |borders|
  {
    seq(|borders|, k requires 0 <= k < |borders| =>
      if k < from then borders[k] else Border(borders[k].position + delta, borders[k].degree))
  }

  /** The border-shifting loop of `rsortAndReturnArrayWithNamedBlocks`: move every border
      from index `from` on by `delta`, one at a time. */
  method ShiftBorders(borders: seq<Border>, from: int, delta: int) returns (borders': seq<Border>)
    requires 0 <= from
    ensures borders' == ShiftFrom(borders, from, delta)
  {
    borders' := borders;
    var q := from;
    while q < |borders|
      invariant |borders'| == |borders| && (from <= q <= |borders| || q == from)
      invariant forall k :: 0 <= k < |borders| ==>
                  borders'[k] == if k < from || q <= k then borders[k] else Border(borders[k].position + delta, borders[k].degree)
    {
      borders' := borders'[q := Border(borders'[q].position + delta, borders'[q].degree)];
      q := q + 1;
    }
  }

  /** The border list after the naming loop has handled blocks `[0, i)`: border `k` has moved
      by the shifts of all borders before it, up to `i`. */
  function Moved(B: seq<Border>, D: int, i: int): (r: seq<Border>)
    requires 0 <= i <= |B|
    ensures |r| == |B|
  {
    seq(|B|, k requires 0 <= k < |B| => Border(B[k].position + Shift(B, D, if k < i then k else i), B[k].degree))
  }

  lemma MovedNext(B: seq<Border>, D: int, i: int)
    requires 0 <= i < |B|
    ensures Moved(B, D, i)[i] == Border(B[i].position + Shift(B, D, i), B[i].degree)
    ensures ShiftFrom(Moved(B, D, i), i + 1, D - B[i].degree) == Moved(B, D, i + 1)
  {
  }

  lemma MovedStart(B: seq<Border>, D: int)
    ensures Moved(B, D, 0) == B
  {
  }

  lemma ElementsSplit<T>(s: seq<T>, a: int, b: int)
    requires 0 <= a <= b <= |s|
    ensures Elements(s[a..]) == Elements(s[a..b]) + Elements(s[b..])
  {
    assert s[a..] == s[a..b] + s[b..];
  }

  /** One turn of the naming loop of `rsortAndReturnArrayWithNamedBlocks`. The headers of
      block `i` go in where the moved border `i` says the block starts, and the borders
      after it move past them. */
  method NameBlock<T>(s: seq<T>, B: seq<Border>, D: int, name: (T, int) -> string, i: int,
                      ret: seq<Entry<T>>, borders: seq<Border>)
    returns (ret': seq<Entry<T>>, borders': seq<Border>)
    requires Framed(B, |s|) && HeadersFit(B, D) && 0 <= i < |B| - 1
    requires borders == Moved(B, D, i)
    requires ret == NamedPrefix(s, B, D, name, i) + Elements(s[B[i].position + 1..])
    ensures borders' == Moved(B, D, i + 1)
    ensures -1 <= B[i + 1].position <= |s| - 1
    ensures ret' == NamedPrefix(s, B, D, name, i + 1) + Elements(s[B[i + 1].position + 1..])
  {
    hide NamedPrefix, Framed, HeadersFit, Elements, Shift, HeaderCount, Headers, Moved, ShiftFrom;
    MovedNext(B, D, i);
    var pos := borders[i];
    ghost var p := NamedPrefix(s, B, D, name, i);
    NamedPrefixStep(s, B, D, name, i);
    ShiftCountsHeaders(B, D, i);
    ret' := InsertHeaders(ret, pos.position + 1, pos.degree, D, name, p, s[B[i].position + 1..]);
    ElementsSplit(s, B[i].position + 1, B[i + 1].position + 1);
    borders' := ShiftBorders(borders, i + 1, D - pos.degree);
  }

  /** The naming loop of `rsortAndReturnArrayWithNamedBlocks`: start from the sorted
      elements and walk the borders, inserting headers and shifting the positions of the
      borders still to come. */
  method NamedLoops<T>(s: seq<T>, B: seq<Border>, D: int, name: (T, int) -> string) returns (ret: seq<Entry<T>>)
    requires Framed(B, |s|) && HeadersFit(B, D)
    ensures ret == Named(s, B, D, name)
  {
    hide NamedPrefix, Framed, HeadersFit, Elements, Moved;
    NamedEnds(s, B, D, name);
    MovedStart(B, D);
    ret := Elements(s);
    var borders := B;
    var i := 0;
    while i < |borders| - 1
      invariant 0 <= i <= |B| - 1 && -1 <= B[i].position <= |s| - 1
      invariant borders == Moved(B, D, i)
      invariant ret == NamedPrefix(s, B, D, name, i) + Elements(s[B[i].position + 1..])
    {
      ret, borders := NameBlock(s, B, D, name, i, ret, borders);
      i := i + 1;
    }
    assert i == |B| - 1 && s[B[i].position + 1..] == s[|s|..];
  }

  lemma NamedEnds<T>(s: seq<T>, B: seq<Border>, D: int, name: (T, int) -> string)
    requires Framed(B, |s|)
    ensures |B| >= 2 && B[0].position == -1 && B[|B| - 1].position == |s| - 1
    ensures s[B[0].position + 1..] == s
    ensures NamedPrefix(s, B, D, name, 0) == [] && Named(s, B, D, name) == NamedPrefix(s, B, D, name, |B| - 1)
    ensures Elements(s[|s|..]) == [] && Shift(B, D, 0) == 0
  {
  }

  lemma NamedPrefixStep<T>(s: seq<T>, B: seq<Border>, D: int, name: (T, int) -> string, i: int)
    requires Framed(B, |s|) && 0 <= i < |B| - 1
    ensures -1 <= B[i].position < B[i + 1].position <= |s| - 1
    ensures |NamedPrefix(s, B, D, name, i)| == B[i].position + 1 + HeaderCount(B, D, i)
    ensures NamedPrefix(s, B, D, name, i + 1) ==
            NamedPrefix(s, B, D, name, i) + Headers(s[B[i].position + 1], B[i].degree, D, name)
            + Elements(s[B[i].position + 1 .. B[i + 1].position + 1])
  {
    hide Framed;
    NamedPrefixLength(s, B, D, name, i);
    GroupBounds(B, |s|, i + 1);
  }

  // ----- the public methods --------------------------------------------------------------

  /** Every element reports the same number of degrees, so reading the count from the first
      element before sorting (in `rsort`) and after sorting (in
      `rsortAndReturnArrayWithNamedBlocks`) agree. */
  predicate UniformCount<T>(degrees: DegreeSource<T>, mas: seq<T>) {
    match degrees
    case FromComparator(_) => true
    case FromFirstElement(countOf) => forall i :: 0 <= i < |mas| ==> countOf(mas[i]) == countOf(mas[0])
  }

  /** The borders `rsort` returns never make the naming loop shift by more than it inserts. */
  lemma RSortHeadersFit<T>(mas: seq<T>, cmp: Compare<T>, D: int)
    requires |mas| > 0
    ensures HeadersFit(RSort(mas, cmp, D).borders, D)
  {
    RSortShape(mas, cmp, D);
    var B := RSort(mas, cmp, D).borders;
    if D <= 0 {
      assert B == BordersUpTo(mas, cmp, 0);
    } else {
      forall j | 0 <= j < |B| - 2
        ensures B[j].degree <= D
      {
        if j > 0 {
          assert B[0].position < B[j].position < B[|B| - 1].position;
          assert B[j] in B;
        }
      }
    }
  }

  /** Sorting permutes the array, so a uniform count reads the same from either end. */
  lemma UniformCountPermuted<T>(degrees: DegreeSource<T>, mas: seq<T>, sorted: seq<T>)
    requires |mas| > 0 && UniformCount(degrees, mas) && multiset(sorted) == multiset(mas)
    ensures |sorted| > 0 && DegreeCount(degrees, sorted) == DegreeCount(degrees, mas)
  {
    assert |sorted| == |multiset(sorted)| == |mas|;
    assert sorted[0] in multiset(mas);
    var i :| 0 <= i < |mas| && mas[i] == sorted[0];
  }

  /** `sortNamed(T[])` and `sortNamed(T[], MultiComparator)`: the
      array is sorted in place and the result lists it with the block headers in front of
      every block; an empty array gives an empty result. */
  method SortNamedArray<T>(mas: seq<T>, sorting: Sorting<T>) returns (result: seq<Entry<T>>, sorted: seq<T>)
    requires |mas| > 0 ==> UniformCount(sorting.degrees, mas)
    ensures multiset(sorted) == multiset(mas)
    ensures |mas| == 0 ==> result == [] && sorted == mas
    ensures |mas| > 0 ==>
              var D := DegreeCount(sorting.degrees, mas);
              var st := RSort(mas, sorting.compare, D);
              && sorted == st.sorted
              && result == Named(st.sorted, st.borders, D, sorting.blockName)
    ensures Strip(result) == sorted
  {
    if |mas| == 0 {
      return [], mas;
    }
    var borders;
    sorted, borders := RSortLoops(mas, sorting);
    var cmp, D0 := sorting.compare, DegreeCount(sorting.degrees, mas);
    RSortShape(mas, cmp, D0);
    RSortHeadersFit(mas, cmp, D0);
    UniformCountPermuted(sorting.degrees, mas, sorted);
    var D := DegreeCount(sorting.degrees, sorted);
    result := NamedLoops(sorted, borders, D, sorting.blockName);
    NamedStrip(sorted, borders, D, sorting.blockName);
  }

  /** `sortNamed(List)` and `sortNamed(List, MultiComparator)`: the
      array copy is sorted and named, then written back into the list. */
  method SortNamedList<T>(list: seq<T>, sorting: Sorting<T>) returns (result: seq<Entry<T>>, list': seq<T>)
    requires |list| > 0 ==> UniformCount(sorting.degrees, list)
    ensures multiset(list') == multiset(list)
    ensures Strip(result) == list'
    ensures |list| > 0 ==>
              var D := DegreeCount(sorting.degrees, list);
              var st := RSort(list, sorting.compare, D);
              list' == st.sorted && result == Named(st.sorted, st.borders, D, sorting.blockName)
  {
    var temp;
    result, temp := SortNamedArray(list, sorting);
    list' := WriteBack(list, temp);
  }
}

