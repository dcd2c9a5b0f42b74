/**
 * `FilterableArrayList`: an `ArrayList` plus a "filter result", a list of holders
 * `(position, data)` for the items that pass a filter, which every mutator keeps in step with
 * the list.
 *
 * The reference for the filter result is `Holders`: one holder per item that passes, in list
 * order, carrying the item's index in the list. A list whose filter result equals it is
 * `Coherent`. Three places in the code do not keep that shape; every operation that touches
 * them takes a `Variant`, where `AsWritten` is the code and `Repaired` is the evidently
 * intended behaviour, and the lemmas at the end show the difference on concrete inputs.
 */
module FilterableArrayList {
  import opened Common

  /** A `DataHolder`. */
  datatype Holder<T> = Holder(position: int, data: T)

  /** The filter (`FilterInterface`, possibly null) and the filter string (possibly null). */
  datatype Criterion<!T> = Criterion(filter: Option<(T, Option<string>) -> bool>, filterString: Option<string>)

  /** The list, its filter result and its criterion. */
  datatype FList<!T> = FList(items: seq<T>, result: seq<Holder<T>>, crit: Criterion<T>)

  /** The list after an operation, and what the operation returned or threw. */
  datatype Outcome<!T, X> = Outcome(list: FList<T>, out: Result<X, JavaError>)

  datatype Variant = AsWritten | Repaired

  /** The test the mutators apply: no filter, or the filter accepts `x` with the string. */
  predicate Passes<T>(c: Criterion<T>, x: T) {
    c.filter.None? || c.filter.value(x, c.filterString)
  }

  /** `filterContent` lets everything through when there is no filter or no filter string. */
  predicate Shortcut<T>(c: Criterion<T>) {
    c.filter.None? || c.filterString.None? || c.filterString.value == ""
  }

  function Data<T>(r: seq<Holder<T>>): (d: seq<T>)
    ensures |d| == |r| && forall j :: 0 <= j < |r| ==> d[j] == r[j].data
  {
    seq(|r|, j requires 0 <= j < |r| => r[j].data)
  }

  /** The items of `s` that pass, in order. */
  function Filtered<T>(c: Criterion<T>, s: seq<T>): seq<T> {
    if |s| == 0 then [] else (if Passes(c, s[0]) then [s[0]] else []) + Filtered(c, s[1..])
  }

  /** The reference filter result of `s`, whose first item sits at index `base`: a holder
      carrying the index of each item that passes. */
  function Holders<T>(c: Criterion<T>, s: seq<T>, base: int): (r: seq<Holder<T>>)
    ensures forall j :: 0 <= j < |r| ==> base <= r[j].position < base + |s|
  {
    if |s| == 0 then []
    else (if Passes(c, s[0]) then [Holder(base, s[0])] else []) + Holders(c, s[1..], base + 1)
  }

  ghost predicate Coherent<T>(l: FList<T>) {
    l.result == Holders(l.crit, l.items, 0)
  }

  // ----- the filter result's private helpers ----------------------------------------------

  /** `findFilterResultChildPositionByRealPosition(p)`: the first holder for position `p`,
      or -1. */
  function Find<T>(r: seq<Holder<T>>, p: int): (k: int)
    ensures -1 <= k < |r|
    ensures k >= 0 ==> r[k].position == p
    ensures forall j :: 0 <= j < |r| && r[j].position == p ==> k != -1 && k <= j
  {
    if |r| == 0 then -1
    else if r[0].position == p then 0
    else
      var k := Find(r[1..], p);
      assert forall j :: 0 < j < |r| ==> r[1..][j - 1] == r[j];
      if k == -1 then -1 else k + 1
  }

  /** `removeFilterResultItem(p)`: drops the first holder for position `p`, if any. */
  function RemoveHolder<T>(r: seq<Holder<T>>, p: int): (q: seq<Holder<T>>)
    ensures Find(r, p) == -1 ==> q == r
    ensures Find(r, p) != -1 ==> |q| == |r| - 1
    ensures Find(r, p) != -1 ==> q == r[..Find(r, p)] + r[Find(r, p) + 1..]
  {
    var k := Find(r, p);
    if k == -1 then r else r[..k] + r[k + 1..]
  }

  /** Whether `addFilterResultItem` looks at holder `j` when placing a new one: the code's
      loop stops before the last holder. */
  predicate Checked<T>(r: seq<Holder<T>>, j: int, v: Variant) {
    v == Repaired || j < |r| - 1
  }

  /** Where `addFilterResultItem` puts a holder for position `p`: before the first holder it
      looks at whose position is larger, or at the end. */
  function InsertIndex<T>(r: seq<Holder<T>>, p: int, v: Variant): (k: int)
    ensures 0 <= k <= |r|
    ensures forall j :: 0 <= j < k && Checked(r, j, v) ==> r[j].position <= p
    ensures k < |r| ==> Checked(r, k, v) && p < r[k].position
  {
    if |r| == 0 then 0
    else if Checked(r, 0, v) && p < r[0].position then 0
    else
      assert forall j :: 0 < j < |r| ==> r[1..][j - 1] == r[j] && (Checked(r, j, v) <==> Checked(r[1..], j - 1, v));
      1 + InsertIndex(r[1..], p, v)
  }

  /** `addFilterResultItem(h)`. */
  function Insert<T>(r: seq<Holder<T>>, h: Holder<T>, v: Variant): (q: seq<Holder<T>>)
    ensures |q| == |r| + 1
    ensures exists k :: 0 <= k <= |r| && q == r[..k] + [h] + r[k..]
  {
    var k := InsertIndex(r, h.position, v);
    r[..k] + [h] + r[k..]
  }

  /** The position updates of `add(int, E)`, `addAll(int, Collection)` and `remove`: every
      holder at `at` or beyond moves by `d`. */
  function Shift<T>(r: seq<Holder<T>>, at: int, d: int): (q: seq<Holder<T>>)
    ensures |q| == |r|
    ensures forall j :: 0 <= j < |r| ==> q[j].data == r[j].data
    ensures forall j :: 0 <= j < |r| ==>
              q[j].position == if r[j].position >= at then r[j].position + d else r[j].position
  {
    seq(|r|, j requires 0 <= j < |r| =>
      if r[j].position >= at then Holder(r[j].position + d, r[j].data) else r[j])
  }

  /** `addFilterResultItem` for each item of `c` that passes, with positions from `base`. */
  function InsertEach<T>(r: seq<Holder<T>>, c: Criterion<T>, s: seq<T>, base: int, v: Variant): (q: seq<Holder<T>>)
    ensures |q| == |r| + |Filtered(c, s)|
    decreases |s|
  {
    if |s| == 0 then r
    else
      var r' := if Passes(c, s[0]) then Insert(r, Holder(base, s[0]), v) else r;
      InsertEach(r', c, s[1..], base + 1, v)
  }

  /** `filterContent()` as written: every holder at 0 under the shortcut, otherwise numbered
      by rank among the items that pass. */
  function Ranked<T>(c: Criterion<T>, s: seq<T>, rank: int): (r: seq<Holder<T>>)
    ensures Data(r) == Filtered(c, s)
    ensures forall j :: 0 <= j < |r| ==> r[j].position == rank + j
  {
    if |s| == 0 then []
    else if Passes(c, s[0]) then
      var rest := Ranked(c, s[1..], rank + 1);
      assert Data([Holder(rank, s[0])] + rest) == [s[0]] + Data(rest);
      [Holder(rank, s[0])] + rest
    else
      Ranked(c, s[1..], rank)
  }

  /** The criterion `filterContent` applies: no filter at all under the shortcut. */
  function ContentCriterion<T>(c: Criterion<T>): Criterion<T> {
    if Shortcut(c) then Criterion(None, c.filterString) else c
  }

  function FilterContent<T>(l: FList<T>, v: Variant): (r: FList<T>)
    ensures r.items == l.items && r.crit == l.crit
    ensures Data(r.result) == Filtered(ContentCriterion(l.crit), l.items)
    ensures v == AsWritten ==>
              forall j :: 0 <= j < |r.result| ==> r.result[j].position == if Shortcut(l.crit) then 0 else j
    ensures v == Repaired ==> r.result == Holders(ContentCriterion(l.crit), l.items, 0)
  {
    HoldersData(ContentCriterion(l.crit), l.items, 0);
    var result :=
      if v == Repaired then Holders(ContentCriterion(l.crit), l.items, 0)
      else if Shortcut(l.crit) then Ranked(ContentCriterion(l.crit), l.items, 0)
      else Ranked(l.crit, l.items, 0);
    if v == AsWritten && Shortcut(l.crit) then
      var zeros := seq(|result|, j requires 0 <= j < |result| => Holder(0, result[j].data));
      assert Data(zeros) == Data(result);
      l.(result := zeros)
    else
      l.(result := result)
  }

  // ----- the public operations ------------------------------------------------------------

  /** `new FilterableArrayList()`: no filter, empty filter string. */
  function New<T>(): (r: FList<T>)
    ensures r.items == [] && Coherent(r) && r.crit.filter.None? && r.crit.filterString == Some("")
  {
    FList([], [], Criterion(None, Some("")))
  }

  /** `new FilterableArrayList(c)`: the items of `c`, then `filterContent()`. */
  function FromCollection<T>(c: seq<T>, v: Variant): (r: FList<T>)
    ensures r.items == c && Data(r.result) == c
    ensures v == AsWritten ==> forall j :: 0 <= j < |r.result| ==> r.result[j].position == 0
    ensures v == Repaired ==> Coherent(r)
  {
    FilteredAll<T>(Criterion(None, Some("")), c);
    FilterContent(FList(c, [], Criterion(None, Some(""))), v)
  }

  /** `add(o)`: appends `o` and, when it passes, a holder for its index. */
  function Add<T>(l: FList<T>, o: T): (r: Outcome<T, bool>)
    ensures r.out == Success(true) && r.list.crit == l.crit
    ensures r.list.items == l.items + [o]
    ensures r.list.result == l.result + if Passes(l.crit, o) then [Holder(|l.items|, o)] else []
  {
    var result := if Passes(l.crit, o) then l.result + [Holder(|l.items|, o)] else l.result;
    Outcome(l.(items := l.items + [o], result := result), Success(true))
  }

  /** `add(index, e)`: throws outside `[0, size]`. As written, holder positions move up only
      when `e` passes; repaired, they always do. */
  function AddAt<T>(l: FList<T>, index: int, e: T, v: Variant): (r: Outcome<T, ()>)
    ensures !(0 <= index <= |l.items|) ==> r == Outcome(l, Failure(IndexOutOfBounds))
    ensures 0 <= index <= |l.items| ==>
              r.out.Success? && r.list.crit == l.crit &&
              r.list.items == l.items[..index] + [e] + l.items[index..]
    ensures 0 <= index <= |l.items| && !Passes(l.crit, e) && v == AsWritten ==> r.list.result == l.result
    ensures 0 <= index <= |l.items| && Passes(l.crit, e) ==> |r.list.result| == |l.result| + 1
    ensures 0 <= index <= |l.items| && !Passes(l.crit, e) && v == Repaired ==>
              r.list.result == Shift(l.result, index, 1)
    ensures 0 <= index <= |l.items| && Passes(l.crit, e) ==>
              exists k :: 0 <= k <= |l.result| &&
                r.list.result == Shift(l.result, index, 1)[..k] + [Holder(index, e)] + Shift(l.result, index, 1)[k..]
  {
    if !(0 <= index <= |l.items|) then Outcome(l, Failure(IndexOutOfBounds))
    else
      var items := l.items[..index] + [e] + l.items[index..];
      var result :=
        if Passes(l.crit, e) then Insert(Shift(l.result, index, 1), Holder(index, e), v)
        else if v == Repaired then Shift(l.result, index, 1)
        else l.result;
      Outcome(l.(items := items, result := result), Success(()))
  }

  /** Removing the item at `i` (shared by both `remove`s): the first holder for `i` goes and
      every holder beyond `i` moves down by one. */
  function Cut<T>(l: FList<T>, i: int): (r: FList<T>)
    requires 0 <= i < |l.items|
    ensures r.items == l.items[..i] + l.items[i + 1..] && r.crit == l.crit
    ensures |r.result| == |l.result| - if Find(l.result, i) == -1 then 0 else 1
    ensures var k := Find(l.result, i);
            var kept := if k == -1 then l.result else l.result[..k] + l.result[k + 1..];
            |r.result| == |kept| &&
            forall j :: 0 <= j < |kept| ==>
              r.result[j].data == kept[j].data &&
              r.result[j].position == if kept[j].position > i then kept[j].position - 1 else kept[j].position
  {
    l.(items := l.items[..i] + l.items[i + 1..], result := Shift(RemoveHolder(l.result, i), i + 1, -1))
  }

  /** `remove(int index)`: throws outside `[0, size)`, otherwise returns the removed item. */
  function RemoveAt<T>(l: FList<T>, index: int): (r: Outcome<T, T>)
    ensures !(0 <= index < |l.items|) ==> r == Outcome(l, Failure(IndexOutOfBounds))
    ensures 0 <= index < |l.items| ==>
              r.out == Success(l.items[index]) && |r.list.items| == |l.items| - 1 &&
              r.list.items == l.items[..index] + l.items[index + 1..]
    ensures 0 <= index < |l.items| ==> r.list == Cut(l, index)
  {
    if !(0 <= index < |l.items|) then Outcome(l, Failure(IndexOutOfBounds))
    else Outcome(Cut(l, index), Success(l.items[index]))
  }

  /** `indexOf(o)`. */
  function IndexOf<T(==)>(s: seq<T>, o: T): (k: int)
    ensures -1 <= k < |s|
    ensures k >= 0 ==> s[k] == o && o !in s[..k]
    ensures k == -1 <==> o !in s
  {
    if |s| == 0 then -1
    else if s[0] == o then 0
    else
      var k := IndexOf(s[1..], o);
      assert s == [s[0]] + s[1..];
      if k == -1 then -1
      else
        assert s[..k + 1] == [s[0]] + s[1..][..k];
        k + 1
  }

  /** `remove(Object o)`: drops the first item equal to `o` and reports whether there was
      one. */
  function RemoveValue<T(==)>(l: FList<T>, o: T): (r: Outcome<T, bool>)
    ensures o !in l.items ==> r == Outcome(l, Success(false))
    ensures o in l.items ==>
              r.out == Success(true) &&
              exists i :: 0 <= i < |l.items| && l.items[i] == o && o !in l.items[..i] && r.list == Cut(l, i)
  {
    var i := IndexOf(l.items, o);
    if i == -1 then Outcome(l, Success(false)) else Outcome(Cut(l, i), Success(true))
  }

  /** `clear()`. */
  function Clear<T>(l: FList<T>): (r: FList<T>)
    ensures r.items == [] && r.result == [] && r.crit == l.crit
  {
    l.(items := [], result := [])
  }

  /** `addAll(c)`: appends `c`, and a holder for each item of `c` that passes. Returns whether
      the list changed. */
  function AddAll<T>(l: FList<T>, c: seq<T>, v: Variant): (r: Outcome<T, bool>)
    ensures r.out == Success(|c| > 0) && r.list.crit == l.crit
    ensures r.list.items == l.items + c
    ensures |r.list.result| == |l.result| + |Filtered(l.crit, c)|
  {
    Outcome(l.(items := l.items + c, result := InsertEach(l.result, l.crit, c, |l.items|, v)), Success(|c| > 0))
  }

  /** `addAll(index, c)`: throws outside `[0, size]`; otherwise moves every holder at `index`
      or beyond up by `|c|` and adds a holder for each item of `c` that passes. */
  function AddAllAt<T>(l: FList<T>, index: int, c: seq<T>, v: Variant): (r: Outcome<T, bool>)
    ensures !(0 <= index <= |l.items|) ==> r == Outcome(l, Failure(IndexOutOfBounds))
    ensures 0 <= index <= |l.items| ==>
              r.out == Success(|c| > 0) && r.list.crit == l.crit &&
              r.list.items == l.items[..index] + c + l.items[index..] &&
              |r.list.result| == |l.result| + |Filtered(l.crit, c)|
  {
    if !(0 <= index <= |l.items|) then Outcome(l, Failure(IndexOutOfBounds))
    else
      var items := l.items[..index] + c + l.items[index..];
      Outcome(l.(items := items, result := InsertEach(Shift(l.result, index, |c|), l.crit, c, index, v)), Success(|c| > 0))
  }

  /** `set(index, e)`: throws outside `[0, size)`, otherwise replaces the item and returns the
      old one. With a filter, the holder for `index` is replaced or added when `e` passes and
      removed when `e` fails but the old item passed. Without a filter the holder for `index`
      is replaced, and when there is none the code throws after the list has changed. */
  function Set<T>(l: FList<T>, index: int, e: T, v: Variant): (r: Outcome<T, T>)
    ensures !(0 <= index < |l.items|) ==> r == Outcome(l, Failure(IndexOutOfBounds))
    ensures 0 <= index < |l.items| ==>
              r.list.items == l.items[index := e] && r.list.crit == l.crit &&
              (r.out.Failure? <==> l.crit.filter.None? && Find(l.result, index) == -1)
    ensures 0 <= index < |l.items| && r.out.Success? ==> r.out.value == l.items[index]
    ensures 0 <= index < |l.items| && l.crit.filter.Some? && !Passes(l.crit, e) ==>
              r.list.result == if Passes(l.crit, l.items[index]) then RemoveHolder(l.result, index) else l.result
    ensures 0 <= index < |l.items| && l.crit.filter.Some? && Passes(l.crit, e) ==>
              r.out == Success(l.items[index]) &&
              (Find(l.result, index) != -1 ==> r.list.result == l.result[Find(l.result, index) := Holder(index, e)]) &&
              (Find(l.result, index) == -1 ==>
                 exists k :: 0 <= k <= |l.result| && r.list.result == l.result[..k] + [Holder(index, e)] + l.result[k..])
    ensures 0 <= index < |l.items| && l.crit.filter.None? ==>
              r.list.result == if Find(l.result, index) == -1 then l.result
                               else l.result[Find(l.result, index) := Holder(index, e)]
  {
    if !(0 <= index < |l.items|) then Outcome(l, Failure(IndexOutOfBounds))
    else
      var prev := l.items[index];
      var l' := l.(items := l.items[index := e]);
      var k := Find(l.result, index);
      if l.crit.filter.Some? then
        if Passes(l.crit, e) then
          var result := if k != -1 then l.result[k := Holder(index, e)] else Insert(l.result, Holder(index, e), v);
          Outcome(l'.(result := result), Success(prev))
        else if Passes(l.crit, prev) then Outcome(l'.(result := RemoveHolder(l.result, index)), Success(prev))
        else Outcome(l', Success(prev))
      else if k == -1 then Outcome(l', Failure(IndexOutOfBounds))
      else Outcome(l'.(result := l.result[k := Holder(index, e)]), Success(prev))
  }

  /** `setFilter(f)`. */
  function SetFilter<T>(l: FList<T>, f: Option<(T, Option<string>) -> bool>, v: Variant): (r: FList<T>)
    ensures r.items == l.items && r.crit.filter == f && r.crit.filterString == l.crit.filterString
    ensures Data(r.result) == Filtered(ContentCriterion(r.crit), l.items)
  {
    FilterContent(l.(crit := l.crit.(filter := f)), v)
  }

  /** `setFilterString(s)`. */
  function SetFilterString<T>(l: FList<T>, s: Option<string>, v: Variant): (r: FList<T>)
    ensures r.items == l.items && r.crit.filterString == s
    ensures Data(r.result) == Filtered(ContentCriterion(r.crit), l.items)
  {
    FilterContent(l.(crit := l.crit.(filterString := s)), v)
  }

  /** `filterResultGet(k)`. */
  function FilterResultGet<T>(l: FList<T>, k: int): (r: Result<T, JavaError>)
    ensures r.Success? <==> 0 <= k < |l.result|
    ensures r.Success? ==> r.value == Data(l.result)[k]
    ensures r.Failure? ==> r.error == IndexOutOfBounds
  {
    if 0 <= k < |l.result| then Success(l.result[k].data) else Failure(IndexOutOfBounds)
  }

  /** `filterResultSize()`. */
  function FilterResultSize<T>(l: FList<T>): (r: nat)
    ensures r == |Data(l.result)|
  {
    |l.result|
  }

  // ----- facts about the reference --------------------------------------------------------

  lemma {:induction false} FilteredAll<T>(c: Criterion<T>, s: seq<T>)
    requires c.filter.None?
    ensures Filtered(c, s) == s
    decreases |s|
  {
    if |s| > 0 {
      FilteredAll(c, s[1..]);
      assert s == [s[0]] + s[1..];
    }
  }

  lemma {:induction false} HoldersConcat<T>(c: Criterion<T>, a: seq<T>, b: seq<T>, base: int)
    ensures Holders(c, a + b, base) == Holders(c, a, base) + Holders(c, b, base + |a|)
    decreases |a|
  {
    if |a| == 0 {
      assert a + b == b;
    } else {
      assert (a + b)[1..] == a[1..] + b;
      HoldersConcat(c, a[1..], b, base + 1);
    }
  }

  /** The reference around index `i`: the holders before `i`, the one for `i` if its item
      passes, and the holders after it. */
  lemma HoldersSplit<T>(c: Criterion<T>, s: seq<T>, i: int)
    requires 0 <= i < |s|
    ensures Holders(c, s, 0) ==
            Holders(c, s[..i], 0) + Holders(c, [s[i]], i) + Holders(c, s[i + 1..], i + 1)
    ensures Holders(c, [s[i]], i) == if Passes(c, s[i]) then [Holder(i, s[i])] else []
  {
    hide Holders;
    var a, b := s[..i], s[i + 1..];
    assert s == a + [s[i]] + b;
    HoldersConcat(c, a + [s[i]], b, 0);
    HoldersConcat(c, a, [s[i]], 0);
    HoldersSingle(c, s[i], i);
  }

  lemma HoldersSingle<T>(c: Criterion<T>, x: T, base: int)
    ensures Holders(c, [x], base) == if Passes(c, x) then [Holder(base, x)] else []
  {
    assert [x][1..] == [];
  }

  lemma {:induction false} HoldersData<T>(c: Criterion<T>, s: seq<T>, base: int)
    ensures Data(Holders(c, s, base)) == Filtered(c, s)
    decreases |s|
  {
    if |s| > 0 {
      HoldersData(c, s[1..], base + 1);
      var head := if Passes(c, s[0]) then [Holder(base, s[0])] else [];
      assert Data(head + Holders(c, s[1..], base + 1)) == Data(head) + Data(Holders(c, s[1..], base + 1));
    }
  }

  /** Moving every holder at `at` or beyond. */
  lemma ShiftConcat<T>(a: seq<Holder<T>>, b: seq<Holder<T>>, at: int, d: int)
    ensures Shift(a + b, at, d) == Shift(a, at, d) + Shift(b, at, d)
  {
  }

  lemma ShiftBelow<T>(r: seq<Holder<T>>, at: int, d: int)
    requires forall j :: 0 <= j < |r| ==> r[j].position < at
    ensures Shift(r, at, d) == r
  {
  }

  lemma {:induction false} ShiftHolders<T>(c: Criterion<T>, s: seq<T>, base: int, at: int, d: int)
    requires at <= base
    ensures Shift(Holders(c, s, base), at, d) == Holders(c, s, base + d)
    decreases |s|
  {
    if |s| > 0 {
      ShiftHolders(c, s[1..], base + 1, at, d);
      var head := if Passes(c, s[0]) then [Holder(base, s[0])] else [];
      ShiftConcat(head, Holders(c, s[1..], base + 1), at, d);
    }
  }

  /** Finding and removing in a sequence that holds position `p` at most at index `|a|`. */
  lemma FindAround<T>(a: seq<Holder<T>>, m: seq<Holder<T>>, b: seq<Holder<T>>, p: int)
    requires forall j :: 0 <= j < |a| ==> a[j].position < p
    requires forall j :: 0 <= j < |b| ==> b[j].position > p
    requires m == [] || (|m| == 1 && m[0].position == p)
    ensures Find(a + m + b, p) == if m == [] then -1 else |a|
    ensures RemoveHolder(a + m + b, p) == a + b
  {
    var r := a + m + b;
    var k := Find(r, p);
    if m == [] {
      assert r == a + b;
      assert forall j :: 0 <= j < |r| ==> r[j].position != p by {
        assert forall j :: 0 <= j < |r| ==> r[j] == if j < |a| then a[j] else b[j - |a|];
      }
    } else {
      assert r[|a|] == m[0];
      assert forall j :: 0 <= j < |r| ==> r[j] == if j < |a| then a[j] else if j == |a| then m[0] else b[j - |a| - 1];
      assert k == |a|;
      assert r[..k] == a && r[k + 1..] == b;
    }
  }

  /** `addFilterResultItem` into a sequence whose positions run below the new one up to
      index `|a|` and above it from there: the new holder lands at `|a|`, except that the
      code misplaces it when exactly one holder lies above. */
  lemma InsertAround<T>(a: seq<Holder<T>>, b: seq<Holder<T>>, h: Holder<T>, v: Variant)
    requires forall j :: 0 <= j < |a| ==> a[j].position < h.position
    requires forall j :: 0 <= j < |b| ==> b[j].position > h.position
    requires v == Repaired || |b| != 1
    ensures Insert(a + b, h, v) == a + [h] + b
  {
    var r := a + b;
    var k := InsertIndex(r, h.position, v);
    assert forall j :: 0 <= j < |r| ==> r[j] == if j < |a| then a[j] else b[j - |a|];
    assert k >= |a|;
    assert k <= |a| by {
      assert k > |a| ==> Checked(r, |a|, v);
    }
    assert r[..k] == a && r[k..] == b;
  }

  // ----- operations that keep the filter result coherent ----------------------------------

  lemma AddCoherent<T>(l: FList<T>, o: T)
    requires Coherent(l)
    ensures Coherent(Add(l, o).list)
  {
    HoldersConcat(l.crit, l.items, [o], 0);
    assert [o][1..] == [];
  }

  lemma ClearCoherent<T>(l: FList<T>)
    ensures Coherent(Clear(l))
  {
  }

  /** Removing the item at `i` leaves the reference of the shorter list. */
  lemma CutCoherent<T>(l: FList<T>, i: int)
    requires Coherent(l) && 0 <= i < |l.items|
    ensures Coherent(Cut(l, i))
  {
    hide Holders, Shift, Find, RemoveHolder;
    var c, s := l.crit, l.items;
    var ha, hx, hb := Holders(c, s[..i], 0), Holders(c, [s[i]], i), Holders(c, s[i + 1..], i + 1);
    HoldersSplit(c, s, i);
    FindAround(ha, hx, hb, i);
    ShiftConcat(ha, hb, i + 1, -1);
    ShiftBelow(ha, i + 1, -1);
    ShiftHolders(c, s[i + 1..], i + 1, i + 1, -1);
    HoldersConcat(c, s[..i], s[i + 1..], 0);
  }

  lemma RemoveAtCoherent<T>(l: FList<T>, index: int)
    requires Coherent(l)
    ensures Coherent(RemoveAt(l, index).list)
  {
    if 0 <= index < |l.items| {
      CutCoherent(l, index);
    }
  }

  lemma RemoveValueCoherent<T>(l: FList<T>, o: T)
    requires Coherent(l)
    ensures Coherent(RemoveValue(l, o).list)
  {
    if o in l.items {
      CutCoherent(l, IndexOf(l.items, o));
    }
  }

  /** `addFilterResultItem` for each passing item of `t`, numbered from `|s|`, into the
      reference of `s` followed by the reference of `b` numbered from `|s| + |t|`. */
  lemma {:induction false} InsertEachCoherent<T>(c: Criterion<T>, s: seq<T>, t: seq<T>, b: seq<T>, v: Variant)
    requires v == Repaired || |b| == 0
    ensures InsertEach(Holders(c, s, 0) + Holders(c, b, |s| + |t|), c, t, |s|, v) == Holders(c, s + t + b, 0)
    decreases |t|
  {
    hide Holders, InsertEach, Filtered;
    if |t| == 0 {
      InsertEachNil(Holders(c, s, 0) + Holders(c, b, |s|), c, t, |s|, v);
      assert s + t + b == s + b;
      HoldersConcat(c, s, b, 0);
    } else {
      var s', t' := s + [t[0]], t[1..];
      InsertEachStep(c, s, t, b, v);
      InsertEachCoherent(c, s', t', b, v);
      assert s' + t' + b == s + t + b;
    }
  }

  lemma InsertEachNil<T>(r: seq<Holder<T>>, c: Criterion<T>, t: seq<T>, base: int, v: Variant)
    requires |t| == 0
    ensures InsertEach(r, c, t, base, v) == r
  {
  }

  lemma InsertEachStep<T>(c: Criterion<T>, s: seq<T>, t: seq<T>, b: seq<T>, v: Variant)
    requires v == Repaired || |b| == 0
    requires |t| > 0
    ensures InsertEach(Holders(c, s, 0) + Holders(c, b, |s| + |t|), c, t, |s|, v) ==
            InsertEach(Holders(c, s + [t[0]], 0) + Holders(c, b, |s + [t[0]]| + |t[1..]|), c, t[1..], |s + [t[0]]|, v)
  {
    var hb := Holders(c, b, |s| + |t|);
    assert |b| == 0 ==> hb == [];
    InsertOne(c, s, t[0], hb, v);
  }

  /** One step of `InsertEach`: the holder for the item at index `|s|` lands behind the
      reference of `s` and before every later holder. */
  lemma InsertOne<T>(c: Criterion<T>, s: seq<T>, x: T, hb: seq<Holder<T>>, v: Variant)
    requires forall j :: 0 <= j < |hb| ==> hb[j].position > |s|
    requires v == Repaired || |hb| == 0
    ensures (if Passes(c, x) then Insert(Holders(c, s, 0) + hb, Holder(|s|, x), v) else Holders(c, s, 0) + hb) ==
            Holders(c, s + [x], 0) + hb
  {
    HoldersConcat(c, s, [x], 0);
    HoldersSingle(c, x, |s|);
    if Passes(c, x) {
      InsertAround(Holders(c, s, 0), hb, Holder(|s|, x), v);
    }
  }

  lemma AddAllCoherent<T>(l: FList<T>, c: seq<T>, v: Variant)
    requires Coherent(l)
    ensures Coherent(AddAll(l, c, v).list)
  {
    InsertEachCoherent(l.crit, l.items, c, [], v);
    assert l.items + c + [] == l.items + c;
    assert Holders(l.crit, l.items, 0) + Holders(l.crit, [], |l.items| + |c|) == l.result;
  }

  /** `addFilterResultItem` for each passing item of a run, into holders whose positions lie
      below the run (`a`) and beyond it (`b`): the run's holders land between the two, in
      order. As written this needs `b` empty, since the last holder is never compared. */
  lemma {:induction false} InsertEachBetween<T>(a: seq<Holder<T>>, b: seq<Holder<T>>, c: Criterion<T>, t: seq<T>,
                                                base: int, v: Variant)
    requires forall j :: 0 <= j < |a| ==> a[j].position < base
    requires forall j :: 0 <= j < |b| ==> b[j].position >= base + |t|
    requires v == Repaired || |b| == 0
    ensures InsertEach(a + b, c, t, base, v) == a + Holders(c, t, base) + b
    decreases |t|
  {
    hide Holders, InsertEach, Insert;
    if |t| == 0 {
      InsertEachNil(a + b, c, t, base, v);
      HoldersNil(c, t, base, a, b);
    } else {
      var a' := if Passes(c, t[0]) then a + [Holder(base, t[0])] else a;
      InsertEachBetweenStep(a, b, c, t, base, v);
      InsertEachBetween(a', b, c, t[1..], base + 1, v);
      HoldersStep(c, t, base, a, b);
    }
  }

  lemma HoldersNil<T>(c: Criterion<T>, t: seq<T>, base: int, a: seq<Holder<T>>, b: seq<Holder<T>>)
    requires |t| == 0
    ensures a + Holders(c, t, base) + b == a + b
  {
  }

  lemma HoldersStep<T>(c: Criterion<T>, t: seq<T>, base: int, a: seq<Holder<T>>, b: seq<Holder<T>>)
    requires |t| > 0
    ensures (if Passes(c, t[0]) then a + [Holder(base, t[0])] else a) + Holders(c, t[1..], base + 1) + b
            == a + Holders(c, t, base) + b
  {
    var h := Holder(base, t[0]);
    var rest := Holders(c, t[1..], base + 1);
    if Passes(c, t[0]) {
      assert Holders(c, t, base) == [h] + rest;
      assert a + [h] + rest + b == a + ([h] + rest) + b;
    }
  }

  /** One step of `InsertEachBetween`: the first passing item's holder goes to the end of
      the lower part. */
  lemma InsertEachBetweenStep<T>(a: seq<Holder<T>>, b: seq<Holder<T>>, c: Criterion<T>, t: seq<T>,
                                 base: int, v: Variant)
    requires |t| > 0
    requires forall j :: 0 <= j < |a| ==> a[j].position < base
    requires forall j :: 0 <= j < |b| ==> b[j].position >= base + |t|
    requires v == Repaired || |b| == 0
    ensures var a' := if Passes(c, t[0]) then a + [Holder(base, t[0])] else a;
            && InsertEach(a + b, c, t, base, v) == InsertEach(a' + b, c, t[1..], base + 1, v)
            && forall j :: 0 <= j < |a'| ==> a'[j].position < base + 1
  {
    hide Holders;
    var h := Holder(base, t[0]);
    var a' := if Passes(c, t[0]) then a + [h] else a;
    if Passes(c, t[0]) {
      InsertAround(a, b, h, v);
      assert forall j :: 0 <= j < |a'| ==> a'[j] == if j < |a| then a[j] else h;
    }
  }

  /** `addAll(c)` on a list whose holders all point below its end, as every list built by
      `add` and `addAll` alone does: the new holders `(size + i, c[i])` are appended. */
  lemma AddAllAppends<T>(l: FList<T>, c: seq<T>, v: Variant)
    requires forall j :: 0 <= j < |l.result| ==> l.result[j].position < |l.items|
    ensures AddAll(l, c, v).list.result == l.result + Holders(l.crit, c, |l.items|)
  {
    InsertEachBetween(l.result, [], l.crit, c, |l.items|, v);
    assert l.result + [] == l.result;
    assert l.result + Holders(l.crit, c, |l.items|) + [] == l.result + Holders(l.crit, c, |l.items|);
  }

  /** `addAll(index, c)` on holders that point below `index` up to slot `k` and at or beyond
      it from there: the first part stays, the new holders `(index + i, c[i])` follow, and the
      rest moves up by `|c|`. */
  lemma AddAllAtInserts<T>(l: FList<T>, index: int, c: seq<T>, k: int, v: Variant)
    requires 0 <= index <= |l.items| && 0 <= k <= |l.result|
    requires forall j :: 0 <= j < |l.result| ==> (l.result[j].position < index <==> j < k)
    requires v == Repaired || k == |l.result|
    ensures AddAllAt(l, index, c, v).list.result ==
            l.result[..k] + Holders(l.crit, c, index) + Shift(l.result[k..], index, |c|)
  {
    var a, b := l.result[..k], l.result[k..];
    assert l.result == a + b;
    ShiftConcat(a, b, index, |c|);
    ShiftBelow(a, index, |c|);
    InsertEachBetween(a, Shift(b, index, |c|), l.crit, c, index, v);
  }

  lemma AddAllAtCoherent<T>(l: FList<T>, index: int, c: seq<T>)
    requires Coherent(l)
    ensures Coherent(AddAllAt(l, index, c, Repaired).list)
  {
    if 0 <= index <= |l.items| {
      hide Holders, Shift, InsertEach;
      var s := l.items;
      ShiftAround(l.crit, s, index, |c|);
      InsertEachCoherent(l.crit, s[..index], c, s[index..], Repaired);
    }
  }

  lemma AddAtCoherent<T>(l: FList<T>, index: int, e: T)
    requires Coherent(l)
    ensures Coherent(AddAt(l, index, e, Repaired).list)
  {
    if 0 <= index <= |l.items| {
      hide Holders, Shift, Insert, InsertIndex;
      var c, s := l.crit, l.items;
      var ha, hb := Holders(c, s[..index], 0), Holders(c, s[index..], index + 1);
      ShiftAround(c, s, index, 1);
      HoldersAround(c, s, index, e);
      if Passes(c, e) {
        InsertAround(ha, hb, Holder(index, e), Repaired);
      }
    }
  }

  /** The reference of `s` with every position from `i` on moved by `d`. */
  lemma ShiftAround<T>(c: Criterion<T>, s: seq<T>, i: int, d: int)
    requires 0 <= i <= |s|
    ensures Shift(Holders(c, s, 0), i, d) == Holders(c, s[..i], 0) + Holders(c, s[i..], i + d)
  {
    hide Holders, Shift;
    var ha, hb := Holders(c, s[..i], 0), Holders(c, s[i..], i);
    assert s == s[..i] + s[i..];
    HoldersConcat(c, s[..i], s[i..], 0);
    ShiftConcat(ha, hb, i, d);
    ShiftBelow(ha, i, d);
    ShiftHolders(c, s[i..], i, i, d);
  }

  /** The reference of `s` with `e` inserted at `i`. */
  lemma HoldersAround<T>(c: Criterion<T>, s: seq<T>, i: int, e: T)
    requires 0 <= i <= |s|
    ensures Holders(c, s[..i] + [e] + s[i..], 0) ==
            Holders(c, s[..i], 0) + (if Passes(c, e) then [Holder(i, e)] else []) + Holders(c, s[i..], i + 1)
  {
    hide Holders;
    HoldersConcat(c, s[..i] + [e], s[i..], 0);
    HoldersConcat(c, s[..i], [e], 0);
    HoldersSingle(c, e, i);
  }

  lemma SetCoherent<T>(l: FList<T>, index: int, e: T)
    requires Coherent(l)
    ensures Coherent(Set(l, index, e, Repaired).list)
    ensures 0 <= index < |l.items| ==> Set(l, index, e, Repaired).out == Success(l.items[index])
  {
    if 0 <= index < |l.items| {
      var c, s := l.crit, l.items;
      var ha, hb, h := Holders(c, s[..index], 0), Holders(c, s[index + 1..], index + 1), Holder(index, e);
      var hx := if Passes(c, s[index]) then [Holder(index, s[index])] else [];
      SetAround(c, s, index, e);
      FindAround(ha, hx, hb, index);
      if Passes(c, s[index]) && Passes(c, e) {
        UpdateMiddle(ha, Holder(index, s[index]), hb, h);
        SetReplaces(l, index, e);
      } else if Passes(c, e) {
        InsertAround(ha, hb, h, Repaired);
        SetInserts(l, index, e);
      } else {
        SetDrops(l, index, e);
      }
    }
  }

  lemma UpdateMiddle<T>(a: seq<T>, x: T, b: seq<T>, y: T)
    ensures (a + [x] + b)[|a| := y] == a + [y] + b
  {
  }

  /** The three ways `set` treats the filter result. */
  lemma SetReplaces<T>(l: FList<T>, index: int, e: T)
    requires 0 <= index < |l.items| && Find(l.result, index) != -1 && Passes(l.crit, e)
    ensures Set(l, index, e, Repaired).list == FList(l.items[index := e], l.result[Find(l.result, index) := Holder(index, e)], l.crit)
    ensures Set(l, index, e, Repaired).out == Success(l.items[index])
  {
  }

  lemma SetInserts<T>(l: FList<T>, index: int, e: T)
    requires 0 <= index < |l.items| && Find(l.result, index) == -1 && Passes(l.crit, e) && !Passes(l.crit, l.items[index])
    ensures Set(l, index, e, Repaired).list == FList(l.items[index := e], Insert(l.result, Holder(index, e), Repaired), l.crit)
    ensures Set(l, index, e, Repaired).out == Success(l.items[index])
  {
  }

  lemma SetDrops<T>(l: FList<T>, index: int, e: T)
    requires 0 <= index < |l.items| && !Passes(l.crit, e)
    ensures Set(l, index, e, Repaired).list ==
            FList(l.items[index := e], if Passes(l.crit, l.items[index]) then RemoveHolder(l.result, index) else l.result, l.crit)
    ensures Set(l, index, e, Repaired).out == Success(l.items[index])
  {
  }

  /** The reference before and after replacing the item at `i`. */
  lemma SetAround<T>(c: Criterion<T>, s: seq<T>, i: int, e: T)
    requires 0 <= i < |s|
    ensures var ha, hb := Holders(c, s[..i], 0), Holders(c, s[i + 1..], i + 1);
            && Holders(c, s, 0) == ha + (if Passes(c, s[i]) then [Holder(i, s[i])] else []) + hb
            && Holders(c, s[i := e], 0) == ha + (if Passes(c, e) then [Holder(i, e)] else []) + hb
  {
    var t := s[i := e];
    HoldersSplit(c, s, i);
    HoldersSplit(c, t, i);
    assert t[..i] == s[..i] && t[i + 1..] == s[i + 1..];
  }

  /** Repaired, `setFilter` and `setFilterString` rebuild the reference, unless a filter is set
      with no string, when the shortcut lets through items the other operations would test. */
  lemma FilterContentCoherent<T>(l: FList<T>)
    requires l.crit.filter.None? || !Shortcut(l.crit)
    ensures Coherent(FilterContent(l, Repaired))
  {
  }

  /** On a coherent list, the filter result lists the items that pass, in list order. */
  lemma CoherentQueries<T>(l: FList<T>, k: int)
    requires Coherent(l)
    ensures FilterResultSize(l) == |Filtered(l.crit, l.items)|
    ensures 0 <= k < |Filtered(l.crit, l.items)| ==> FilterResultGet(l, k) == Success(Filtered(l.crit, l.items)[k])
  {
    HoldersData(l.crit, l.items, 0);
  }

  // ----- where the code departs from the reference ----------------------------------------

  function Positive(x: int, s: Option<string>): bool {
    x > 0
  }

  /** `add(0, 0)` on `[1]` with a filter that rejects 0: the holder for 1 keeps position 0
      although 1 now sits at index 1. */
  lemma AddAtRejectedKeepsPositions()
    ensures var l := FList([1], [Holder(0, 1)], Criterion(Some(Positive), Some("x")));
            Coherent(l) &&
            AddAt(l, 0, 0, AsWritten).list.result == [Holder(0, 1)] &&
            !Coherent(AddAt(l, 0, 0, AsWritten).list) &&
            AddAt(l, 0, 0, Repaired).list.result == [Holder(1, 1)]
  {
    var l := FList([1], [Holder(0, 1)], Criterion(Some(Positive), Some("x")));
    assert Holders(l.crit, [1], 0) == [Holder(0, 1)];
    var items := AddAt(l, 0, 0, AsWritten).list.items;
    assert items == [0, 1];
    assert Holders(l.crit, items, 0) == [Holder(1, 1)] by {
      assert items[1..] == [1];
      assert Holders(l.crit, [1], 1) == [Holder(1, 1)];
    }
  }

  /** `add(0, 7)` on `[1]` without a filter: `addFilterResultItem` never compares against the
      last holder, so the holder for 7 lands behind the holder for 1. */
  lemma InsertSkipsLastHolder()
    ensures var l: FList<int> := FList([1], [Holder(0, 1)], Criterion(None, Some("")));
            Coherent(l) &&
            AddAt(l, 0, 7, AsWritten).list.result == [Holder(1, 1), Holder(0, 7)] &&
            AddAt(l, 0, 7, Repaired).list.result == [Holder(0, 7), Holder(1, 1)]
  {
    var l: FList<int> := FList([1], [Holder(0, 1)], Criterion(None, Some("")));
    assert Holders(l.crit, [1], 0) == [Holder(0, 1)];
    assert Shift(l.result, 0, 1) == [Holder(1, 1)];
  }

  /** `new FilterableArrayList([5, 6])`: `filterContent` never advances its counter without a
      filter, so both holders say position 0, and `set(1, 7)` then finds no holder for 1 and
      throws after storing 7. */
  lemma FilterContentPositions()
    ensures FromCollection([5, 6], AsWritten).result == [Holder(0, 5), Holder(0, 6)]
    ensures FromCollection([5, 6], Repaired).result == [Holder(0, 5), Holder(1, 6)]
    ensures Set(FromCollection([5, 6], AsWritten), 1, 7, AsWritten) ==
            Outcome(FList([5, 7], [Holder(0, 5), Holder(0, 6)], Criterion(None, Some(""))), Failure(IndexOutOfBounds))
  {
    var l := FromCollection([5, 6], AsWritten);
    assert Data(l.result) == [5, 6];
    assert Find(l.result, 1) == -1;
    var c: Criterion<int> := Criterion(None, Some(""));
    var h := Holders(c, [5, 6], 0);
    assert [5, 6][1..] == [6] && [6][1..] == [];
    assert h == [Holder(0, 5), Holder(1, 6)];
  }
}
