/**
 * `PagerAdapterHandler`: a cursor over an adapter's positions and a cache of instantiated
 * items around it.
 *
 * The handler keeps the items of every position within `border` of the cursor (wrapping
 * around the ends when it is cycled) in a `SparseArray` keyed by position. Moving the cursor
 * first instantiates the missing items of the new window, then notifies the target, then
 * destroys the items that fell out of the window. The adapter is reduced to its item count and
 * an `instantiate` function; the target and adapter callbacks become an event log.
 */
module PagerAdapterHandler {
  import opened Common
  import opened SparseArray

  /** `POSITION_NONE`: the cursor when no adapter is set. */
  const PositionNone: int := -1

  /** The border a fresh handler starts with, and the least border it accepts. */
  const DefaultRelativityBorder: int := 1

  /** The adapter: `getCount()` and `instantiateItem(position)`. */
  datatype Adapter<I> = Adapter(count: nat, instantiate: int -> I)

  /** The handler's fields: `mAdapter`, `InfoHolder`, `CPosition`, `isCycled`,
      `RelativityBorder`. */
  datatype Pager<I> = Pager(adapter: Option<Adapter<I>>, held: seq<Slot<I>>, position: int,
                            cycled: bool, border: int)

  /** The calls the handler makes on its adapter and its target, in order. */
  datatype Event<I> =
    | StartUpdate
    | FinishUpdate
    | Instantiated(at: int)
    | Destroyed(at: int, item: I)
    | AttachedToTarget
    | DetachedFromTarget
    | PositionChanged(from: int, to: int, animated: bool)
    | AdapterChanged(before: Option<Adapter<I>>, after: Option<Adapter<I>>)

  /** How a cursor move reports itself: `setPositionWithoutNotification`, `setPosition`,
      `moveTo`. */
  datatype Notify = Silent | Jump | Animate

  /** What every reachable handler satisfies. */
  predicate Inv<I>(p: Pager<I>) {
    && Valid(p.held)
    && p.border >= DefaultRelativityBorder
    && (p.adapter.None? ==> p.held == [])
  }

  /** `attachTo(target, isCycled)`. */
  function Attach<I>(cycled: bool): (r: Pager<I>)
    ensures Inv(r) && r.adapter.None? && r.position == PositionNone && r.held == []
    ensures r.cycled == cycled && r.border == DefaultRelativityBorder
  {
    Pager(None, [], PositionNone, cycled, DefaultRelativityBorder)
  }

  // ----- the window of relative positions ----------------------------------------------

  predicate NoDup(s: seq<int>) {
    forall i, j :: 0 <= i < j < |s| ==> s[i] != s[j]
  }

  /** Position `middle + offset` as the loop of `countRelativePositions` adjusts it: when the
      handler is cycled, a negative position is counted back from `count` once and a position
      past the end is reduced modulo `count`; otherwise it is left as it is. */
  function At(count: int, cycled: bool, middle: int, offset: int): int
    requires count > 0
  {
    var q := middle + offset;
    if cycled && q < 0 then count + q
    else if cycled && q >= count then q % count
    else q
  }

  /** The positions of offsets `lo .. hi - 1`, in offset order, each kept only the first time
      it comes up. */
  function Gather(count: int, cycled: bool, middle: int, lo: int, hi: int): (r: seq<int>)
    requires count > 0
    ensures NoDup(r)
    ensures |r| <= if hi <= lo then 0 else hi - lo
    ensures forall x :: x in r <==> exists o :: lo <= o < hi && x == At(count, cycled, middle, o)
    decreases hi - lo
  {
    if hi <= lo then []
    else
      var g := Gather(count, cycled, middle, lo, hi - 1);
      var x := At(count, cycled, middle, hi - 1);
      if x in g then g else g + [x]
  }

  /** `countRelativePositions(middle)`: empty for an empty data set, otherwise the positions of
      the offsets `-border .. border`. */
  function RelativePositions(count: nat, border: int, cycled: bool, middle: int): (r: seq<int>)
    ensures count == 0 ==> r == []
    ensures NoDup(r)
    ensures |r| <= if border < 0 then 0 else 2 * border + 1
    ensures count > 0 ==> forall x :: x in r <==>
              exists o :: -border <= o <= border && x == At(count, cycled, middle, o)
  {
    if count == 0 then [] else Gather(count, cycled, middle, -border, border + 1)
  }

  /** The middle position is in its own window whenever it is a position of the data set. */
  lemma WindowHasMiddle(count: nat, border: int, cycled: bool, middle: int)
    requires 0 <= middle < count && border >= 0
    ensures middle in RelativePositions(count, border, cycled, middle)
  {
    assert At(count, cycled, middle, 0) == middle;
  }

  /** A cycled window narrower than the data set stays inside it. */
  lemma CycledWindowInRange(count: nat, border: int, middle: int)
    requires 0 <= middle < count && border < count
    ensures forall x :: x in RelativePositions(count, border, true, middle) ==> 0 <= x < count
  {
  }

  /** An uncycled window is the plain interval around the middle, out-of-range positions
      included. */
  lemma UncycledWindow(count: nat, border: int, middle: int)
    requires count > 0
    ensures forall x :: x in RelativePositions(count, border, false, middle) <==>
              middle - border <= x <= middle + border
  {
    forall x | middle - border <= x <= middle + border
      ensures x in RelativePositions(count, border, false, middle)
    {
      assert x == At(count, false, middle, x - middle);
    }
  }

  // ----- cursor arithmetic -------------------------------------------------------------

  /** The step of `getNextPosition` on a data set of `count` items. */
  function StepForward(count: int, cycled: bool, pos: int): int {
    if pos == count - 1 then (if cycled then 0 else count - 1) else pos + 1
  }

  /** The step of `getPrevPosition` on a data set of `count` items. */
  function StepBack(count: int, cycled: bool, pos: int): int {
    if pos == 0 then (if cycled then count - 1 else 0) else pos - 1
  }

  /** `getNextPosition()`: both branches ask the adapter for its count, so with no adapter the
      call throws. */
  function NextPosition<I>(p: Pager<I>): (r: Result<int, JavaError>)
    ensures r.Failure? <==> p.adapter.None?
    ensures r.Failure? ==> r.error == NullPointer
    ensures r.Success? ==> r.value == StepForward(p.adapter.value.count, p.cycled, p.position)
  {
    match p.adapter
    case None => Failure(NullPointer)
    case Some(a) =>
      if p.cycled then Success(if p.position == a.count - 1 then 0 else p.position + 1)
      else Success(if p.position == a.count - 1 then a.count - 1 else p.position + 1)
  }

  /** `getPrevPosition()`: only the cycled step back from 0 asks the adapter for its count. */
  function PrevPosition<I>(p: Pager<I>): (r: Result<int, JavaError>)
    ensures r.Failure? <==> p.adapter.None? && p.cycled && p.position == 0
    ensures r.Failure? ==> r.error == NullPointer
    ensures r.Success? && p.adapter.Some? ==>
              r.value == StepBack(p.adapter.value.count, p.cycled, p.position)
    ensures r.Success? && p.adapter.None? ==> r.value == StepBack(0, p.cycled, p.position)
  {
    if p.cycled then
      if p.position == 0 then
        match p.adapter
        case None => Failure(NullPointer)
        case Some(a) => Success(a.count - 1)
      else Success(p.position - 1)
    else Success(if p.position == 0 then 0 else p.position - 1)
  }

  /** Cycled, the two steps stay in range and undo each other. */
  lemma CycledStepsInverse(count: int, pos: int)
    requires 0 <= pos < count
    ensures 0 <= StepForward(count, true, pos) < count && 0 <= StepBack(count, true, pos) < count
    ensures StepBack(count, true, StepForward(count, true, pos)) == pos
    ensures StepForward(count, true, StepBack(count, true, pos)) == pos
  {
  }

  /** Uncycled, the two steps saturate at the ends of the data set. */
  lemma UncycledStepsSaturate(count: int, pos: int)
    requires 0 <= pos < count
    ensures StepForward(count, false, pos) == if pos + 1 < count then pos + 1 else count - 1
    ensures StepBack(count, false, pos) == if pos > 0 then pos - 1 else 0
    ensures 0 <= StepForward(count, false, pos) < count && 0 <= StepBack(count, false, pos) < count
  {
  }

  // ----- preloading and destroying -----------------------------------------------------

  /** The loop of `preloadInfo`: every position of `ps` without an item gets one from `make`.
      Returns the new array and the positions instantiated, in order. */
  function Fill<I>(held: seq<Slot<I>>, ps: seq<int>, make: int -> I): (r: (seq<Slot<I>>, seq<int>))
    decreases |ps|
  {
    if |ps| == 0 then (held, [])
    else
      var (h, made) := Fill(held, ps[..|ps| - 1], make);
      var q := ps[|ps| - 1];
      if Get(h, q).Some? then (h, made) else (Put(h, q, make(q)), made + [q])
  }

  /** The loop of `destroyInfo`, by ascending key: the slots whose key is in `ps` are kept, the
      others are dropped. Returns the kept and the dropped slots. */
  function Prune<I>(held: seq<Slot<I>>, ps: seq<int>): (r: (seq<Slot<I>>, seq<Slot<I>>))
    ensures |r.0| + |r.1| == |held|
    decreases |held|
  {
    if |held| == 0 then ([], [])
    else
      var (kept, dropped) := Prune(held[..|held| - 1], ps);
      var s := held[|held| - 1];
      if s.key in ps then (kept + [s], dropped) else (kept, dropped + [s])
  }

  function Instantiations<I>(made: seq<int>): (r: seq<Event<I>>)
    ensures |r| == |made| && forall i :: 0 <= i < |made| ==> r[i] == Instantiated(made[i])
  {
    seq(|made|, i requires 0 <= i < |made| => Instantiated(made[i]))
  }

  function Destructions<I>(dropped: seq<Slot<I>>): (r: seq<Event<I>>)
    ensures |r| == |dropped|
    ensures forall i :: 0 <= i < |dropped| ==> r[i] == Destroyed(dropped[i].key, dropped[i].value)
  {
    seq(|dropped|, i requires 0 <= i < |dropped| => Destroyed(dropped[i].key, dropped[i].value))
  }

  /** Whether `preloadInfo(middle)` and `destroyInfo(middle)` return at once: no adapter, or a
      middle position outside `0 .. count` (`count` itself is let through). */
  predicate Skips<I>(p: Pager<I>, middle: int) {
    p.adapter.None? || middle < 0 || middle > p.adapter.value.count
  }

  function Window<I>(p: Pager<I>, middle: int): seq<int>
    requires p.adapter.Some?
  {
    RelativePositions(p.adapter.value.count, p.border, p.cycled, middle)
  }

  /** `preloadInfo(middle)`: the new item array and the calls made. */
  function PreloadInfo<I>(p: Pager<I>, middle: int): (r: (seq<Slot<I>>, seq<Event<I>>))
    ensures Skips(p, middle) ==> r == (p.held, [])
  {
    if Skips(p, middle) then (p.held, [])
    else
      var (h, made) := Fill(p.held, Window(p, middle), p.adapter.value.instantiate);
      (h, [StartUpdate] + Instantiations(made) + [FinishUpdate])
  }

  /** `destroyInfo(middle)`: the new item array and the calls made. */
  function DestroyInfo<I>(p: Pager<I>, middle: int): (r: (seq<Slot<I>>, seq<Event<I>>))
    ensures Skips(p, middle) ==> r == (p.held, [])
  {
    if Skips(p, middle) then (p.held, [])
    else
      var (kept, dropped) := Prune(p.held, Window(p, middle));
      (kept, [StartUpdate] + Destructions(dropped) + [FinishUpdate])
  }

  /** Unless it returns at once, `preloadInfo(middle)` brackets its calls with `startUpdate`
      and `finishUpdate`, instantiates exactly the window positions not held yet, and leaves
      the array holding the old keys plus the window. */
  lemma PreloadInfoEffect<I>(p: Pager<I>, middle: int)
    requires !Skips(p, middle)
    ensures Keys(PreloadInfo(p, middle).0) == Keys(p.held) + Elems(Window(p, middle))
    ensures var e := PreloadInfo(p, middle).1;
      |e| >= 2 && e[0] == StartUpdate && e[|e| - 1] == FinishUpdate
    ensures forall k :: Instantiated(k) in PreloadInfo(p, middle).1 <==>
              k in Window(p, middle) && k !in Keys(p.held)
  {
    var w, make := Window(p, middle), p.adapter.value.instantiate;
    var made := Fill(p.held, w, make).1;
    FillKeys(p.held, w, make);
    FillMade(p.held, w, make);
    var e := PreloadInfo(p, middle).1;
    assert e == [StartUpdate] + Instantiations(made) + [FinishUpdate];
    forall k ensures Instantiated(k) in e <==> k in made {
      if Instantiated(k) in e {
        var i :| 0 <= i < |e| && e[i] == Instantiated(k);
        assert made[i - 1] == k;
      }
      if k in made {
        var i :| 0 <= i < |made| && made[i] == k;
        assert e[i + 1] == Instantiated(k);
      }
    }
  }

  /** Unless it returns at once, `destroyInfo(middle)` brackets its calls with `startUpdate`
      and `finishUpdate`, destroys every held item outside the window and nothing else, and
      leaves the array holding exactly the old keys inside the window. */
  lemma DestroyInfoEffect<I>(p: Pager<I>, middle: int)
    requires !Skips(p, middle)
    ensures Keys(DestroyInfo(p, middle).0) == Keys(p.held) * Elems(Window(p, middle))
    ensures var e := DestroyInfo(p, middle).1;
      |e| >= 2 && e[0] == StartUpdate && e[|e| - 1] == FinishUpdate
    ensures var e := DestroyInfo(p, middle).1;
      forall i :: 0 < i < |e| - 1 ==>
        e[i].Destroyed? && Slot(e[i].at, e[i].item) in p.held && e[i].at !in Window(p, middle)
    ensures forall j :: 0 <= j < |p.held| && p.held[j].key !in Window(p, middle) ==>
              Destroyed(p.held[j].key, p.held[j].value) in DestroyInfo(p, middle).1
  {
    var w := Window(p, middle);
    var dropped := Prune(p.held, w).1;
    PruneKeys(p.held, w);
    PruneDropped(p.held, w);
    var e := DestroyInfo(p, middle).1;
    assert e == [StartUpdate] + Destructions(dropped) + [FinishUpdate];
    forall i | 0 < i < |e| - 1
      ensures e[i].Destroyed? && Slot(e[i].at, e[i].item) in p.held && e[i].at !in w
    {
      assert e[i] == Destroyed(dropped[i - 1].key, dropped[i - 1].value);
      assert dropped[i - 1] in dropped;
    }
    forall j | 0 <= j < |p.held| && p.held[j].key !in w
      ensures Destroyed(p.held[j].key, p.held[j].value) in e
    {
      var i :| 0 <= i < |dropped| && dropped[i] == p.held[j];
      assert e[i + 1] == Destroyed(p.held[j].key, p.held[j].value);
    }
  }

  function Elems(ps: seq<int>): set<int> {
    set x | x in ps
  }

  /** After the preload loop the array holds the old keys and the window. */
  lemma {:induction false} FillKeys<I>(held: seq<Slot<I>>, ps: seq<int>, make: int -> I)
    ensures Keys(Fill(held, ps, make).0) == Keys(held) + Elems(ps)
    decreases |ps|
  {
    if |ps| > 0 {
      var init := ps[..|ps| - 1];
      FillKeys(held, init, make);
      assert ps == init + [ps[|ps| - 1]];
      assert Elems(ps) == Elems(init) + {ps[|ps| - 1]};
    }
  }

  lemma {:induction false} FillValid<I>(held: seq<Slot<I>>, ps: seq<int>, make: int -> I)
    requires Valid(held)
    ensures Valid(Fill(held, ps, make).0)
    decreases |ps|
  {
    if |ps| > 0 {
      var init := ps[..|ps| - 1];
      FillValid(held, init, make);
      var h := Fill(held, init, make).0;
      PutValid(h, ps[|ps| - 1], make(ps[|ps| - 1]));
    }
  }

  /** An item already held is kept as it is: the preload loop never instantiates it again. */
  lemma {:induction false} FillKeeps<I>(held: seq<Slot<I>>, ps: seq<int>, make: int -> I)
    ensures forall k :: k in Keys(held) ==> Get(Fill(held, ps, make).0, k) == Get(held, k)
    decreases |ps|
  {
    if |ps| > 0 {
      var init := ps[..|ps| - 1];
      var q := ps[|ps| - 1];
      FillKeeps(held, init, make);
      FillKeys(held, init, make);
      var h := Fill(held, init, make).0;
      if Get(h, q).None? {
        forall k | k in Keys(held)
          ensures Get(Put(h, q, make(q)), k) == Get(held, k)
        {
          PutGet(h, q, make(q), k);
        }
      }
    }
  }

  /** The preload loop instantiates exactly the window positions not held before. */
  lemma {:induction false} FillMade<I>(held: seq<Slot<I>>, ps: seq<int>, make: int -> I)
    ensures forall k :: k in Fill(held, ps, make).1 <==> k in ps && k !in Keys(held)
    decreases |ps|
  {
    if |ps| > 0 {
      var init := ps[..|ps| - 1];
      FillMade(held, init, make);
      FillKeys(held, init, make);
      assert ps == init + [ps[|ps| - 1]];
    }
  }

  /** Every window position not held before now holds the item `make` gives for it. */
  lemma {:induction false} FillNew<I>(held: seq<Slot<I>>, ps: seq<int>, make: int -> I)
    ensures forall k :: k in ps && k !in Keys(held) ==> Get(Fill(held, ps, make).0, k) == Some(make(k))
    decreases |ps|
  {
    if |ps| > 0 {
      var init := ps[..|ps| - 1];
      var q := ps[|ps| - 1];
      FillNew(held, init, make);
      FillKeys(held, init, make);
      var h := Fill(held, init, make).0;
      assert ps == init + [q];
      forall k | k in ps && k !in Keys(held)
        ensures Get(Fill(held, ps, make).0, k) == Some(make(k))
      {
        if Get(h, q).None? {
          PutGet(h, q, make(q), k);
        }
      }
    }
  }

  /** After the destroy loop the array holds exactly the old keys inside the window. */
  lemma {:induction false} PruneKeys<I>(held: seq<Slot<I>>, ps: seq<int>)
    ensures Keys(Prune(held, ps).0) == Keys(held) * Elems(ps)
    decreases |held|
  {
    if |held| > 0 {
      var init := held[..|held| - 1];
      var s := held[|held| - 1];
      PruneKeys(init, ps);
      assert held == init + [s];
      KeysConcat(init, [s]);
      KeysConcat(Prune(init, ps).0, [s]);
      assert Keys([s]) == {s.key} by {
        assert [s][1..] == [];
      }
    }
  }

  /** The items kept are the ones held before: nothing inside the window is replaced. */
  lemma {:induction false} PruneGet<I>(held: seq<Slot<I>>, ps: seq<int>, k: int)
    ensures Get(Prune(held, ps).0, k) == if k in ps then Get(held, k) else None
    decreases |held|
  {
    if |held| > 0 {
      var init := held[..|held| - 1];
      var s := held[|held| - 1];
      PruneGet(init, ps, k);
      PruneKeys(init, ps);
      assert held == init + [s];
      GetSnoc(init, s, k);
      GetSnoc(Prune(init, ps).0, s, k);
    }
  }

  /** The destroy loop drops exactly the held slots outside the window, in key order. */
  lemma {:induction false} PruneDropped<I>(held: seq<Slot<I>>, ps: seq<int>)
    ensures forall s :: s in Prune(held, ps).1 <==> s in held && s.key !in ps
    decreases |held|
  {
    if |held| > 0 {
      var init := held[..|held| - 1];
      PruneDropped(init, ps);
      assert held == init + [held[|held| - 1]];
    }
  }

  lemma {:induction false} PruneValid<I>(held: seq<Slot<I>>, ps: seq<int>)
    requires Valid(held)
    ensures Valid(Prune(held, ps).0)
    decreases |held|
  {
    if |held| > 0 {
      var init := held[..|held| - 1];
      var s := held[|held| - 1];
      ValidInit(held, init);
      PruneValid(init, ps);
      PruneKeys(init, ps);
      if s.key in ps {
        ValidSnoc(Prune(init, ps).0, s);
      }
    }
  }

  /** One more slot through the destroy loop. */
  lemma PruneNext<I>(held: seq<Slot<I>>, ps: seq<int>, j: int)
    requires 0 <= j < |held|
    ensures Prune(held[..j + 1], ps) ==
            if held[j].key in ps then (Prune(held[..j], ps).0 + [held[j]], Prune(held[..j], ps).1)
            else (Prune(held[..j], ps).0, Prune(held[..j], ps).1 + [held[j]])
  {
    assert held[..j + 1][..j] == held[..j];
  }

  /** The loop of `destroyInfo` as written: it walks the slots by index and, on removing one,
      steps the index and the slot count back so that the next slot is not skipped. */
  method PruneLoop<I>(held: seq<Slot<I>>, ps: seq<int>) returns (kept: seq<Slot<I>>, dropped: seq<Slot<I>>)
    requires Valid(held)
    ensures kept == Prune(held, ps).0 && dropped == Prune(held, ps).1
  {
    kept := held;
    dropped := [];
    var i := 0;
    var childCount := |held|;
    ghost var j := 0;
    hide Prune, Valid, Remove;
    while i < childCount
      invariant 0 <= j <= |held| && 0 <= i <= childCount == |kept|
      invariant kept == Prune(held[..j], ps).0 + held[j..]
      invariant dropped == Prune(held[..j], ps).1
      invariant i == |Prune(held[..j], ps).0|
      invariant Valid(kept)
      decreases childCount - i
    {
      PruneNext(held, ps, j);
      var key := kept[i].key;
      assert kept[i] == held[j];
      var unit := Get(kept, key).value;
      if key !in ps {
        dropped := dropped + [Slot(key, unit)];
        RemoveAt(kept, i);
        RemoveValid(kept, key);
        kept := Remove(kept, key);
        i := i - 1;
        childCount := childCount - 1;
      }
      i := i + 1;
      j := j + 1;
    }
    assert |held[j..]| == 0;
    assert held[..j] == held;
  }

  // ----- the public operations ---------------------------------------------------------

  /** The target notifications among a run of events. */
  function Notifications<I>(e: seq<Event<I>>): seq<Event<I>> {
    if |e| == 0 then [] else (if e[0].PositionChanged? then [e[0]] else []) + Notifications(e[1..])
  }

  lemma {:induction false} NotificationsConcat<I>(a: seq<Event<I>>, b: seq<Event<I>>)
    ensures Notifications(a + b) == Notifications(a) + Notifications(b)
    decreases |a|
  {
    if |a| > 0 {
      assert (a + b)[1..] == a[1..] + b;
      NotificationsConcat(a[1..], b);
    } else {
      assert a + b == b;
    }
  }

  lemma {:induction false} NotificationsNone<I>(e: seq<Event<I>>)
    requires forall i :: 0 <= i < |e| ==> !e[i].PositionChanged?
    ensures Notifications(e) == []
    decreases |e|
  {
    if |e| > 0 {
      NotificationsNone(e[1..]);
    }
  }

  /** `setPosition` (`Jump`), `moveTo` (`Animate`) and `setPositionWithoutNotification`
      (`Silent`): preload around the target, move the cursor, notify, destroy what fell out
      of the window. Returns the new handler, the calls made and the returned flag. */
  function MoveTo<I>(p: Pager<I>, target: int, notify: Notify): (r: (Pager<I>, seq<Event<I>>, bool))
    ensures r.2 <==> !(target == p.position && p.adapter.None?)
    ensures !r.2 ==> r.0 == p && r.1 == []
    ensures r.2 ==> r.0.position == target
    ensures r.0.adapter == p.adapter && r.0.cycled == p.cycled && r.0.border == p.border
  {
    if target == p.position && p.adapter.None? then (p, [], false)
    else
      var (h1, e1) := PreloadInfo(p, target);
      var p1 := p.(held := h1, position := target);
      var e2 := if notify == Silent then [] else [PositionChanged(p.position, target, notify == Animate)];
      var (h2, e3) := DestroyInfo(p1, target);
      (p1.(held := h2), e1 + e2 + e3, true)
  }

  /** With an adapter and a target in `0 .. count`, the items held after a move are exactly
      those of the target's window; items that stay in the window are not replaced, and the
      others come fresh from the adapter. */
  lemma MoveToWindow<I>(p: Pager<I>, target: int, notify: Notify)
    requires Inv(p) && p.adapter.Some? && 0 <= target <= p.adapter.value.count
    ensures Keys(MoveTo(p, target, notify).0.held) == Elems(Window(p, target))
    ensures forall k :: k in Window(p, target) && k in Keys(p.held) ==>
              Get(MoveTo(p, target, notify).0.held, k) == Get(p.held, k)
    ensures forall k :: k in Window(p, target) && k !in Keys(p.held) ==>
              Get(MoveTo(p, target, notify).0.held, k) == Some(p.adapter.value.instantiate(k))
  {
    var w := Window(p, target);
    var make := p.adapter.value.instantiate;
    var h1 := Fill(p.held, w, make).0;
    FillKeys(p.held, w, make);
    FillKeeps(p.held, w, make);
    FillNew(p.held, w, make);
    PruneKeys(h1, w);
    forall k | k in w
      ensures Get(MoveTo(p, target, notify).0.held, k) == Get(h1, k)
    {
      PruneGet(h1, w, k);
    }
  }

  /** Only `setPosition` and `moveTo` notify the target, once, with the old and the new
      position and their own animation flag. */
  lemma MoveToNotifies<I>(p: Pager<I>, target: int, notify: Notify)
    ensures Notifications(MoveTo(p, target, notify).1) ==
            if !MoveTo(p, target, notify).2 || notify == Silent then []
            else [PositionChanged(p.position, target, notify == Animate)]
  {
    var r := MoveTo(p, target, notify);
    if r.2 {
      var e1 := PreloadInfo(p, target).1;
      var p1 := p.(held := PreloadInfo(p, target).0, position := target);
      var e3 := DestroyInfo(p1, target).1;
      var e2 := if notify == Silent then [] else [PositionChanged(p.position, target, notify == Animate)];
      NotificationsNone(e1);
      NotificationsNone(e3);
      NotificationsConcat(e1, e2);
      NotificationsConcat(e1 + e2, e3);
      assert Notifications(e2) == e2 by {
        if notify != Silent {
          assert e2[1..] == [];
        }
      }
    }
  }

  /** Moves keep the handler well formed. */
  lemma MoveToInv<I>(p: Pager<I>, target: int, notify: Notify)
    requires Inv(p)
    ensures Inv(MoveTo(p, target, notify).0)
  {
    if MoveTo(p, target, notify).2 && !Skips(p, target) {
      var w := Window(p, target);
      var h1 := Fill(p.held, w, p.adapter.value.instantiate).0;
      FillValid(p.held, w, p.adapter.value.instantiate);
      PruneValid(h1, w);
    }
  }

  /** `moveToNext()`: `moveTo(getNextPosition())`. */
  function MoveToNext<I>(p: Pager<I>): (r: Result<(Pager<I>, seq<Event<I>>, bool), JavaError>)
    ensures r.Failure? <==> p.adapter.None?
    ensures r.Success? ==> r.value.2 && r.value.0.position == StepForward(p.adapter.value.count, p.cycled, p.position)
  {
    match NextPosition(p)
    case Failure(e) => Failure(e)
    case Success(n) => Success(MoveTo(p, n, Animate))
  }

  /** `moveToPrev()`: `moveTo(getPrevPosition())`. */
  function MoveToPrev<I>(p: Pager<I>): (r: Result<(Pager<I>, seq<Event<I>>, bool), JavaError>)
    ensures r.Failure? <==> p.adapter.None? && p.cycled && p.position == 0
    ensures r.Success? && p.adapter.Some? ==>
              r.value.2 && r.value.0.position == StepBack(p.adapter.value.count, p.cycled, p.position)
    ensures r.Success? && p.adapter.None? ==> r.value.0.position == StepBack(0, p.cycled, p.position)
  {
    match PrevPosition(p)
    case Failure(e) => Failure(e)
    case Success(n) => Success(MoveTo(p, n, Animate))
  }

  /** The `destroyItem` calls of `setAdapter` as written: each held item is passed with
      `indexOfValue(item)`, the index of its first slot, as its position. */
  function Teardown<I(==)>(held: seq<Slot<I>>): (r: seq<Event<I>>)
    ensures |r| == |held|
    ensures forall i :: 0 <= i < |held| ==>
              && r[i].Destroyed? && r[i].item == held[i].value
              && 0 <= r[i].at <= i && held[r[i].at].value == held[i].value
              && forall j :: 0 <= j < r[i].at ==> held[j].value != held[i].value
  {
    seq(|held|, i requires 0 <= i < |held| => Destroyed(IndexOfValue(held, held[i].value), held[i].value))
  }

  /** `setAdapter(next)` with the given teardown of the old items. */
  function SwapAdapter<I>(p: Pager<I>, next: Option<Adapter<I>>, teardown: seq<Event<I>>): (r: (Pager<I>, seq<Event<I>>))
    ensures r.0.adapter == next
    ensures r.0.position == if next.None? then PositionNone else 0
    ensures |r.1| > 0 && r.1[|r.1| - 1] == AdapterChanged(p.adapter, next)
    ensures p.adapter.Some? ==> |r.1| > |teardown| + 1 && r.1[..|teardown| + 1] == [StartUpdate] + teardown
    ensures r.0.cycled == p.cycled && r.0.border == p.border
  {
    var (held0, e0) :=
      if p.adapter.Some? then ([], [StartUpdate] + teardown + [FinishUpdate, DetachedFromTarget])
      else (p.held, []);
    var p1 := p.(adapter := next, held := held0, position := if next.None? then PositionNone else 0);
    if next.Some? then
      var (h, e1) := PreloadInfo(p1, 0);
      (p1.(held := h), e0 + [AttachedToTarget] + e1 + [AdapterChanged(p.adapter, next)])
    else (p1, e0 + [AdapterChanged(p.adapter, next)])
  }

  /** `setAdapter(next)` as written. */
  function SetAdapter<I(==)>(p: Pager<I>, next: Option<Adapter<I>>): (r: (Pager<I>, seq<Event<I>>))
    ensures r.0.adapter == next
    ensures r.0.position == if next.None? then PositionNone else 0
    ensures p.adapter.Some? ==> |r.1| > |p.held| + 1 && r.1[..|p.held| + 1] == [StartUpdate] + Teardown(p.held)
    ensures |r.1| > 0 && r.1[|r.1| - 1] == AdapterChanged(p.adapter, next)
    ensures r.0.cycled == p.cycled && r.0.border == p.border
  {
    SwapAdapter(p, next, Teardown(p.held))
  }

  /** `setAdapter(next)` reporting each destroyed item at the position it was instantiated
      for, as `destroyItem` is documented and as `destroyInfo` does. */
  function SetAdapterByKey<I>(p: Pager<I>, next: Option<Adapter<I>>): (r: (Pager<I>, seq<Event<I>>))
    ensures r.0.adapter == next
    ensures r.0.position == if next.None? then PositionNone else 0
    ensures p.adapter.Some? ==> |r.1| > |p.held| + 1 && r.1[..|p.held| + 1] == [StartUpdate] + Destructions(p.held)
    ensures |r.1| > 0 && r.1[|r.1| - 1] == AdapterChanged(p.adapter, next)
    ensures r.0.cycled == p.cycled && r.0.border == p.border
  {
    SwapAdapter(p, next, Destructions(p.held))
  }

  /** After `setAdapter`, nothing of the old adapter is held: with no new adapter the array is
      empty, otherwise it holds fresh items of the new adapter for exactly the window around
      position 0. */
  lemma SwapAdapterHeld<I>(p: Pager<I>, next: Option<Adapter<I>>, teardown: seq<Event<I>>)
    requires Inv(p)
    ensures Inv(SwapAdapter(p, next, teardown).0)
    ensures next.None? ==> SwapAdapter(p, next, teardown).0.held == []
    ensures next.Some? ==>
              Keys(SwapAdapter(p, next, teardown).0.held) ==
              Elems(RelativePositions(next.value.count, p.border, p.cycled, 0))
    ensures next.Some? ==> forall k :: k in Keys(SwapAdapter(p, next, teardown).0.held) ==>
              Get(SwapAdapter(p, next, teardown).0.held, k) == Some(next.value.instantiate(k))
  {
    if next.Some? {
      var w := RelativePositions(next.value.count, p.border, p.cycled, 0);
      var make := next.value.instantiate;
      assert Keys<I>([]) == {};
      FillKeys([], w, make);
      FillNew([], w, make);
      FillValid([], w, make);
    }
  }

  /** With distinct items, `setAdapter` as written passes each item's slot index to
      `destroyItem`, not the position it was instantiated for. */
  lemma TeardownSlotIndex<I>(held: seq<Slot<I>>)
    requires forall i, j :: 0 <= i < j < |held| ==> held[i].value != held[j].value
    ensures forall i :: 0 <= i < |held| ==> Teardown(held)[i] == Destroyed(i, held[i].value)
  {
  }

  /** An item held for position 5 in the first slot: `setAdapter` as written reports it
      destroyed at position 0, the corrected one at 5. */
  lemma SetAdapterReportsSlotIndex<I>(a: Adapter<I>, x: I)
    ensures SetAdapter(Pager(Some(a), [Slot(5, x)], 5, false, 1), None).1[1] == Destroyed(0, x)
    ensures SetAdapterByKey(Pager(Some(a), [Slot(5, x)], 5, false, 1), None).1[1] == Destroyed(5, x)
  {
    var p := Pager(Some(a), [Slot(5, x)], 5, false, 1);
    assert SetAdapter(p, None).1[..2] == [StartUpdate] + Teardown(p.held);
    assert SetAdapterByKey(p, None).1[..2] == [StartUpdate] + Destructions(p.held);
  }

  /** The corrected teardown passes `destroyItem` the same (position, item) pairs as
      `destroyInfo` does for a window that no held item is in. */
  lemma SetAdapterByKeyAgrees<I>(p: Pager<I>, next: Option<Adapter<I>>)
    requires p.adapter.Some?
    ensures SetAdapterByKey(p, next).1[1..|p.held| + 1] == Destructions(Prune(p.held, []).1)
  {
    PruneAll(p.held);
    var e := SetAdapterByKey(p, next).1;
    assert e[1..|p.held| + 1] == e[..|p.held| + 1][1..];
  }

  lemma {:induction false} PruneAll<I>(held: seq<Slot<I>>)
    ensures Prune(held, []).1 == held && Prune(held, []).0 == []
    decreases |held|
  {
    if |held| > 0 {
      PruneAll(held[..|held| - 1]);
      assert held[..|held| - 1] + [held[|held| - 1]] == held;
    }
  }

  /** `get(position)`: null with no adapter, an `ArrayIndexOutOfBoundsException` outside
      `0 .. count - 1`, otherwise the held item, instantiated and stored first if missing. */
  function GetItem<I>(p: Pager<I>, position: int): (r: (Pager<I>, Result<Option<I>, JavaError>, seq<Event<I>>))
    ensures p.adapter.None? ==> r.1 == Success(None) && r.0 == p && r.2 == []
    ensures r.1.Failure? <==> p.adapter.Some? && !(0 <= position < p.adapter.value.count)
    ensures r.1.Failure? ==> r.1.error == IndexOutOfBounds && r.0 == p && r.2 == []
    ensures r.1.Success? && p.adapter.Some? ==>
              r.1.value.Some? && Keys(r.0.held) == Keys(p.held) + {position}
    ensures r.0.position == p.position && r.0.adapter == p.adapter
    ensures r.0.cycled == p.cycled && r.0.border == p.border
  {
    match p.adapter
    case None => (p, Success(None), [])
    case Some(a) =>
      if position < 0 || position >= a.count then (p, Failure(IndexOutOfBounds), [])
      else
        match Get(p.held, position)
        case Some(x) => (p, Success(Some(x)), [])
        case None =>
          var x := a.instantiate(position);
          (p.(held := Append(p.held, position, x)), Success(Some(x)), [Instantiated(position)])
  }

  /** What `get` returns is what the handler now holds for that position; an item already
      held is returned without a new instantiation, and no other position changes. */
  lemma GetItemHolds<I>(p: Pager<I>, position: int)
    requires Inv(p) && p.adapter.Some? && 0 <= position < p.adapter.value.count
    ensures Inv(GetItem(p, position).0)
    ensures Get(GetItem(p, position).0.held, position) == GetItem(p, position).1.value
    ensures Get(p.held, position).Some? ==>
              GetItem(p, position).1.value == Get(p.held, position) && GetItem(p, position).2 == []
    ensures Get(p.held, position).None? ==>
              GetItem(p, position).1.value == Some(p.adapter.value.instantiate(position)) &&
              GetItem(p, position).2 == [Instantiated(position)]
    ensures forall k :: k != position ==> Get(GetItem(p, position).0.held, k) == Get(p.held, k)
  {
    var x := p.adapter.value.instantiate(position);
    if Get(p.held, position).None? {
      AppendIsPut(p.held, position, x);
      PutValid(p.held, position, x);
      PutGet(p.held, position, x, position);
      forall k | k != position
        ensures Get(GetItem(p, position).0.held, k) == Get(p.held, k)
      {
        PutGet(p.held, position, x, k);
      }
    }
  }

  /** `getCount()`: 0 without an adapter. */
  function GetCount<I>(p: Pager<I>): (r: nat)
    ensures p.adapter.None? ==> r == 0
    ensures p.adapter.Some? ==> r == p.adapter.value.count
  {
    match p.adapter
    case None => 0
    case Some(a) => a.count
  }

  /** With an adapter, `get` throws exactly outside `0 .. getCount() - 1`. */
  lemma GetItemInCount<I>(p: Pager<I>, position: int)
    requires p.adapter.Some?
    ensures GetItem(p, position).1.Failure? <==> !(0 <= position < GetCount(p))
  {
  }

  /** `setRelativityBorder(b)`: the border becomes `max(b, 1)`, then the window around the
      cursor is preloaded. */
  function SetRelativityBorder<I>(p: Pager<I>, b: int): (r: (Pager<I>, seq<Event<I>>))
    ensures r.0.border >= DefaultRelativityBorder
    ensures r.0.border == if b >= DefaultRelativityBorder then b else DefaultRelativityBorder
    ensures r.0.position == p.position && r.0.cycled == p.cycled && r.0.adapter == p.adapter
  {
    var p1 := p.(border := if b > DefaultRelativityBorder then b else DefaultRelativityBorder);
    var (h, e) := PreloadInfo(p1, p1.position);
    (p1.(held := h), e)
  }

  /** Changing the border only adds items: it preloads the new window but destroys nothing. */
  lemma SetRelativityBorderAdds<I>(p: Pager<I>, b: int)
    requires Inv(p)
    ensures Inv(SetRelativityBorder(p, b).0)
    ensures Keys(p.held) <= Keys(SetRelativityBorder(p, b).0.held)
    ensures forall k :: k in Keys(p.held) ==> Get(SetRelativityBorder(p, b).0.held, k) == Get(p.held, k)
    ensures !Skips(p, p.position) ==>
              Keys(SetRelativityBorder(p, b).0.held) ==
              Keys(p.held) + Elems(Window(SetRelativityBorder(p, b).0, p.position))
  {
    var p1 := p.(border := if b > DefaultRelativityBorder then b else DefaultRelativityBorder);
    if !Skips(p1, p1.position) {
      var w := Window(p1, p1.position);
      var make := p.adapter.value.instantiate;
      FillKeys(p.held, w, make);
      FillKeeps(p.held, w, make);
      FillValid(p.held, w, make);
    }
  }
}
