/**
 * `MultiSelectHandler`: a list of selected items and the listeners told about it.
 *
 * The selection never holds an item twice. Selecting into an empty selection starts the
 * selection mode, emptying the selection finishes it, and every change is broadcast to the
 * listeners. `addListener` puts a listener at the front of the list and every broadcast walks
 * the list from the back, so listeners hear each signal in the order they were added.
 * Listener calls become a log of `Call`s.
 */
module MultiSelectHandler {

  /** What a listener is told: `onMultiSelectStart`, `onMultiSelectFinish`,
      `onMultiSelectItemSelected`, `onMultiSelectItemDeselected`. */
  datatype Signal<T> = Start | Finish | Selected(item: T) | Deselected(item: T)

  /** One listener call. */
  datatype Call<T, L> = Call(listener: L, signal: Signal<T>)

  /** The handler's fields: `SelectionsList` and `Listeners`. */
  datatype Handler<T, L> = Handler(selection: seq<T>, listeners: seq<L>)

  predicate NoDup<T(==)>(s: seq<T>) {
    forall i, j :: 0 <= i < j < |s| ==> s[i] != s[j]
  }

  /** A fresh handler. */
  function Empty<T, L>(): (r: Handler<T, L>)
    ensures r.selection == [] && r.listeners == []
  {
    Handler([], [])
  }

  // ----- listeners ---------------------------------------------------------------------

  /** One `triggerListeners...` loop: every listener gets `sig`, from the last in the list to
      the first. */
  function Broadcast<T, L>(ls: seq<L>, sig: Signal<T>): (r: seq<Call<T, L>>)
    ensures |r| == |ls|
    ensures forall i :: 0 <= i < |ls| ==> r[i] == Call(ls[|ls| - 1 - i], sig)
  {
    if |ls| == 0 then []
    else
      var b := Broadcast(ls[1..], sig);
      assert forall j :: 1 <= j < |ls| ==> ls[1..][j - 1] == ls[j];
      b + [Call(ls[0], sig)]
  }

  /** The broadcast loop as written, counting down from `Listeners.size() - 1`. */
  method Trigger<T, L>(ls: seq<L>, sig: Signal<T>) returns (calls: seq<Call<T, L>>)
    ensures |calls| == |ls|
    ensures forall i :: 0 <= i < |ls| ==> calls[i] == Call(ls[|ls| - 1 - i], sig)
  {
    calls := [];
    var i := |ls| - 1;
    while i >= 0
      invariant -1 <= i < |ls|
      invariant |calls| == |ls| - 1 - i
      invariant forall k :: 0 <= k < |calls| ==> calls[k] == Call(ls[|ls| - 1 - k], sig)
    {
      calls := calls + [Call(ls[i], sig)];
      i := i - 1;
    }
  }

  /** `addListener(l)`: inserts at index 0. */
  function AddListener<T, L>(h: Handler<T, L>, l: L): (r: Handler<T, L>)
    ensures r.selection == h.selection
    ensures |r.listeners| == |h.listeners| + 1 && r.listeners[0] == l && r.listeners[1..] == h.listeners
  {
    h.(listeners := [l] + h.listeners)
  }

  /** A listener added later hears every signal after all listeners added before it. */
  lemma AddListenerHearsLast<T, L>(h: Handler<T, L>, l: L, sig: Signal<T>)
    ensures Broadcast(AddListener(h, l).listeners, sig) == Broadcast(h.listeners, sig) + [Call(l, sig)]
  {
    var ls := AddListener(h, l).listeners;
    assert ls[1..] == h.listeners;
  }

  /** Listeners added one by one hear each signal in the order they were added. */
  lemma {:induction false} RegistrationOrder<T, L>(h: Handler<T, L>, added: seq<L>, sig: Signal<T>)
    ensures Broadcast(AddAll(h, added).listeners, sig) ==
            Broadcast(h.listeners, sig) + seq(|added|, i requires 0 <= i < |added| => Call(added[i], sig))
    decreases |added|
  {
    if |added| > 0 {
      var init := added[..|added| - 1];
      RegistrationOrder(h, init, sig);
      AddListenerHearsLast(AddAll(h, init), added[|added| - 1], sig);
    }
  }

  /** `addListener` for each of `added`, in order. */
  function AddAll<T, L>(h: Handler<T, L>, added: seq<L>): (r: Handler<T, L>)
    ensures r.selection == h.selection
    decreases |added|
  {
    if |added| == 0 then h else AddListener(AddAll(h, added[..|added| - 1]), added[|added| - 1])
  }

  /** `removeListener(l)`: `ArrayList.remove(Object)` drops the first occurrence. */
  function RemoveFirst<T(==)>(s: seq<T>, x: T): (r: seq<T>)
    ensures x !in s ==> r == s
    ensures x in s ==> |r| == |s| - 1 && multiset(r) == multiset(s) - multiset{x}
  {
    if |s| == 0 then []
    else if s[0] == x then
      assert s == [s[0]] + s[1..];
      s[1..]
    else
      var t := RemoveFirst(s[1..], x);
      assert s == [s[0]] + s[1..];
      [s[0]] + t
  }

  /** `remove(Object)` cuts out exactly the first occurrence. */
  lemma {:induction false} RemoveFirstAt<T>(s: seq<T>, x: T, i: int)
    requires 0 <= i < |s| && s[i] == x && x !in s[..i]
    ensures RemoveFirst(s, x) == s[..i] + s[i + 1..]
    decreases i
  {
    if i > 0 {
      assert s[..i] == [s[0]] + s[1..][..i - 1];
      RemoveFirstAt(s[1..], x, i - 1);
      assert s[i + 1..] == s[1..][i..];
    }
  }

  function RemoveListener<T, L(==)>(h: Handler<T, L>, l: L): (r: Handler<T, L>)
    ensures r.selection == h.selection
    ensures l in h.listeners ==> |r.listeners| == |h.listeners| - 1
    ensures multiset(r.listeners) == multiset(h.listeners) - multiset{l}
  {
    h.(listeners := RemoveFirst(h.listeners, l))
  }

  /** `removeAllListeners()`. */
  function RemoveAllListeners<T, L>(h: Handler<T, L>): (r: Handler<T, L>)
    ensures r.selection == h.selection && r.listeners == []
  {
    h.(listeners := [])
  }

  // ----- selection ---------------------------------------------------------------------

  /** `selectItem(o)`: starts the selection mode when the selection is empty, does nothing
      when `o` is already selected, and otherwise appends `o` and broadcasts it. */
  function SelectItem<T(==), L>(h: Handler<T, L>, o: T): (r: (Handler<T, L>, seq<Call<T, L>>))
    ensures r.0.listeners == h.listeners
    ensures o in h.selection ==> r.0 == h && r.1 == []
    ensures o !in h.selection ==> r.0.selection == h.selection + [o]
    ensures o !in h.selection ==>
              r.1 == (if |h.selection| == 0 then Broadcast(h.listeners, Start) else []) +
                     Broadcast(h.listeners, Selected(o))
  {
    if |h.selection| == 0 then
      (h.(selection := [o]), Broadcast(h.listeners, Start) + Broadcast(h.listeners, Selected(o)))
    else if o in h.selection then (h, [])
    else (h.(selection := h.selection + [o]), Broadcast(h.listeners, Selected(o)))
  }

  /** `unselectItem(o)`: drops the first `o`, always broadcasts its deselection, and finishes
      the selection mode when nothing is left, even when `o` was not selected. */
  function UnselectItem<T(==), L>(h: Handler<T, L>, o: T): (r: (Handler<T, L>, seq<Call<T, L>>))
    ensures r.0.listeners == h.listeners
    ensures r.0.selection == RemoveFirst(h.selection, o)
    ensures r.1 == Broadcast(h.listeners, Deselected(o)) +
                   (if |r.0.selection| == 0 then Broadcast(h.listeners, Finish) else [])
  {
    var s := RemoveFirst(h.selection, o);
    (h.(selection := s), Broadcast(h.listeners, Deselected(o)) + (if |s| == 0 then Broadcast(h.listeners, Finish) else []))
  }

  /** The deselection broadcasts of `unselectAll`, from the last selected item to the first. */
  function DeselectEach<T, L>(ls: seq<L>, items: seq<T>): (r: seq<Call<T, L>>)
    ensures |r| == |ls| * |items|
    decreases |items|
  {
    if |items| == 0 then []
    else Broadcast(ls, Deselected(items[|items| - 1])) + DeselectEach(ls, items[..|items| - 1])
  }

  /** `unselectAll()`: on a non-empty selection, empties it, broadcasts the deselection of
      every item from the last selected to the first, then finishes; otherwise does nothing. */
  function UnselectAll<T, L>(h: Handler<T, L>): (r: (Handler<T, L>, seq<Call<T, L>>))
    ensures r.0.listeners == h.listeners && r.0.selection == []
    ensures |h.selection| == 0 ==> r.1 == []
  {
    if |h.selection| == 0 then (h, [])
    else (h.(selection := []), DeselectEach(h.listeners, h.selection) + Broadcast(h.listeners, Finish))
  }

  // ----- queries -----------------------------------------------------------------------

  /** `isSelected(o)`. */
  function IsSelected<T(==), L>(h: Handler<T, L>, o: T): (r: bool)
    ensures r <==> exists i :: 0 <= i < |h.selection| && h.selection[i] == o
  {
    o in h.selection
  }

  /** `isInSelectionMode()`. */
  function IsInSelectionMode<T, L>(h: Handler<T, L>): (r: bool)
    ensures r <==> exists x :: x in h.selection
  {
    assert |h.selection| != 0 ==> h.selection[0] in h.selection;
    |h.selection| != 0
  }

  /** `getSelectionsCount()`. */
  function SelectionsCount<T, L>(h: Handler<T, L>): (r: nat)
    ensures r == |h.selection|
  {
    |h.selection|
  }

  /** `getSelectionsList()`: a copy, equal element for element. */
  function SelectionsList<T, L>(h: Handler<T, L>): (r: seq<T>)
    ensures |r| == |h.selection| && forall i :: 0 <= i < |r| ==> r[i] == h.selection[i]
  {
    h.selection[..]
  }

  // ----- properties --------------------------------------------------------------------

  /** Selecting keeps the selection free of repeats. */
  lemma SelectKeepsNoDup<T, L>(h: Handler<T, L>, o: T)
    requires NoDup(h.selection)
    ensures NoDup(SelectItem(h, o).0.selection)
  {
    var s := SelectItem(h, o).0.selection;
    if o !in h.selection {
      forall i, j | 0 <= i < j < |s|
        ensures s[i] != s[j]
      {
        if j == |s| - 1 {
          assert s[i] == h.selection[i];
        }
      }
    }
  }

  /** On a selection without repeats, unselecting `o` removes it completely and keeps the
      order of everything else. */
  lemma UnselectRemoves<T, L>(h: Handler<T, L>, o: T)
    requires NoDup(h.selection)
    ensures var s := UnselectItem(h, o).0.selection;
            NoDup(s) && o !in s &&
            forall x :: x in s <==> x in h.selection && x != o
  {
    var s := h.selection;
    if o in s {
      var i :| 0 <= i < |s| && s[i] == o;
      assert o !in s[..i] by {
        forall k | 0 <= k < i
          ensures s[..i][k] != o
        {
          assert s[k] != s[i];
        }
      }
      RemoveFirstAt(s, o, i);
      CutUnique(s, i);
    }
  }

  /** Cutting slot `i` out of a sequence without repeats removes its item and nothing else. */
  lemma CutUnique<T>(s: seq<T>, i: int)
    requires NoDup(s) && 0 <= i < |s|
    ensures var r := s[..i] + s[i + 1..];
            NoDup(r) && forall x :: x in r <==> x in s && x != s[i]
  {
    var r := s[..i] + s[i + 1..];
    assert |r| == |s| - 1;
    assert forall k :: 0 <= k < |r| ==> r[k] == s[if k < i then k else k + 1];
    forall a, b | 0 <= a < b < |r|
      ensures r[a] != r[b]
    {
    }
    forall x
      ensures x in r <==> x in s && x != s[i]
    {
      if x in r {
        var k :| 0 <= k < |r| && r[k] == x;
      }
      if x in s && x != s[i] {
        var k :| 0 <= k < |s| && s[k] == x;
        if k < i { assert r[k] == x; } else { assert r[k - 1] == x; }
      }
    }
  }

  /** The signals one listener receives, in order. */
  function Heard<T, L(==)>(calls: seq<Call<T, L>>, l: L): (r: seq<Signal<T>>)
    ensures |r| <= |calls|
  {
    if |calls| == 0 then []
    else (if calls[0].listener == l then [calls[0].signal] else []) + Heard(calls[1..], l)
  }

  lemma {:induction false} HeardConcat<T, L>(a: seq<Call<T, L>>, b: seq<Call<T, L>>, l: L)
    ensures Heard(a + b, l) == Heard(a, l) + Heard(b, l)
    decreases |a|
  {
    if |a| == 0 {
      assert a + b == b;
    } else {
      assert (a + b)[1..] == a[1..] + b;
      HeardConcat(a[1..], b, l);
    }
  }

  /** A listener registered once hears each broadcast exactly once; one not registered hears
      nothing. */
  lemma {:induction false} HeardBroadcast<T, L>(ls: seq<L>, sig: Signal<T>, l: L)
    requires NoDup(ls)
    ensures Heard(Broadcast(ls, sig), l) == if l in ls then [sig] else []
    decreases |ls|
  {
    if |ls| > 0 {
      var b := Broadcast(ls[1..], sig);
      assert Broadcast(ls, sig) == b + [Call(ls[0], sig)];
      HeardConcat(b, [Call(ls[0], sig)], l);
      assert [Call(ls[0], sig)][1..] == [];
      assert NoDup(ls[1..]) by {
        forall i, j | 0 <= i < j < |ls| - 1
          ensures ls[1..][i] != ls[1..][j]
        {
          assert ls[i + 1] != ls[j + 1];
        }
      }
      HeardBroadcast(ls[1..], sig, l);
      assert l in ls <==> l == ls[0] || l in ls[1..] by {
        assert ls == [ls[0]] + ls[1..];
      }
      if l == ls[0] {
        assert l !in ls[1..] by {
          forall k | 0 <= k < |ls| - 1
            ensures ls[1..][k] != l
          {
            assert ls[0] != ls[k + 1];
          }
        }
      }
    }
  }

  /** The deselections a listener hears: the items from the last to the first. */
  function Reversed<T>(items: seq<T>): (r: seq<Signal<T>>)
    ensures |r| == |items|
    ensures forall i :: 0 <= i < |items| ==> r[i] == Deselected(items[|items| - 1 - i])
  {
    seq(|items|, i requires 0 <= i < |items| => Deselected(items[|items| - 1 - i]))
  }

  lemma {:induction false} HeardDeselectEach<T, L>(ls: seq<L>, items: seq<T>, l: L)
    requires NoDup(ls) && l in ls
    ensures Heard(DeselectEach(ls, items), l) == Reversed(items)
    decreases |items|
  {
    if |items| > 0 {
      var init := items[..|items| - 1];
      HeardConcat(Broadcast(ls, Deselected(items[|items| - 1])), DeselectEach(ls, init), l);
      HeardBroadcast(ls, Deselected(items[|items| - 1]), l);
      HeardDeselectEach(ls, init, l);
      assert Reversed(items) == [Deselected(items[|items| - 1])] + Reversed(init);
    }
  }

  /** What a registered listener hears from `unselectAll`: nothing on an empty selection,
      otherwise the deselection of every item from the last selected to the first, then the
      end of the selection mode. */
  lemma UnselectAllHeard<T, L>(h: Handler<T, L>, l: L)
    requires NoDup(h.listeners) && l in h.listeners
    ensures Heard(UnselectAll(h).1, l) ==
              if |h.selection| == 0 then [] else Reversed(h.selection) + [Finish]
  {
    if |h.selection| > 0 {
      HeardConcat(DeselectEach(h.listeners, h.selection), Broadcast(h.listeners, Finish), l);
      HeardDeselectEach(h.listeners, h.selection, l);
      HeardBroadcast<T, L>(h.listeners, Finish, l);
    }
  }

  /** What a registered listener hears from `selectItem` and `unselectItem`. */
  lemma SelectHeard<T, L>(h: Handler<T, L>, o: T, l: L)
    requires NoDup(h.listeners) && l in h.listeners
    ensures Heard(SelectItem(h, o).1, l) ==
              if o in h.selection then []
              else if |h.selection| == 0 then [Start, Selected(o)]
              else [Selected(o)]
  {
    if o !in h.selection {
      HeardBroadcast(h.listeners, Selected(o), l);
      if |h.selection| == 0 {
        HeardConcat(Broadcast(h.listeners, Start), Broadcast(h.listeners, Selected(o)), l);
        HeardBroadcast<T, L>(h.listeners, Start, l);
      } else {
        assert SelectItem(h, o).1 == Broadcast(h.listeners, Selected(o));
      }
    }
  }

  lemma UnselectHeard<T, L>(h: Handler<T, L>, o: T, l: L)
    requires NoDup(h.listeners) && l in h.listeners
    ensures Heard(UnselectItem(h, o).1, l) ==
              [Deselected(o)] + if |RemoveFirst(h.selection, o)| == 0 then [Finish] else []
  {
    var s := RemoveFirst(h.selection, o);
    var fin: seq<Call<T, L>> := if |s| == 0 then Broadcast(h.listeners, Finish) else [];
    HeardConcat(Broadcast(h.listeners, Deselected(o)), fin, l);
    HeardBroadcast(h.listeners, Deselected(o), l);
    HeardBroadcast<T, L>(h.listeners, Finish, l);
  }
}
