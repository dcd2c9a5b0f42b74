/**
 * `android.util.SparseArray<E>` as the pager uses it: a map from `int` keys to values whose
 * entries are kept in ascending key order, so that `keyAt(i)` and `valueAt(i)` walk the keys
 * from smallest to largest. It is modelled as a sequence of slots with strictly increasing
 * keys; `keyAt(i)` and `valueAt(i)` are `a[i].key` and `a[i].value`, and `size()` is `|a|`.
 */
module SparseArray {
  import opened Common

  datatype Slot<V> = Slot(key: int, value: V)

  function Keys<V>(a: seq<Slot<V>>): set<int> {
    if |a| == 0 then {} else {a[0].key} + Keys(a[1..])
  }

  /** Keys strictly ascending: each key lies below every key after it. */
  predicate Valid<V>(a: seq<Slot<V>>) {
    |a| == 0 || ((forall k :: k in Keys(a[1..]) ==> a[0].key < k) && Valid(a[1..]))
  }

  /** `get(key)`: the value stored under `k`, `None` standing for Java's `null`. */
  function Get<V>(a: seq<Slot<V>>, k: int): (r: Option<V>)
    ensures r.Some? <==> k in Keys(a)
    ensures forall i :: 0 <= i < |a| && a[i].key == k && Valid(a) ==> r == Some(a[i].value)
  {
    if |a| == 0 then None
    else if a[0].key == k then
      assert forall i :: 0 < i < |a| && Valid(a) ==> a[i].key != k by {
        forall i | 0 < i < |a| && Valid(a)
          ensures a[i].key != k
        {
          KeyIn(a[1..], i - 1);
        }
      }
      Some(a[0].value)
    else
      assert forall i :: 0 < i < |a| ==> a[1..][i - 1] == a[i];
      Get(a[1..], k)
  }

  /** The key of every slot is one of the keys. */
  lemma {:induction false} KeyIn<V>(a: seq<Slot<V>>, i: int)
    requires 0 <= i < |a|
    ensures a[i].key in Keys(a)
    decreases i
  {
    if i > 0 {
      KeyIn(a[1..], i - 1);
    }
  }

  /** `put(key, value)`: stores `v` under `k`, replacing any value already there. */
  function Put<V>(a: seq<Slot<V>>, k: int, v: V): (r: seq<Slot<V>>)
    ensures |r| > 0 && Keys(r) == Keys(a) + {k}
  {
    if |a| == 0 then [Slot(k, v)]
    else if k < a[0].key then
      assert ([Slot(k, v)] + a)[1..] == a;
      [Slot(k, v)] + a
    else if k == a[0].key then
      assert ([Slot(k, v)] + a[1..])[1..] == a[1..];
      [Slot(k, v)] + a[1..]
    else
      assert ([a[0]] + Put(a[1..], k, v))[1..] == Put(a[1..], k, v);
      [a[0]] + Put(a[1..], k, v)
  }

  /** `remove(key)`: drops the entry for `k`, if any. */
  function Remove<V>(a: seq<Slot<V>>, k: int): (r: seq<Slot<V>>)
    ensures Keys(r) == Keys(a) - {k}
  {
    if |a| == 0 then []
    else if a[0].key == k then Remove(a[1..], k)
    else
      assert ([a[0]] + Remove(a[1..], k))[1..] == Remove(a[1..], k);
      [a[0]] + Remove(a[1..], k)
  }

  /** `append(key, value)`: a plain append when `k` is above every key, otherwise `put`. */
  function Append<V>(a: seq<Slot<V>>, k: int, v: V): (r: seq<Slot<V>>)
    ensures Keys(r) == Keys(a) + {k}
  {
    if |a| > 0 && k <= a[|a| - 1].key then Put(a, k, v)
    else
      KeysConcat(a, [Slot(k, v)]);
      a + [Slot(k, v)]
  }

  /** `indexOfValue(value)`: the first slot holding `v`, or -1. */
  function IndexOfValue<V(==)>(a: seq<Slot<V>>, v: V): (r: int)
    ensures -1 <= r < |a|
    ensures r >= 0 ==> a[r].value == v
    ensures forall i :: 0 <= i < |a| && a[i].value == v ==> r != -1 && r <= i
  {
    if |a| == 0 then -1
    else if a[0].value == v then 0
    else
      var r := IndexOfValue(a[1..], v);
      assert forall i :: 0 < i < |a| ==> a[1..][i - 1] == a[i];
      if r == -1 then -1 else r + 1
  }

  lemma {:induction false} KeysConcat<V>(a: seq<Slot<V>>, b: seq<Slot<V>>)
    ensures Keys(a + b) == Keys(a) + Keys(b)
    decreases |a|
  {
    if |a| > 0 {
      assert (a + b)[1..] == a[1..] + b;
      KeysConcat(a[1..], b);
    } else {
      assert a + b == b;
    }
  }

  lemma {:induction false} PutValid<V>(a: seq<Slot<V>>, k: int, v: V)
    requires Valid(a)
    ensures Valid(Put(a, k, v))
    decreases |a|
  {
    if |a| > 0 && k > a[0].key {
      PutValid(a[1..], k, v);
      assert ([a[0]] + Put(a[1..], k, v))[1..] == Put(a[1..], k, v);
    } else if |a| > 0 && k == a[0].key {
      assert ([Slot(k, v)] + a[1..])[1..] == a[1..];
    } else if |a| > 0 {
      assert ([Slot(k, v)] + a)[1..] == a;
    }
  }

  /** After `put(k, v)`, `get(k)` is `v` and every other key reads as before. */
  lemma {:induction false} PutGet<V>(a: seq<Slot<V>>, k: int, v: V, j: int)
    ensures Get(Put(a, k, v), j) == if j == k then Some(v) else Get(a, j)
    decreases |a|
  {
    if |a| > 0 && k > a[0].key {
      var r := Put(a, k, v);
      assert r[1..] == Put(a[1..], k, v);
      if j != a[0].key {
        PutGet(a[1..], k, v, j);
      }
    } else if |a| > 0 && k == a[0].key {
      assert ([Slot(k, v)] + a[1..])[1..] == a[1..];
    } else if |a| > 0 {
      assert ([Slot(k, v)] + a)[1..] == a;
    }
  }

  /** `remove` keeps the order, so the keys stay ascending. */
  lemma {:induction false} RemoveValid<V>(a: seq<Slot<V>>, k: int)
    requires Valid(a)
    ensures Valid(Remove(a, k))
    decreases |a|
  {
    if |a| > 0 {
      RemoveValid(a[1..], k);
      if a[0].key != k {
        assert ([a[0]] + Remove(a[1..], k))[1..] == Remove(a[1..], k);
      }
    }
  }

  /** After `remove(k)`, `get(k)` is null and every other key reads as before. */
  lemma {:induction false} RemoveGet<V>(a: seq<Slot<V>>, k: int, j: int)
    ensures Get(Remove(a, k), j) == if j == k then None else Get(a, j)
    decreases |a|
  {
    if |a| > 0 {
      RemoveGet(a[1..], k, j);
      if a[0].key != k {
        assert ([a[0]] + Remove(a[1..], k))[1..] == Remove(a[1..], k);
      }
    }
  }

  /** Removing the key of slot `i` removes exactly that slot. */
  lemma {:induction false} RemoveAt<V>(a: seq<Slot<V>>, i: int)
    requires Valid(a) && 0 <= i < |a|
    ensures Remove(a, a[i].key) == a[..i] + a[i + 1..]
    decreases |a|
  {
    if i == 0 {
      RemoveAbsent(a[1..], a[0].key);
      assert a[..0] + a[1..] == a[1..];
    } else {
      KeyIn(a[1..], i - 1);
      assert a[1..][i - 1] == a[i];
      RemoveAt(a[1..], i - 1);
      assert a[..i] == [a[0]] + a[1..][..i - 1];
      assert a[i + 1..] == a[1..][i..];
    }
  }

  /** Removing a key that is not there changes nothing. */
  lemma {:induction false} RemoveAbsent<V>(a: seq<Slot<V>>, k: int)
    requires k !in Keys(a)
    ensures Remove(a, k) == a
    decreases |a|
  {
    if |a| > 0 {
      RemoveAbsent(a[1..], k);
      assert [a[0]] + a[1..] == a;
    }
  }

  /** On a valid array, `append` is `put`. */
  lemma AppendIsPut<V>(a: seq<Slot<V>>, k: int, v: V)
    requires Valid(a)
    ensures Append(a, k, v) == Put(a, k, v)
  {
    if !(|a| > 0 && k <= a[|a| - 1].key) {
      if |a| > 0 {
        LastIsMax(a);
      }
      PutPastEnd(a, k, v);
    }
  }

  /** The last key of a valid array is its largest. */
  lemma {:induction false} LastIsMax<V>(a: seq<Slot<V>>)
    requires Valid(a) && |a| > 0
    ensures forall x :: x in Keys(a) ==> x <= a[|a| - 1].key
    decreases |a|
  {
    if |a| > 1 {
      LastIsMax(a[1..]);
      assert a[1..][|a| - 2] == a[|a| - 1];
      KeyIn(a[1..], |a| - 2);
    }
  }

  lemma {:induction false} PutPastEnd<V>(a: seq<Slot<V>>, k: int, v: V)
    requires forall x :: x in Keys(a) ==> x < k
    ensures Put(a, k, v) == a + [Slot(k, v)]
    decreases |a|
  {
    if |a| > 0 {
      assert Keys(a) == {a[0].key} + Keys(a[1..]);
      PutPastEnd(a[1..], k, v);
      assert [a[0]] + (a[1..] + [Slot(k, v)]) == a + [Slot(k, v)];
    }
  }

  /** Looking a key up after appending one slot at the end. */
  lemma {:induction false} GetSnoc<V>(a: seq<Slot<V>>, s: Slot<V>, k: int)
    ensures Get(a + [s], k) == if k in Keys(a) then Get(a, k) else if s.key == k then Some(s.value) else None
    decreases |a|
  {
    if |a| > 0 {
      assert (a + [s])[1..] == a[1..] + [s];
      GetSnoc(a[1..], s, k);
    } else {
      assert a + [s] == [s];
    }
  }

  /** A valid array without its last slot is valid, and its keys lie below the last one. */
  lemma {:induction false} ValidInit<V>(a: seq<Slot<V>>, init: seq<Slot<V>>)
    requires Valid(a) && |a| > 0 && init == a[..|a| - 1]
    ensures Valid(init)
    ensures forall k :: k in Keys(init) ==> k < a[|a| - 1].key
    decreases |a|
  {
    if |a| > 1 {
      var t := a[1..];
      ValidInit(t, t[..|t| - 1]);
      assert init[0] == a[0] && init[1..] == t[..|t| - 1];
      assert t[|t| - 1] == a[|a| - 1];
      KeyIn(t, |t| - 1);
      assert t == t[..|t| - 1] + [t[|t| - 1]];
      KeysConcat(t[..|t| - 1], [t[|t| - 1]]);
      assert Keys(init) == {a[0].key} + Keys(init[1..]);
    }
  }

  /** Appending a slot above every key keeps an array valid. */
  lemma {:induction false} ValidSnoc<V>(a: seq<Slot<V>>, s: Slot<V>)
    requires Valid(a) && forall k :: k in Keys(a) ==> k < s.key
    ensures Valid(a + [s])
    decreases |a|
  {
    if |a| > 0 {
      assert Keys(a) == {a[0].key} + Keys(a[1..]);
      assert (a + [s])[0] == a[0] && (a + [s])[1..] == a[1..] + [s];
      ValidSnoc(a[1..], s);
      KeysConcat(a[1..], [s]);
      assert Keys([s]) == {s.key} by {
        assert [s][1..] == [];
      }
    } else {
      assert a + [s] == [s] && [s][1..] == [];
    }
  }
}
