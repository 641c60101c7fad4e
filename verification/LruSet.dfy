/** The set of recently inserted ids: despite its name, a window over the order of first insertion. */
module LruSets {
  /** The deque after one insertion. */
  function Inserted<T(==)>(deque: seq<T>, capacity: nat, v: T): seq<T>
    requires capacity > 0
  {
    if v in deque then deque
    else if |deque| == capacity then deque[1..] + [v]
    else deque + [v]
  }

  /** The deque after inserting these values, starting empty. */
  function DequeAfter<T(==)>(values: seq<T>, capacity: nat): seq<T>
    requires capacity > 0
  {
    if values == [] then []
    else Inserted(DequeAfter(values[..|values| - 1], capacity), capacity, values[|values| - 1])
  }

  /** The insertions that found their value absent, in order. */
  function Effective<T(==)>(values: seq<T>, capacity: nat): seq<T>
    requires capacity > 0
  {
    if values == [] then []
    else
      var prefix, v := values[..|values| - 1], values[|values| - 1];
      Effective(prefix, capacity) + if v in DequeAfter(prefix, capacity) then [] else [v]
  }

  function LastOf<T>(s: seq<T>, n: nat): seq<T> {
    if |s| <= n then s else s[|s| - n..]
  }

  ghost predicate NoDuplicates<T(!new)>(s: seq<T>) {
    forall i, j :: 0 <= i < j < |s| ==> s[i] != s[j]
  }

  /** The deque is the last capacity effective insertions, without duplicates. */
  lemma {:induction false} DequeIsWindow<T(!new)>(values: seq<T>, capacity: nat)
    requires capacity > 0
    ensures DequeAfter(values, capacity) == LastOf(Effective(values, capacity), capacity)
    ensures NoDuplicates(DequeAfter(values, capacity))
  {
    if values != [] {
      var prefix := values[..|values| - 1];
      DequeIsWindow(prefix, capacity);
      WindowMoves(Effective(prefix, capacity), capacity, values[|values| - 1]);
    }
  }

  lemma WindowMoves<T(!new)>(effective: seq<T>, capacity: nat, v: T)
    requires capacity > 0
    ensures var window := LastOf(effective, capacity);
      NoDuplicates(window) ==>
        && NoDuplicates(Inserted(window, capacity, v))
        && Inserted(window, capacity, v) == LastOf(effective + if v in window then [] else [v], capacity)
  {
    var window := LastOf(effective, capacity);
    if v in window {
      assert effective + [] == effective;
    } else {
      assert Inserted(window, capacity, v) == LastOf(effective + [v], capacity);
    }
  }

  lemma {:induction false} EffectiveGrows<T(!new)>(values: seq<T>, more: seq<T>, capacity: nat)
    requires capacity > 0
    ensures Effective(values, capacity) <= Effective(values + more, capacity)
  {
    if more == [] {
      assert values + more == values;
    } else {
      assert (values + more)[..|values + more| - 1] == values + more[..|more| - 1];
      EffectiveGrows(values, more[..|more| - 1], capacity);
    }
  }

  /** Insertions that found their value absent, after position i of these values. */
  function EffectiveAfter<T(==)>(values: seq<T>, i: nat, capacity: nat): int
    requires capacity > 0 && i < |values|
  {
    |Effective(values, capacity)| - |Effective(values[..i + 1], capacity)|
  }

  /** Position i is an insertion of v that found it absent, with none like it after. */
  ghost predicate LastEntry<T(!new)>(values: seq<T>, i: nat, v: T, capacity: nat)
    requires capacity > 0
  {
    && i < |values| && values[i] == v && v !in DequeAfter(values[..i], capacity)
    && forall j :: i < j < |values| && values[j] == v ==> v in DequeAfter(values[..j], capacity)
  }

  lemma OneMoreEffective<T(!new)>(values: seq<T>, v: T, capacity: nat)
    requires capacity > 0
    ensures Effective(values + [v], capacity)
      == Effective(values, capacity) + if v in DequeAfter(values, capacity) then [] else [v]
    ensures DequeAfter(values + [v], capacity) == Inserted(DequeAfter(values, capacity), capacity, v)
  {
    assert (values + [v])[..|values|] == values;
  }

  /** Different values, as long as there is room, are all kept. */
  lemma {:induction false} DistinctFill<T(!new)>(values: seq<T>, capacity: nat)
    requires 0 < capacity && |values| <= capacity && NoDuplicates(values)
    ensures DequeAfter(values, capacity) == values
  {
    if values != [] {
      var prefix, last := values[..|values| - 1], values[|values| - 1];
      assert values == prefix + [last];
      DistinctFill(prefix, capacity);
      OneMoreEffective(prefix, last, capacity);
    }
  }

  /**
    Every value ever inserted has a last insertion that found it absent, and it is still present
    exactly when fewer than capacity insertions that found theirs absent have come after that
    one, however often the value itself was inserted again.
   */
  lemma PresentIff<T(!new)>(values: seq<T>, v: T, capacity: nat) returns (i: nat)
    requires capacity > 0 && v in values
    ensures LastEntry(values, i, v, capacity)
    ensures v in DequeAfter(values, capacity) <==> EffectiveAfter(values, i, capacity) < capacity
  {
    i := FindLastEntry(values, v, capacity);
    var all, p := Effective(values, capacity), |Effective(values[..i], capacity)|;
    DequeIsWindow(values, capacity);
    assert values[..i + 1] == values[..i] + [v];
    OneMoreEffective(values[..i], v, capacity);
    var window := LastOf(all, capacity);
    if EffectiveAfter(values, i, capacity) < capacity {
      assert window[if |all| <= capacity then p else p - (|all| - capacity)] == v;
    } else {
      forall k | 0 <= k < |window| ensures window[k] != v {
        assert window[k] == all[|all| - capacity + k];
      }
    }
  }

  lemma {:induction false} PresentWasInserted<T(!new)>(values: seq<T>, v: T, capacity: nat)
    requires capacity > 0
    ensures v in DequeAfter(values, capacity) ==> v in values
  {
    if values != [] {
      PresentWasInserted(values[..|values| - 1], v, capacity);
    }
  }

  lemma {:induction false} FindLastEntry<T(!new)>(values: seq<T>, v: T, capacity: nat) returns (i: nat)
    requires capacity > 0 && v in values
    ensures LastEntry(values, i, v, capacity)
    ensures var all, p := Effective(values, capacity), |Effective(values[..i], capacity)|;
      p < |all| && all[p] == v && forall k :: p < k < |all| ==> all[k] != v
  {
    var prefix, last := values[..|values| - 1], values[|values| - 1];
    assert values == prefix + [last];
    OneMoreEffective(prefix, last, capacity);
    PresentWasInserted(prefix, v, capacity);
    if last == v && v !in DequeAfter(prefix, capacity) {
      i := |prefix|;
    } else {
      i := FindLastEntry(prefix, v, capacity);
      assert values[..i] == prefix[..i];
      forall j | i < j < |values| && values[j] == v ensures v in DequeAfter(values[..j], capacity) {
        assert j < |prefix| ==> values[..j] == prefix[..j] && prefix[j] == v;
      }
    }
  }

  /** Insertions of other values that found them absent, among more, v having been inserted just before. */
  function OthersSince<T(==)>(values: seq<T>, v: T, more: seq<T>, capacity: nat): int
    requires capacity > 0
  {
    |Effective(values + [v] + more, capacity)| - |Effective(values, capacity)| - 1
  }

  /**
    A value inserted while absent stays until exactly capacity other absent values have been
    inserted after it, and is gone then, even if it was inserted again in between.
   */
  lemma StaysForCapacityOthers<T(!new)>(values: seq<T>, v: T, more: seq<T>, capacity: nat)
    requires capacity > 0 && v !in DequeAfter(values, capacity)
    ensures OthersSince(values, v, more, capacity) >= 0
    ensures OthersSince(values, v, more, capacity) < capacity ==> v in DequeAfter(values + [v] + more, capacity)
    ensures OthersSince(values, v, more, capacity) == capacity ==> v !in DequeAfter(values + [v] + more, capacity)
    ensures OthersSince(values, v, more, capacity) >= capacity && v !in more ==>
      v !in DequeAfter(values + [v] + more, capacity)
  {
    var all := values + [v] + more;
    var i := PresentIff(all, v, capacity);
    OneMoreEffective(values, v, capacity);
    EffectiveGrows(values + [v], more, capacity);
    if i < |values| {
      LaterEntry(values, v, more, i, capacity);
    } else if i > |values| {
      ReentersAfterCapacity(values, v, more, i, capacity);
    } else {
      assert all[..i + 1] == values + [v];
    }
  }

  /** The insertion at the end of values is a later entry than any before it. */
  lemma LaterEntry<T(!new)>(values: seq<T>, v: T, more: seq<T>, i: nat, capacity: nat)
    requires capacity > 0 && v !in DequeAfter(values, capacity) && i < |values|
    ensures !LastEntry(values + [v] + more, i, v, capacity)
  {
    var all := values + [v] + more;
    assert all[|values|] == v && all[..|values|] == values;
  }

  /** To enter again, a value must have left, so capacity others came before. */
  lemma ReentersAfterCapacity<T(!new)>(values: seq<T>, v: T, more: seq<T>, i: nat, capacity: nat)
    requires capacity > 0 && v !in DequeAfter(values, capacity)
    requires |values| < i < |values + [v] + more| && LastEntry(values + [v] + more, i, v, capacity)
    ensures OthersSince(values, v, more, capacity) > capacity && v in more
  {
    var all, m := values + [v] + more, i - |values| - 1;
    assert all[..i] == values + [v] + more[..m] && all[i] == more[m];
    StillThere(values, v, more[..m], capacity);
    EntryCounts(all, i, capacity);
  }

  lemma EntryCounts<T(!new)>(values: seq<T>, i: nat, capacity: nat)
    requires capacity > 0 && i < |values| && values[i] !in DequeAfter(values[..i], capacity)
    ensures |Effective(values, capacity)| > |Effective(values[..i], capacity)|
  {
    OneMoreEffective(values[..i], values[i], capacity);
    EffectiveGrows(values[..i] + [values[i]], values[i + 1..], capacity);
    assert values == values[..i] + [values[i]] + values[i + 1..];
  }

  lemma StillThere<T(!new)>(values: seq<T>, v: T, more: seq<T>, capacity: nat)
    requires capacity > 0 && v !in DequeAfter(values, capacity)
    ensures OthersSince(values, v, more, capacity) < capacity ==> v in DequeAfter(values + [v] + more, capacity)
  {
    var before, after := Effective(values, capacity), Effective(values + [v] + more, capacity);
    OneMoreEffective(values, v, capacity);
    EffectiveGrows(values + [v], more, capacity);
    DequeIsWindow(values + [v] + more, capacity);
    assert after[|before|] == v;
    if OthersSince(values, v, more, capacity) < capacity {
      var start := if |after| <= capacity then 0 else |after| - capacity;
      assert LastOf(after, capacity)[|before| - start] == v;
    }
  }

  /** Inserting a present value again does not renew its stay: it makes no difference to the deque, then or ever after. */
  lemma {:induction false} NotRenewed<T(!new)>(values: seq<T>, v: T, more: seq<T>, capacity: nat)
    requires capacity > 0 && v in DequeAfter(values, capacity)
    ensures DequeAfter(values + [v] + more, capacity) == DequeAfter(values + more, capacity)
  {
    if more == [] {
      assert values + [v] + more == values + [v] && values + more == values;
      OneMoreEffective(values, v, capacity);
    } else {
      var fewer, last := more[..|more| - 1], more[|more| - 1];
      NotRenewed(values, v, fewer, capacity);
      assert values + [v] + more == values + [v] + fewer + [last] && values + more == values + fewer + [last];
      OneMoreEffective(values + [v] + fewer, last, capacity);
      OneMoreEffective(values + fewer, last, capacity);
    }
  }

  class LruSet<T(==)> {
    var members: set<T>
    var deque: seq<T>
    const capacity: nat

    constructor (capacity: nat)
      ensures this.capacity == capacity && deque == [] && Valid()
    {
      this.capacity := capacity;
      members, deque := {}, [];
    }

    ghost predicate Valid()
      reads this
    {
      && (forall x :: x in members ==> x in deque)
      && (forall x :: x in deque ==> x in members)
      && (forall i, j :: 0 <= i < j < |deque| ==> deque[i] != deque[j])
      && |deque| <= capacity
    }

    /** Without room for a single value the source panics. */
    method Insert(value: T)
      requires Valid() && capacity > 0
      modifies this
      ensures Valid()
      ensures deque == Inserted(old(deque), capacity, value)
    {
      if value in members {
        return;
      }
      if |deque| == capacity {
        var oldest := deque[0];
        deque := deque[1..];
        members := members - {oldest};
      }
      members := members + {value};
      deque := deque + [value];
    }

    predicate Contains(value: T)
      requires Valid()
      reads this
      ensures Contains(value) <==> value in deque
    {
      value in members
    }
  }
}
