/**
 * `RestorableState`: a guard that saves one property of one object, assigns
 * it a new value, and can later write the saved value back; and
 * `restoreAll`, which restores a whole list of such guards.
 *
 * A Swift key path into an object becomes a key into the object's property
 * map, so a target is an object holding a map from keys to values.
 */
module Restorable {

  /** An object whose properties can be saved and restored (`RestorableStateTaget`). */
  class StateTarget<K(==), V> {
    var state: map<K, V>

    constructor (initial: map<K, V>)
      ensures state == initial
    {
      state := initial;
    }
  }

  /** `RestorableState<Target, StateValue>`: target, key path and the value kept for restoring. */
  class RestorableState<K(==), V> {
    const target: StateTarget<K, V>
    const key: K
    const keepingValue: V

    /** The key path names a property the target has. */
    ghost predicate Valid()
      reads target
    {
      key in target.state
    }

    /**
     * `init(wrappedValue:for:_:)`: remembers the target's current value of
     * the property, then assigns `wrappedValue` to it.
     */
    constructor (wrappedValue: V, target: StateTarget<K, V>, key: K)
      requires key in target.state
      modifies target
      ensures this.target == target && this.key == key
      ensures keepingValue == old(target.state[key])
      ensures target.state == old(target.state)[key := wrappedValue]
      ensures Valid()
    {
      this.target := target;
      this.key := key;
      this.keepingValue := target.state[key];
      new;
      target.state := target.state[key := wrappedValue];
    }

    /** Getter of `wrappedValue`: the target's value now, not a copy taken earlier. */
    function WrappedValue(): (v: V)
      requires Valid()
      reads target
      ensures v == target.state[key]
    {
      target.state[key]
    }

    /** Setter of `wrappedValue`: writes through to the target. */
    method SetWrappedValue(v: V)
      modifies target
      ensures target.state == old(target.state)[key := v]
    {
      target.state := target.state[key := v];
    }

    /** `restore()`: writes the kept value back into the one property of the one target. */
    method Restore()
      modifies target
      ensures target.state == old(target.state)[key := keepingValue]
    {
      target.state := target.state[key := keepingValue];
    }
  }

  /**
   * `restorableAssign(_:to:)`: assigns `value` to the property through a new
   * guard that remembers the previous value.
   */
  method RestorableAssign<K(==), V>(target: StateTarget<K, V>, key: K, value: V)
    returns (guard: RestorableState<K, V>)
    requires key in target.state
    modifies target
    ensures fresh(guard) && guard.Valid()
    ensures guard.target == target && guard.key == key
    ensures guard.keepingValue == old(target.state[key])
    ensures target.state == old(target.state)[key := value]
  {
    guard := new RestorableState(value, target, key);
  }

  /**
   * `wrappedValue` is read from the target each time: after a direct write to
   * the target, a restore, or a write through the guard, reading it gives the
   * value just written.
   */
  method WrappedValueReadsThrough<K(==), V>(target: StateTarget<K, V>, key: K, v: V, w: V)
    returns (guard: RestorableState<K, V>)
    requires key in target.state
    modifies target
    ensures fresh(guard) && guard.target == target && guard.key == key && guard.Valid()
    ensures guard.keepingValue == old(target.state[key])
    ensures guard.WrappedValue() == w
    ensures target.state == old(target.state)[key := w]
  {
    guard := new RestorableState(v, target, key);
    assert guard.WrappedValue() == v;
    target.state := target.state[key := w];
    assert guard.WrappedValue() == w;
    guard.Restore();
    assert guard.WrappedValue() == guard.keepingValue;
    guard.SetWrappedValue(w);
    assert guard.WrappedValue() == w;
  }

  /** Assigning through a guard and restoring it leaves the property as it was. */
  method AssignThenRestore<K(==), V>(target: StateTarget<K, V>, key: K, value: V)
    requires key in target.state
    modifies target
    ensures target.state == old(target.state)
  {
    var guard := RestorableAssign(target, key, value);
    guard.Restore();
    assert target.state == old(target.state)[key := value][key := old(target.state[key])];
  }

  /**
   * Restoring twice has the effect of restoring once: `keepingValue` is a
   * constant, so the second write stores the value already there.
   */
  method RestoreTwice<K(==), V>(guard: RestorableState<K, V>)
    modifies guard.target
    ensures guard.target.state == old(guard.target.state)[guard.key := guard.keepingValue]
  {
    guard.Restore();
    guard.Restore();
  }

  /** The objects a list of guards restores. */
  ghost function Targets<K, V>(guards: seq<RestorableState<K, V>>): set<StateTarget<K, V>>
  {
    set i | 0 <= i < |guards| :: guards[i].target
  }

  /**
   * The property map of `t`, starting from `m`, after the guards restore
   * their kept values one after the other in index order.
   */
  ghost function AfterRestores<K, V>(t: StateTarget<K, V>, m: map<K, V>, guards: seq<RestorableState<K, V>>): map<K, V>
    decreases |guards|
  {
    if guards == [] then m
    else
      var before := AfterRestores(t, m, guards[..|guards| - 1]);
      var last := guards[|guards| - 1];
      if last.target == t then before[last.key := last.keepingValue] else before
  }

  /** `restoreAll()`: restores every guard once, in index order. */
  method RestoreAll<K(==), V>(guards: seq<RestorableState<K, V>>)
    modifies Targets(guards)
    ensures forall t :: t in Targets(guards) ==> t.state == AfterRestores(t, old(t.state), guards)
  {
    for i := 0 to |guards|
      invariant forall t :: t in Targets(guards) ==> t.state == AfterRestores(t, old(t.state), guards[..i])
    {
      assert guards[i].target in Targets(guards);
      guards[i].Restore();
      assert guards[..i + 1][..i] == guards[..i];
    }
    assert guards[..|guards|] == guards;
  }

  /**
   * After `restoreAll`, a property of `t` holds the value kept by the last
   * guard for that property, the one restored last.
   */
  lemma {:induction false} AfterRestoresLastWins<K, V>(t: StateTarget<K, V>, m: map<K, V>, guards: seq<RestorableState<K, V>>, j: nat)
    requires j < |guards| && guards[j].target == t
    requires forall i :: j < i < |guards| ==> guards[i].target != t || guards[i].key != guards[j].key
    ensures guards[j].key in AfterRestores(t, m, guards)
    ensures AfterRestores(t, m, guards)[guards[j].key] == guards[j].keepingValue
  {
    var n := |guards|;
    if j < n - 1 {
      var prefix := guards[..n - 1];
      assert forall i :: j < i < |prefix| ==> prefix[i] == guards[i];
      AfterRestoresLastWins(t, m, prefix, j);
    }
  }

  /**
   * `restoreAll` touches only the guarded properties: a property of `t` that
   * no guard for `t` names keeps its value, and no property is added or
   * dropped.
   */
  lemma {:induction false} AfterRestoresOtherKeys<K, V>(t: StateTarget<K, V>, m: map<K, V>, guards: seq<RestorableState<K, V>>, k: K)
    requires forall i :: 0 <= i < |guards| && guards[i].target == t ==> guards[i].key in m
    requires forall i :: 0 <= i < |guards| ==> guards[i].target != t || guards[i].key != k
    ensures AfterRestores(t, m, guards).Keys == m.Keys
    ensures k in m ==> AfterRestores(t, m, guards)[k] == m[k]
  {
    if guards != [] {
      AfterRestoresOtherKeys(t, m, guards[..|guards| - 1], k);
    }
  }

  /**
   * When only one guard of the list targets `t`, `restoreAll` leaves `t`
   * exactly as that guard's `restore` alone would.
   */
  lemma {:induction false} AfterRestoresSoleGuard<K, V>(t: StateTarget<K, V>, m: map<K, V>, guards: seq<RestorableState<K, V>>, j: nat)
    requires j < |guards| && guards[j].target == t
    requires forall i :: 0 <= i < |guards| && i != j ==> guards[i].target != t
    ensures AfterRestores(t, m, guards) == m[guards[j].key := guards[j].keepingValue]
  {
    var n := |guards|;
    var prefix := guards[..n - 1];
    if j < n - 1 {
      assert forall i :: 0 <= i < |prefix| ==> prefix[i] == guards[i];
      AfterRestoresSoleGuard(t, m, prefix, j);
    } else {
      AfterRestoresUntouched(t, m, prefix);
    }
  }

  /** A target that no guard of the list names is left as it was. */
  lemma {:induction false} AfterRestoresUntouched<K, V>(t: StateTarget<K, V>, m: map<K, V>, guards: seq<RestorableState<K, V>>)
    requires forall i :: 0 <= i < |guards| ==> guards[i].target != t
    ensures AfterRestores(t, m, guards) == m
  {
    if guards != [] {
      AfterRestoresUntouched(t, m, guards[..|guards| - 1]);
    }
  }
}
