/** Handles with an idempotent `release`: every handle is a token, and a token stays in the map of
    outstanding handles until its release closure first runs (its `released` flag is still false). */
module Handles {
  /** The tokens still held on `k`, where `key` says what each counts under. */
  function HoldersOf<V, K(==)>(outstanding: map<nat, V>, key: V -> K, k: K): set<nat> {
    set t | t in outstanding && key(outstanding[t]) == k
  }

  function Holders<V, K(==)>(outstanding: map<nat, V>, key: V -> K, k: K): nat {
    |HoldersOf(outstanding, key, k)|
  }

  /** Taking a handle out raises the count of its key by one and no other. */
  lemma TakeCounts<V, K>(outstanding: map<nat, V>, key: V -> K, t: nat, v: V, other: K)
    requires t !in outstanding
    ensures Holders(outstanding[t := v], key, other)
         == Holders(outstanding, key, other) + if other == key(v) then 1 else 0
  {
    var after := HoldersOf(outstanding[t := v], key, other);
    if other == key(v) {
      assert after == HoldersOf(outstanding, key, other) + {t};
    } else {
      assert after == HoldersOf(outstanding, key, other);
    }
  }

  /** Giving a handle back lowers the count of its key by one and no other. */
  lemma GiveCounts<V, K>(outstanding: map<nat, V>, key: V -> K, t: nat, other: K)
    requires t in outstanding
    ensures Holders(outstanding - {t}, key, other)
         == Holders(outstanding, key, other) - if other == key(outstanding[t]) then 1 else 0
  {
    var after := HoldersOf(outstanding - {t}, key, other);
    if other == key(outstanding[t]) {
      assert after == HoldersOf(outstanding, key, other) - {t};
    } else {
      assert after == HoldersOf(outstanding, key, other);
    }
  }

  lemma HeldIsCounted<V, K>(outstanding: map<nat, V>, key: V -> K, t: nat)
    requires t in outstanding
    ensures 0 < Holders(outstanding, key, key(outstanding[t]))
  {
    assert t in HoldersOf(outstanding, key, key(outstanding[t]));
  }

  lemma CountedIsHeld<V, K>(outstanding: map<nat, V>, key: V -> K, k: K) returns (t: nat)
    requires 0 < Holders(outstanding, key, k)
    ensures t in outstanding && key(outstanding[t]) == k
  {
    t :| t in HoldersOf(outstanding, key, k);
  }

  lemma NoneHeld<V, K>(outstanding: map<nat, V>, key: V -> K, k: K)
    requires forall t :: t in outstanding ==> key(outstanding[t]) != k
    ensures Holders(outstanding, key, k) == 0
  {
    assert HoldersOf(outstanding, key, k) == {};
  }

  /** Handles that count under the same keys. */
  lemma SameHolders<V, K>(outstanding: map<nat, V>, other: map<nat, V>, key: V -> K, k: K)
    requires other.Keys == outstanding.Keys
    requires forall t :: t in outstanding ==> key(other[t]) == key(outstanding[t])
    ensures Holders(other, key, k) == Holders(outstanding, key, k)
  {
    assert HoldersOf(other, key, k) == HoldersOf(outstanding, key, k);
  }
}
