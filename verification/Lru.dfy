/** The bounded least-recently-used map that three components share. */
module Lru {
  import opened Wrappers

  // ----- values: most recent first ----------------------------------------------------------

  predicate HasKey<K(==,!new), V(!new)>(s: seq<(K, V)>, k: K) {
    exists i :: 0 <= i < |s| && s[i].0 == k
  }

  ghost predicate UniqueKeys<K(!new), V(!new)>(s: seq<(K, V)>) {
    forall i, j :: 0 <= i < j < |s| ==> s[i].0 != s[j].0
  }

  function Lookup<K(==,!new), V(!new)>(s: seq<(K, V)>, k: K): (r: Option<V>)
    ensures r.Some? <==> HasKey(s, k)
    ensures r.Some? ==> (k, r.value) in s
  {
    if s == [] then None else if s[0].0 == k then Some(s[0].1) else Lookup(s[1..], k)
  }

  function Without<K(==,!new), V(!new)>(s: seq<(K, V)>, k: K): (r: seq<(K, V)>)
    ensures forall e :: e in r <==> e in s && e.0 != k
    ensures |r| <= |s|
    ensures HasKey(s, k) ==> |r| < |s|
  {
    if s == [] then [] else if s[0].0 == k then Without(s[1..], k) else [s[0]] + Without(s[1..], k)
  }

  lemma {:induction false} WithoutKeepsUnique<K(!new), V(!new)>(s: seq<(K, V)>, k: K)
    requires UniqueKeys(s)
    ensures UniqueKeys(Without(s, k)) && !HasKey(Without(s, k), k)
  {
    if s != [] {
      WithoutKeepsUnique(s[1..], k);
      if s[0].0 != k {
        var r := Without(s[1..], k);
        forall i | 0 <= i < |r|
          ensures r[i].0 != s[0].0
        {
          assert r[i] in s[1..];
        }
      }
    }
  }

  lemma {:induction false} WithoutAbsent<K(!new), V(!new)>(s: seq<(K, V)>, k: K)
    requires !HasKey(s, k)
    ensures Without(s, k) == s
  {
    if s != [] {
      assert s[0].0 != k;
      assert forall i :: 0 <= i < |s| - 1 ==> s[1..][i] == s[i + 1];
      WithoutAbsent(s[1..], k);
    }
  }

  function Take<T>(s: seq<T>, n: nat): seq<T> {
    if |s| <= n then s else s[..n]
  }

  /** Inserting makes the key the most recent one and drops the oldest entry past the capacity. */
  function Put<K(==,!new), V(!new)>(capacity: nat, s: seq<(K, V)>, k: K, v: V): seq<(K, V)> {
    Take([(k, v)] + Without(s, k), capacity)
  }

  /** A hit makes the key the most recent one. */
  function Touch<K(==,!new), V(!new)>(s: seq<(K, V)>, k: K): seq<(K, V)> {
    match Lookup(s, k)
    case None => s
    case Some(v) => [(k, v)] + Without(s, k)
  }

  lemma PutKeepsShape<K(!new), V(!new)>(capacity: nat, s: seq<(K, V)>, k: K, v: V)
    requires UniqueKeys(s) && |s| <= capacity && capacity > 0
    ensures UniqueKeys(Put(capacity, s, k, v)) && |Put(capacity, s, k, v)| <= capacity
    ensures Lookup(Put(capacity, s, k, v), k) == Some(v)
    ensures forall e :: e in Put(capacity, s, k, v) ==> e == (k, v) || e in s
  {
    WithoutKeepsUnique(s, k);
    var full := [(k, v)] + Without(s, k);
    assert forall i :: 0 <= i < |Put(capacity, s, k, v)| ==> Put(capacity, s, k, v)[i] == full[i];
  }

  lemma TouchKeepsShape<K(!new), V(!new)>(s: seq<(K, V)>, k: K)
    requires UniqueKeys(s)
    ensures UniqueKeys(Touch(s, k)) && |Touch(s, k)| <= |s|
    ensures forall e :: e in Touch(s, k) <==> e in s
  {
    if HasKey(s, k) {
      WithoutKeepsUnique(s, k);
      var v := Lookup(s, k).value;
      forall e | e in s
        ensures e in Touch(s, k)
      {
        if e.0 == k {
          var i, j :| 0 <= i < |s| && 0 <= j < |s| && s[i] == e && s[j] == (k, v);
          assert i == j;
        }
      }
    }
  }

  // ----- the object -------------------------------------------------------------------------

  class LruCache<K(==,!new), V(!new)> {
    const capacity: nat
    var entries: seq<(K, V)>

    ghost predicate Valid()
      reads this
    {
      capacity > 0 && |entries| <= capacity && UniqueKeys(entries)
    }

    constructor (capacity: nat)
      requires capacity > 0
      ensures Valid() && this.capacity == capacity && entries == []
    {
      this.capacity := capacity;
      entries := [];
    }

    method Get(k: K) returns (r: Option<V>)
      requires Valid()
      modifies this
      ensures Valid() && r == Lookup(old(entries), k) && entries == Touch(old(entries), k)
    {
      TouchKeepsShape(entries, k);
      r := Lookup(entries, k);
      if r.Some? {
        entries := [(k, r.value)] + Without(entries, k);
      }
    }

    /** Returns the value replaced, if the key was there. */
    method Insert(k: K, v: V) returns (previous: Option<V>)
      requires Valid()
      modifies this
      ensures Valid() && previous == Lookup(old(entries), k) && entries == Put(capacity, old(entries), k, v)
    {
      PutKeepsShape(capacity, entries, k, v);
      previous := Lookup(entries, k);
      if previous.Some? {
        entries := [(k, v)] + Without(entries, k);
      } else {
        WithoutAbsent(entries, k);
        if |entries| == capacity {
          entries := entries[..|entries| - 1];
        }
        entries := [(k, v)] + entries;
      }
    }

    method Clear()
      requires Valid()
      modifies this
      ensures Valid() && entries == []
    {
      entries := [];
    }
  }
}
