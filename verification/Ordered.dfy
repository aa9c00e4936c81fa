/** Sorting and deduplication of slot lists, as `sort` + `dedup` and `sort_by_key` leave them. */
module Ordered {
  import opened Numbers

  type Entry = (u256, u256)

  ghost predicate Ascending(s: seq<u256>) {
    forall i, j :: 0 <= i < j < |s| ==> s[i] < s[j]
  }

  lemma ConsAscends(x: u256, s: seq<u256>)
    requires Ascending(s) && forall y :: y in s ==> x < y
    ensures Ascending([x] + s)
  {
    assert forall i :: 0 <= i < |s| ==> s[i] in s;
  }

  lemma HeadIsLeast(s: seq<u256>)
    requires Ascending(s) && s != []
    ensures Ascending(s[1..]) && forall y :: y in s[1..] ==> s[0] < y
  {
  }

  function Insert(s: seq<u256>, x: u256): (r: seq<u256>)
    ensures forall y :: y in r <==> y in s || y == x
  {
    if s == [] then [x]
    else if x < s[0] then [x] + s
    else if x == s[0] then s
    else [s[0]] + Insert(s[1..], x)
  }

  lemma {:induction false} InsertAscends(s: seq<u256>, x: u256)
    requires Ascending(s)
    ensures Ascending(Insert(s, x))
  {
    if s != [] {
      HeadIsLeast(s);
      if x < s[0] {
        assert s == [s[0]] + s[1..];
        ConsAscends(x, s);
      } else if x > s[0] {
        InsertAscends(s[1..], x);
        ConsAscends(s[0], Insert(s[1..], x));
      }
    }
  }

  /** Sorted and without repetitions. */
  function SortDedup(s: seq<u256>): (r: seq<u256>)
    ensures forall y :: y in r <==> y in s
  {
    if s == [] then [] else Insert(SortDedup(s[1..]), s[0])
  }

  lemma {:induction false} SortDedupAscends(s: seq<u256>)
    ensures Ascending(SortDedup(s))
  {
    if s != [] {
      SortDedupAscends(s[1..]);
      InsertAscends(SortDedup(s[1..]), s[0]);
    }
  }

  lemma SameHead(a: seq<u256>, b: seq<u256>)
    requires Ascending(a) && Ascending(b) && a != [] && b != []
    requires a[0] in b && b[0] in a
    ensures a[0] == b[0]
  {
    HeadIsLeast(a);
    HeadIsLeast(b);
    assert a == [a[0]] + a[1..] && b == [b[0]] + b[1..];
  }

  lemma HeadIsMember(s: seq<u256>)
    requires s != []
    ensures s[0] in s
  {
  }

  /** A strictly ascending list is determined by its elements. */
  lemma {:induction false} AscendingIsUnique(a: seq<u256>, b: seq<u256>)
    requires Ascending(a) && Ascending(b)
    requires forall y :: y in a <==> y in b
    ensures a == b
  {
    if a == [] {
      if b != [] { HeadIsMember(b); }
    } else {
      assert a[0] in b && |b| > 0;
      assert b[0] in a;
      SameHead(a, b);
      HeadIsLeast(a);
      HeadIsLeast(b);
      assert a == [a[0]] + a[1..] && b == [b[0]] + b[1..];
      forall y
        ensures y in a[1..] <==> y in b[1..]
      {
        assert y in a[1..] <==> y in a && y != a[0];
        assert y in b[1..] <==> y in b && y != b[0];
      }
      AscendingIsUnique(a[1..], b[1..]);
    }
  }

  function Slots(es: seq<Entry>): (r: seq<u256>)
    ensures |r| == |es| && forall i :: 0 <= i < |es| ==> r[i] == es[i].0
  {
    if es == [] then [] else [es[0].0] + Slots(es[1..])
  }

  lemma SlotsMember(es: seq<Entry>, x: u256)
    ensures x in Slots(es) <==> exists v: u256 :: (x, v) in es
  {
    if x in Slots(es) {
      var i :| 0 <= i < |Slots(es)| && Slots(es)[i] == x;
      assert es[i] == (x, es[i].1);
    }
    if v: u256 :| (x, v) in es {
      var i :| 0 <= i < |es| && es[i] == (x, v);
      assert Slots(es)[i] == x;
    }
  }

  function InsertEntry(s: seq<Entry>, e: Entry): (r: seq<Entry>)
    ensures forall y :: y in r <==> y in s || y == e
    ensures |r| == |s| + 1
  {
    if s == [] then [e] else if e.0 <= s[0].0 then [e] + s else [s[0]] + InsertEntry(s[1..], e)
  }

  function SortBySlot(s: seq<Entry>): (r: seq<Entry>)
    ensures forall y :: y in r <==> y in s
    ensures |r| == |s|
  {
    if s == [] then [] else InsertEntry(SortBySlot(s[1..]), s[0])
  }

  ghost predicate DistinctSlots(es: seq<Entry>) {
    es == [] || (es[0].0 !in Slots(es[1..]) && DistinctSlots(es[1..]))
  }

  lemma SameMembersSameSlots(a: seq<Entry>, b: seq<Entry>)
    requires forall y :: y in a <==> y in b
    ensures forall x :: x in Slots(a) <==> x in Slots(b)
  {
    forall x
      ensures x in Slots(a) <==> x in Slots(b)
    {
      SlotsMember(a, x);
      SlotsMember(b, x);
    }
  }

  lemma {:induction false} InsertEntryAscends(s: seq<Entry>, e: Entry)
    requires Ascending(Slots(s)) && e.0 !in Slots(s)
    ensures Ascending(Slots(InsertEntry(s, e)))
  {
    if s != [] {
      HeadIsLeast(Slots(s));
      assert Slots(s) == [s[0].0] + Slots(s[1..]);
      if e.0 <= s[0].0 {
        ConsAscends(e.0, Slots(s));
      } else {
        var r := InsertEntry(s[1..], e);
        InsertEntryAscends(s[1..], e);
        SameMembersSameSlots(r, [e] + s[1..]);
        assert Slots([e] + s[1..]) == [e.0] + Slots(s[1..]);
        ConsAscends(s[0].0, Slots(r));
      }
    }
  }

  /** Sorting entries with distinct slots keeps them all and puts their slots in ascending order. */
  lemma {:induction false} SortBySlotAscends(s: seq<Entry>)
    requires DistinctSlots(s)
    ensures Ascending(Slots(SortBySlot(s)))
  {
    if s != [] {
      SortBySlotAscends(s[1..]);
      SameMembersSameSlots(SortBySlot(s[1..]), s[1..]);
      InsertEntryAscends(SortBySlot(s[1..]), s[0]);
    }
  }
}
