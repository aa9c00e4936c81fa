/** The mempool pipeline: dedup by hash, fetch, filter. */
module Ingress {
  import opened Wrappers
  import opened Pools
  import opened Lru

  const DEDUP_CAPACITY: nat := 4096

  type Hash = nat

  datatype NodeError = Closed | OtherNode(code: nat)

  datatype IngressError = IngressClosed | IngressNode(error: NodeError)

  /** A transaction, with every field but the recipient kept opaque. */
  datatype Transaction = Transaction(hash: Hash, to: Option<Address>, rest: nat)

  datatype MempoolEvent = MempoolEvent(tx: Transaction)

  datatype Announcement = Announced(hash: Hash) | Failed(error: NodeError)

  datatype FetchResult = Found(tx: Transaction) | Missing | FetchFailed(error: NodeError)

  /** Keeps a transaction addressed to a watched contract. */
  function Filter(tx: Transaction, watched: seq<Address>): Option<MempoolEvent> {
    if tx.to.Some? && tx.to.value in watched then Some(MempoolEvent(tx)) else None
  }

  // ----- recency of hashes ------------------------------------------------------------------

  function Drop(s: seq<Hash>, h: Hash): (r: seq<Hash>)
    ensures forall x :: x in r <==> x in s && x != h
  {
    if s == [] then [] else if s[0] == h then Drop(s[1..], h) else [s[0]] + Drop(s[1..], h)
  }

  /** The distinct hashes of `hs`, the one that occurred last first. */
  function Recent(hs: seq<Hash>): (r: seq<Hash>)
    ensures forall x :: x in r <==> x in hs
  {
    if hs == [] then []
    else
      assert hs == hs[..|hs| - 1] + [hs[|hs| - 1]];
      [hs[|hs| - 1]] + Drop(Recent(hs[..|hs| - 1]), hs[|hs| - 1])
  }

  /** The hashes other than `h` that occurred after its last occurrence. */
  function Since(hs: seq<Hash>, h: Hash): set<Hash> {
    if hs == [] || hs[|hs| - 1] == h then {} else Since(hs[..|hs| - 1], h) + {hs[|hs| - 1]}
  }

  ghost predicate Distinct(s: seq<Hash>) {
    forall i, j :: 0 <= i < j < |s| ==> s[i] != s[j]
  }

  lemma ConsDistinct(h: Hash, s: seq<Hash>)
    requires Distinct(s) && h !in s
    ensures Distinct([h] + s)
  {
    assert forall i :: 0 <= i < |s| ==> s[i] in s;
  }

  lemma {:induction false} DropKeepsDistinct(s: seq<Hash>, h: Hash)
    requires Distinct(s)
    ensures Distinct(Drop(s, h))
  {
    if s != [] {
      DropKeepsDistinct(s[1..], h);
      if s[0] != h { ConsDistinct(s[0], Drop(s[1..], h)); }
    }
  }

  lemma {:induction false} RecentIsDistinct(hs: seq<Hash>)
    ensures Distinct(Recent(hs))
  {
    if hs != [] {
      var init, last := hs[..|hs| - 1], hs[|hs| - 1];
      RecentIsDistinct(init);
      DropKeepsDistinct(Recent(init), last);
      ConsDistinct(last, Drop(Recent(init), last));
    }
  }

  function SetOf(s: seq<Hash>): set<Hash> {
    set x | x in s
  }

  lemma {:induction false} DistinctSize(s: seq<Hash>)
    requires Distinct(s)
    ensures |SetOf(s)| == |s|
  {
    if s != [] {
      DistinctSize(s[1..]);
      assert SetOf(s) == SetOf(s[1..]) + {s[0]};
    }
  }

  lemma {:induction false} DropSplit(a: seq<Hash>, b: seq<Hash>, h: Hash)
    ensures Drop(a + b, h) == Drop(a, h) + Drop(b, h)
  {
    if a == [] {
      assert a + b == b;
    } else {
      assert (a + b)[1..] == a[1..] + b;
      DropSplit(a[1..], b, h);
    }
  }

  lemma DistinctParts(a: seq<Hash>, b: seq<Hash>)
    requires Distinct(a + b)
    ensures forall x :: x in a ==> x !in b
    ensures Distinct(a) && Distinct(b)
  {
    var s := a + b;
    assert forall i :: 0 <= i < |a| ==> a[i] == s[i];
    forall j, k | 0 <= j < k < |b|
      ensures b[j] != b[k]
    {
      assert s[|a| + j] == b[j] && s[|a| + k] == b[k];
    }
    forall i, j | 0 <= i < |a| && 0 <= j < |b|
      ensures a[i] != b[j]
    {
      assert s[i] == a[i] && s[|a| + j] == b[j];
    }
  }

  /** In the recency order exactly the hashes seen since stand before `h`. */
  lemma {:induction false} PlaceInRecent(hs: seq<Hash>, h: Hash) returns (before: seq<Hash>, after: seq<Hash>)
    requires h in hs
    ensures Recent(hs) == before + [h] + after
    ensures SetOf(before) == Since(hs, h) && |before| == |Since(hs, h)|
  {
    hide Distinct, Drop;
    var init, last := hs[..|hs| - 1], hs[|hs| - 1];
    assert hs == init + [last];
    if last == h {
      before, after := [], Drop(Recent(init), h);
      assert SetOf(before) == {};
    } else {
      var b, a := PlaceInRecent(init, h);
      DropSplit(b + [h], a, last);
      DropSplit(b, [h], last);
      DropAbsent([h], last);
      before, after := [last] + Drop(b, last), Drop(a, last);
      assert Recent(hs) == before + [h] + after;
      assert SetOf(before) == SetOf(b) + {last};
      RecentIsDistinct(hs);
      assert Recent(hs) == before + ([h] + after);
      DistinctParts(before, [h] + after);
      DistinctSize(before);
    }
  }

  // ----- the cache --------------------------------------------------------------------------

  function Keys(s: seq<(Hash, ())>): seq<Hash> {
    if s == [] then [] else [s[0].0] + Keys(s[1..])
  }

  function CacheAfter(capacity: nat, hs: seq<Hash>): seq<(Hash, ())> {
    if hs == [] then [] else Put(capacity, CacheAfter(capacity, hs[..|hs| - 1]), hs[|hs| - 1], ())
  }

  lemma {:induction false} KeysOfWithout(s: seq<(Hash, ())>, h: Hash)
    ensures Keys(Without(s, h)) == Drop(Keys(s), h)
  {
    if s != [] { KeysOfWithout(s[1..], h); }
  }

  lemma {:induction false} KeysAreKeys(s: seq<(Hash, ())>)
    ensures |Keys(s)| == |s|
    ensures forall i :: 0 <= i < |s| ==> Keys(s)[i] == s[i].0
  {
    if s != [] { KeysAreKeys(s[1..]); }
  }

  lemma HasKeyIsMembership(s: seq<(Hash, ())>, h: Hash)
    ensures HasKey(s, h) <==> h in Keys(s)
  {
    KeysAreKeys(s);
    if h in Keys(s) {
      var i :| 0 <= i < |Keys(s)| && Keys(s)[i] == h;
      assert s[i].0 == h;
    }
  }

  lemma {:induction false} DropTake(s: seq<Hash>, n: nat, h: Hash)
    requires Distinct(s)
    ensures Take([h] + Drop(Take(s, n), h), n) == Take([h] + Drop(s, h), n)
  {
    if |s| > n {
      var a, b := s[..n], s[n..];
      assert s == a + b;
      DropSplit(a, b, h);
      DistinctParts(a, b);
      DropLength(a, h);
      if h in a {
        DistinctParts(a, b);
        DropAbsent(b, h);
      }
    }
  }

  lemma {:induction false} DropAbsent(s: seq<Hash>, h: Hash)
    requires h !in s
    ensures Drop(s, h) == s
  {
    if s != [] { DropAbsent(s[1..], h); }
  }

  lemma {:induction false} DropLength(s: seq<Hash>, h: Hash)
    requires Distinct(s)
    ensures |Drop(s, h)| == |s| - (if h in s then 1 else 0)
  {
    if s != [] {
      DropLength(s[1..], h);
      if s[0] == h { DropAbsent(s[1..], h); }
    }
  }

  /** The cache holds the most recent distinct hashes, as many as fit, in order of recency. */
  lemma {:induction false} CacheIsRecent(capacity: nat, hs: seq<Hash>)
    requires capacity > 0
    ensures Keys(CacheAfter(capacity, hs)) == Take(Recent(hs), capacity)
  {
    if hs != [] {
      var init, last := hs[..|hs| - 1], hs[|hs| - 1];
      var c := CacheAfter(capacity, init);
      CacheIsRecent(capacity, init);
      KeysOfWithout(c, last);
      RecentIsDistinct(init);
      DropTake(Recent(init), capacity, last);
      KeysOfTake([(last, ())] + Without(c, last), capacity);
      assert Keys([(last, ())] + Without(c, last)) == [last] + Keys(Without(c, last));
    }
  }

  lemma KeysOfTake(s: seq<(Hash, ())>, n: nat)
    ensures Keys(Take(s, n)) == Take(Keys(s), n)
  {
    KeysAreKeys(s);
    KeysAreKeys(Take(s, n));
  }

  /** A hash already announced is recognised exactly while fewer than `capacity` others have been announced since. */
  ghost predicate Fresh(capacity: nat, hs: seq<Hash>, h: Hash) {
    h !in hs || |Since(hs, h)| >= capacity
  }

  lemma CacheRecognises(capacity: nat, hs: seq<Hash>, h: Hash)
    requires capacity > 0
    ensures Lookup(CacheAfter(capacity, hs), h) == None <==> Fresh(capacity, hs, h)
  {
    var recent := Recent(hs);
    CacheIsRecent(capacity, hs);
    HasKeyIsMembership(CacheAfter(capacity, hs), h);
    if h in hs {
      var before, after := PlaceInRecent(hs, h);
      RecentIsDistinct(hs);
      assert recent[|before|] == h;
      if |before| >= capacity {
        assert forall i :: 0 <= i < capacity ==> recent[i] != h;
      } else {
        assert Take(recent, capacity)[|before|] == h;
      }
    }
  }

  // ----- the pipeline -----------------------------------------------------------------------

  function HashesOf(stream: seq<Announcement>): seq<Hash> {
    if stream == [] then []
    else
      var last := stream[|stream| - 1];
      HashesOf(stream[..|stream| - 1]) + if last.Announced? then [last.hash] else []
  }

  /** Whether the announcement at `i` leads to a fetch. */
  ghost predicate Fetches(stream: seq<Announcement>, i: nat)
    requires i < |stream|
  {
    stream[i].Announced? && Fresh(DEDUP_CAPACITY, HashesOf(stream[..i]), stream[i].hash)
  }

  /** The transaction calls one of the watched contracts. */
  ghost predicate IsWatched(tx: Transaction, watched: seq<Address>) {
    exists i :: 0 <= i < |watched| && tx.to == Some(watched[i])
  }

  /** What the announcement at `i` sends downstream, given what its fetch (if any) returns. */
  ghost function Emission(stream: seq<Announcement>, fetch: nat -> FetchResult, watched: seq<Address>, i: nat)
    : Option<Result<MempoolEvent, IngressError>>
    requires i < |stream|
  {
    match stream[i]
    case Failed(Closed) => Some(Err(IngressClosed))
    case Failed(e) => Some(Err(IngressNode(e)))
    case Announced(h) =>
      if !Fetches(stream, i) then None
      else match fetch(i)
        case Found(tx) => if IsWatched(tx, watched) then Some(Ok(MempoolEvent(tx))) else None
        case Missing => None
        case FetchFailed(Closed) => Some(Err(IngressClosed))
        case FetchFailed(e) => Some(Err(IngressNode(e)))
  }

  /** The loop ends after position `i`: the node closed, or there was something to send and nobody to receive it. */
  ghost predicate Stops(stream: seq<Announcement>, fetch: nat -> FetchResult, watched: seq<Address>, gone: nat -> bool,
                        i: nat)
    requires i < |stream|
  {
    var e := Emission(stream, fetch, watched, i);
    e.Some? && (e.value == Err(IngressClosed) || gone(i))
  }

  /** What has been delivered after the first `n` announcements. */
  ghost function Delivered(stream: seq<Announcement>, fetch: nat -> FetchResult, watched: seq<Address>,
                           gone: nat -> bool, n: nat)
    : seq<Result<MempoolEvent, IngressError>>
    requires n <= |stream|
  {
    if n == 0 then []
    else
      var e := Emission(stream, fetch, watched, n - 1);
      Delivered(stream, fetch, watched, gone, n - 1) + (if e.Some? && !gone(n - 1) then [e.value] else [])
  }

  lemma NothingCached(stream: seq<Announcement>)
    ensures CacheAfter(DEDUP_CAPACITY, HashesOf(stream[..0])) == []
  {
  }

  lemma Advance(stream: seq<Announcement>, i: nat)
    requires i < |stream|
    ensures var before := CacheAfter(DEDUP_CAPACITY, HashesOf(stream[..i]));
            CacheAfter(DEDUP_CAPACITY, HashesOf(stream[..i + 1]))
            == if stream[i].Announced? then Put(DEDUP_CAPACITY, before, stream[i].hash, ()) else before
  {
    hide Put;
    var hs := HashesOf(stream[..i]);
    assert stream[..i + 1][..i] == stream[..i];
    if stream[i].Announced? {
      assert (hs + [stream[i].hash])[..|hs|] == hs;
    } else {
      assert HashesOf(stream[..i + 1]) == hs + [] == hs;
    }
  }

  /**
   * The pipeline loop over a whole announcement stream. It fetches at exactly the positions whose hash is
   * fresh, delivers in order, and stops at the first position that ends it.
   */
  method BuildMempoolStream(stream: seq<Announcement>, fetch: nat -> FetchResult, watched: seq<Address>,
                            gone: nat -> bool)
    returns (out: seq<Result<MempoolEvent, IngressError>>, fetched: seq<nat>, processed: nat)
    ensures processed <= |stream|
    ensures out == Delivered(stream, fetch, watched, gone, processed)
    ensures forall j :: j in fetched <==> 0 <= j < processed && Fetches(stream, j)
    ensures forall i, j :: 0 <= i < j < |fetched| ==> fetched[i] < fetched[j]
    ensures forall i :: 0 <= i < processed - 1 ==> !Stops(stream, fetch, watched, gone, i)
    ensures processed < |stream| ==> processed > 0 && Stops(stream, fetch, watched, gone, processed - 1)
  {
    hide Recent, Since, Fresh, CacheAfter, HashesOf, Put, Lookup;
    out, fetched, processed := [], [], 0;
    var cache := new LruCache<Hash, ()>(DEDUP_CAPACITY);
    assert CacheAfter(DEDUP_CAPACITY, HashesOf(stream[..0])) == [] by { NothingCached(stream); }
    while processed < |stream|
      invariant processed <= |stream|
      invariant cache.Valid() && cache.capacity == DEDUP_CAPACITY
      invariant cache.entries == CacheAfter(DEDUP_CAPACITY, HashesOf(stream[..processed]))
      invariant out == Delivered(stream, fetch, watched, gone, processed)
      invariant forall j :: j in fetched <==> 0 <= j < processed && Fetches(stream, j)
      invariant forall i :: 0 <= i < |fetched| ==> fetched[i] < processed
      invariant forall i, j :: 0 <= i < j < |fetched| ==> fetched[i] < fetched[j]
      invariant forall i :: 0 <= i < processed ==> !Stops(stream, fetch, watched, gone, i)
    {
      var i := processed;
      processed := processed + 1;
      Advance(stream, i);
      match stream[i] {
        case Failed(e) =>
          if e == Closed {
            if !gone(i) { out := out + [Err(IngressClosed)]; }
            return;
          }
          if gone(i) {
            return;
          }
          out := out + [Err(IngressNode(e))];
        case Announced(hash) =>
          CacheRecognises(DEDUP_CAPACITY, HashesOf(stream[..i]), hash);
          var previous := cache.Insert(hash, ());
          if previous.Some? {
            continue;
          }
          fetched := fetched + [i];
          match fetch(i) {
            case Found(tx) =>
              var ev := Filter(tx, watched);
              if ev.Some? {
                if gone(i) {
                  return;
                }
                out := out + [Ok(ev.value)];
              }
            case Missing =>
            case FetchFailed(e) =>
              if e == Closed {
                if !gone(i) { out := out + [Err(IngressClosed)]; }
                return;
              }
              if gone(i) {
                return;
              }
              out := out + [Err(IngressNode(e))];
          }
      }
    }
  }
}
