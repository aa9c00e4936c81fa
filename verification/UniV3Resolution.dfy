/** What resolving a UniswapV3 pool's slots always yields, whatever its storage holds. */
module UniV3Resolution {
  import opened Wrappers
  import opened Numbers
  import opened Bytes
  import opened Ordered
  import opened SlotLayouts
  import opened StateFetcher

  ghost predicate GraphOf(es: seq<Entry>, value: u256 -> u256) {
    forall e :: e in es ==> e.1 == value(e.0)
  }

  /** `x` is one of the four info slots of a set bit of `word`. */
  ghost predicate TickSlotOf(k: Keccak, word: u256, wordPos: int, x: u256) {
    exists b: nat, o: nat :: b < 256 && o < 4 && BitSet(word, b) && x == TickInfoSlot(k, wordPos, b, o)
  }

  /** ... of the bitmap word at `wordPos`, as the storage holds it. */
  ghost predicate FlaggedIn(k: Keccak, value: u256 -> u256, wordPos: int, x: u256) {
    TickSlotOf(k, value(BitmapSlot(k, wordPos)), wordPos, x)
  }

  /** ... of one of the three words around the active one. */
  ghost predicate NearbyTickSlot(k: Keccak, value: u256 -> u256, active: int, x: u256) {
    FlaggedIn(k, value, active - 1, x) || FlaggedIn(k, value, active, x) || FlaggedIn(k, value, active + 1, x)
  }

  ghost predicate NearbyWord(k: Keccak, active: int, x: u256) {
    x == BitmapSlot(k, active - 1) || x == BitmapSlot(k, active) || x == BitmapSlot(k, active + 1)
  }

  // ----- ranges -----------------------------------------------------------------------------

  lemma ActiveWordRange(slot0: u256)
    ensures -3278 <= ActiveWord(slot0) <= 3276
  {
    CompressedBounds(TickOf(slot0), TICK_SPACING_005);
  }

  lemma BitmapSlotsDiffer(k: Keccak, a: int, b: int)
    requires Ideal(k) && IsInt16(a) && IsInt16(b) && a != b
    ensures BitmapSlot(k, a) != BitmapSlot(k, b)
  {
    assert Pow256(2) == 65536;
    KeyIsFaithful(a, 2);
    KeyIsFaithful(b, 2);
  }

  /** Every key a pool can produce is the true 256-bit encoding of its word position or tick, for any slot 0. */
  lemma KeysAreFaithful(slot0: u256, i: int, bit: nat)
    requires 0 <= i < 3 && bit < 256
    ensures var wordPos := ActiveWord(slot0) - 1 + i;
            var tick := (wordPos * 256 + bit) * TICK_SPACING_005;
            && SignedIntKey(wordPos, 2) == (if wordPos < 0 then U256_LIMIT + wordPos else wordPos)
            && SignedIntKey(tick, 3) == (if tick < 0 then U256_LIMIT + tick else tick)
  {
    ActiveWordRange(slot0);
    assert Pow256(2) == 65536 && Pow256(3) == 0x100_0000;
    var wordPos := ActiveWord(slot0) - 1 + i;
    KeyIsFaithful(wordPos, 2);
    KeyIsFaithful((wordPos * 256 + bit) * TICK_SPACING_005, 3);
  }

  /** For the ticks a pool can hold, positions fit an int16 and ticks an int24. */
  lemma KeysFitTheirWidth(slot0: u256, i: int, bit: nat)
    requires 0 <= i < 3 && bit < 256 && -887272 <= TickOf(slot0) <= 887272
    ensures var wordPos := ActiveWord(slot0) - 1 + i;
            && -0x8000 <= wordPos < 0x8000
            && -0x80_0000 <= (wordPos * 256 + bit) * TICK_SPACING_005 < 0x80_0000
  {
    CompressedBounds(TickOf(slot0), TICK_SPACING_005);
  }

  // ----- membership -------------------------------------------------------------------------

  /** Entry `e` is a bitmap word and flags `x`. */
  ghost predicate Proposes(k: Keccak, bitmap: seq<u256>, active: int, e: Entry, x: u256) {
    e.0 in bitmap && TickSlotOf(k, e.1, active + Position(bitmap, e.0).value - 1, x)
  }

  lemma {:induction false} Phase3Members(k: Keccak, bitmap: seq<u256>, already: seq<Entry>, entries: seq<Entry>,
                                         x: u256)
    ensures x in Phase3TickInfoSlots(k, bitmap, already, entries)
       <==> exists e :: e in entries && Proposes(k, bitmap, ActiveWordIn(already), e, x)
  {
    hide WordTickSlots, ActiveWordIn, TickSlotOf;
    if entries != [] {
      Phase3Members(k, bitmap, already, entries[1..], x);
      var e := entries[0];
      assert forall d :: d in entries <==> d == e || d in entries[1..];
      if e.0 in bitmap {
        var wordPos := ActiveWordIn(already) + Position(bitmap, e.0).value - 1;
        WordMembers(k, e.1, wordPos, x);
        if TickSlotOf(k, e.1, wordPos, x) { assert Proposes(k, bitmap, ActiveWordIn(already), e, x); }
      }
    }
  }

  lemma WordMembers(k: Keccak, word: u256, wordPos: int, x: u256)
    ensures x in WordTickSlots(k, word, wordPos, 0) <==> TickSlotOf(k, word, wordPos, x)
  {
    hide WordTickSlots;
    WordTickSlotsMembers(k, word, wordPos, 0, x);
  }

  lemma FindIsValue(es: seq<Entry>, value: u256 -> u256, slot: u256)
    requires GraphOf(es, value) && slot in Slots(es)
    ensures Find(es, slot) == Some(value(slot))
  {
  }

  lemma WordIsProposed(k: Keccak, value: u256 -> u256, already: seq<Entry>, i: int, x: u256)
    requires Ideal(k) && GraphOf(already, value) && 0 <= i < 3
    requires Phase2BitmapSlots(k, value(UNIV3_SLOT0_SLOT))[i] in Slots(already)
    requires FlaggedIn(k, value, ActiveWord(value(UNIV3_SLOT0_SLOT)) - 1 + i, x)
    ensures exists e :: e in already && Proposes(k, Phase2BitmapSlots(k, value(UNIV3_SLOT0_SLOT)),
                                                 ActiveWord(value(UNIV3_SLOT0_SLOT)), e, x)
  {
    hide TickSlotOf, ActiveWord, BitmapSlot, Phase2BitmapSlots;
    var active := ActiveWord(value(UNIV3_SLOT0_SLOT));
    var bitmap := Phase2BitmapSlots(k, value(UNIV3_SLOT0_SLOT));
    PositionInBitmap(k, value(UNIV3_SLOT0_SLOT), i);
    SlotsMember(already, bitmap[i]);
    var v: u256 :| (bitmap[i], v) in already;
    assert Proposes(k, bitmap, active, (bitmap[i], v), x);
  }

  lemma ProposedIsFlagged(k: Keccak, value: u256 -> u256, e: Entry, x: u256)
    requires Ideal(k) && e.1 == value(e.0)
    requires Proposes(k, Phase2BitmapSlots(k, value(UNIV3_SLOT0_SLOT)), ActiveWord(value(UNIV3_SLOT0_SLOT)), e, x)
    ensures NearbyTickSlot(k, value, ActiveWord(value(UNIV3_SLOT0_SLOT)), x)
  {
    hide TickSlotOf, ActiveWord, BitmapSlot, Phase2BitmapSlots, Ideal;
    var i := Position(Phase2BitmapSlots(k, value(UNIV3_SLOT0_SLOT)), e.0).value;
    PositionInBitmap(k, value(UNIV3_SLOT0_SLOT), i);
    assert FlaggedIn(k, value, ActiveWord(value(UNIV3_SLOT0_SLOT)) - 1 + i, x);
  }

  /** Once the three words are fetched, phase 3 proposes exactly the nearby tick slots. */
  lemma Phase3Proposes(k: Keccak, value: u256 -> u256, already: seq<Entry>, x: u256)
    requires Ideal(k) && GraphOf(already, value) && UNIV3_SLOT0_SLOT in Slots(already)
    requires forall i :: 0 <= i < 3 ==> Phase2BitmapSlots(k, value(UNIV3_SLOT0_SLOT))[i] in Slots(already)
    ensures x in Phase3TickInfoSlots(k, Phase2BitmapSlots(k, value(UNIV3_SLOT0_SLOT)), already, already)
       <==> NearbyTickSlot(k, value, ActiveWord(value(UNIV3_SLOT0_SLOT)), x)
  {
    hide ActiveWord, BitmapSlot, Phase3TickInfoSlots, Phase2BitmapSlots, Proposes, FlaggedIn, Ideal;
    var active := ActiveWord(value(UNIV3_SLOT0_SLOT));
    var bitmap := Phase2BitmapSlots(k, value(UNIV3_SLOT0_SLOT));
    FindIsValue(already, value, UNIV3_SLOT0_SLOT);
    Phase3Members(k, bitmap, already, already, x);
    if x in Phase3TickInfoSlots(k, bitmap, already, already) {
      var e :| e in already && Proposes(k, bitmap, active, e, x);
      ProposedIsFlagged(k, value, e, x);
    }
    if FlaggedIn(k, value, active - 1, x) { WordIsProposed(k, value, already, 0, x); }
    if FlaggedIn(k, value, active, x) { WordIsProposed(k, value, already, 1, x); }
    if FlaggedIn(k, value, active + 1, x) { WordIsProposed(k, value, already, 2, x); }
  }

  lemma PositionInBitmap(k: Keccak, slot0: u256, i: int)
    requires Ideal(k) && 0 <= i < 3
    ensures var bitmap := Phase2BitmapSlots(k, slot0);
            bitmap[i] == BitmapSlot(k, ActiveWord(slot0) - 1 + i) && Position(bitmap, bitmap[i]) == Some(i)
  {
    hide BitmapSlot, ActiveWord;
    var active := ActiveWord(slot0);
    ActiveWordRange(slot0);
    BitmapSlotsDiffer(k, active - 1, active);
    BitmapSlotsDiffer(k, active - 1, active + 1);
    BitmapSlotsDiffer(k, active, active + 1);
    var bitmap := Phase2BitmapSlots(k, slot0);
    var p := Position(bitmap, bitmap[i]).value;
    assert bitmap[p] == bitmap[i];
  }

  // ----- passes -----------------------------------------------------------------------------

  /** A list a run can have fetched so far: each slot once, each with its value. */
  ghost predicate Sound(es: seq<Entry>, value: u256 -> u256) {
    DistinctSlots(es) && GraphOf(es, value)
  }

  lemma {:induction false} DistinctAppend(a: seq<Entry>, b: seq<Entry>)
    requires DistinctSlots(a) && DistinctSlots(b)
    requires forall x :: x in Slots(a) ==> x !in Slots(b)
    ensures DistinctSlots(a + b)
  {
    if a == [] {
      assert a + b == b;
    } else {
      assert (a + b)[1..] == a[1..] + b && (a + b)[0] == a[0];
      SlotsConcat(a[1..], b);
      assert Slots(a) == [a[0].0] + Slots(a[1..]);
      DistinctAppend(a[1..], b);
    }
  }

  lemma {:induction false} SlotsConcat(a: seq<Entry>, b: seq<Entry>)
    ensures Slots(a + b) == Slots(a) + Slots(b)
  {
  }

  lemma {:induction false} ReadAllIsSound(value: u256 -> u256, slots: seq<u256>)
    requires Ascending(slots)
    ensures Sound(ReadAll(value, slots), value) && Slots(ReadAll(value, slots)) == slots
  {
    if slots != [] {
      HeadIsLeast(slots);
      ReadAllIsSound(value, slots[1..]);
      assert ReadAll(value, slots)[1..] == ReadAll(value, slots[1..]);
    }
  }

  /** One pass adds exactly what was asked for and not yet there. */
  lemma PassIsSound(value: u256 -> u256, fetched: seq<Entry>, toFetch: seq<u256>)
    requires Sound(fetched, value)
    ensures var todo := Todo(toFetch, fetched);
            && Sound(fetched + ReadAll(value, todo), value)
            && (forall x :: x in Slots(fetched + ReadAll(value, todo)) <==> x in Slots(fetched) || x in toFetch)
            && (todo == [] <==> forall x :: x in toFetch ==> x in Slots(fetched))
  {
    var todo := Todo(toFetch, fetched);
    SortDedupAscends(toFetch);
    UnfetchedAscends(SortDedup(toFetch), fetched);
    ReadAllIsSound(value, todo);
    hide Unfetched, SortDedup, ReadAll;
    DistinctAppend(fetched, ReadAll(value, todo));
    SlotsConcat(fetched, ReadAll(value, todo));
    if todo != [] {
      HeadIsMember(todo);
    }
  }

  /** One step of the resolution, with the three ways it can go on. */
  lemma ResolveStep(layout: Layout, value: u256 -> u256, toFetch: seq<u256>, fetched: seq<Entry>, depth: nat, x: u256)
    requires depth < DERIVED_SLOTS_MAX_DEPTH && x in toFetch && x !in Slots(fetched)
    ensures var fetched' := fetched + ReadAll(value, Todo(toFetch, fetched));
            var next := layout.derived(fetched');
            Resolve(layout, value, toFetch, fetched, depth)
            == if next == [] then Some(SortBySlot(fetched'))
               else if depth + 1 >= DERIVED_SLOTS_MAX_DEPTH then None
               else Resolve(layout, value, next, fetched', depth + 1)
  {
    assert x in Todo(toFetch, fetched);
  }

  lemma DerivedAfterBase(k: Keccak, value: u256 -> u256, es: seq<Entry>)
    requires Ideal(k) && Sound(es, value)
    requires forall x :: x in Slots(es) <==> x in UNIV3_BASE
    ensures var next := UniV3Derived(k, es);
            && (forall x :: x in next <==> NearbyWord(k, ActiveWord(value(0)), x))
            && (forall x :: x in next ==> x !in Slots(es))
  {
    hide ActiveWord, BitmapSlot, DistinctSlots;
    var active := ActiveWord(value(0));
    var bitmap := Phase2BitmapSlots(k, value(0));
    assert UNIV3_BASE[0] in UNIV3_BASE;
    FindIsValue(es, value, 0);
    assert forall i :: 0 <= i < 5 ==> UNIV3_BASE[i] <= 4;
    ActiveWordRange(value(0));
    AboveBase(k, active - 1); AboveBase(k, active); AboveBase(k, active + 1);
    assert bitmap == [BitmapSlot(k, active - 1), BitmapSlot(k, active), BitmapSlot(k, active + 1)];
    assert UniV3Derived(k, es) == Unfetched(bitmap, es);
    assert bitmap[0] in bitmap && bitmap[1] in bitmap && bitmap[2] in bitmap;
  }

  lemma AboveBase(k: Keccak, wordPos: int)
    requires Ideal(k) && IsInt16(wordPos)
    ensures BitmapSlot(k, wordPos) > 4
  {
  }

  lemma DerivedAfterWords(k: Keccak, value: u256 -> u256, es: seq<Entry>)
    requires Ideal(k) && Sound(es, value) && 0 in Slots(es)
    requires forall x :: NearbyWord(k, ActiveWord(value(0)), x) ==> x in Slots(es)
    ensures forall x :: x in UniV3Derived(k, es) <==>
      NearbyTickSlot(k, value, ActiveWord(value(0)), x) && x !in Slots(es)
  {
    hide ActiveWord, BitmapSlot, Phase3TickInfoSlots, NearbyTickSlot, DistinctSlots, Ideal, Unfetched, Slots, Find;
    FindIsValue(es, value, 0);
    var active := ActiveWord(value(0));
    var bitmap := Phase2BitmapSlots(k, value(0));
    assert bitmap == [BitmapSlot(k, active - 1), BitmapSlot(k, active), BitmapSlot(k, active + 1)];
    assert forall i :: 0 <= i < 3 ==> NearbyWord(k, active, bitmap[i]);
    assert bitmap[0] in Slots(es);
    var candidates := Phase3TickInfoSlots(k, bitmap, es, es);
    assert UniV3Derived(k, es) == Unfetched(candidates, es);
    forall x
      ensures x in candidates <==> NearbyTickSlot(k, value, active, x)
    {
      Phase3Proposes(k, value, es, x);
    }
  }

  /** The slots a resolved pool holds: the base slots, the three words, and the ticks they flag. */
  ghost predicate InResolution(k: Keccak, value: u256 -> u256, x: u256) {
    var active := ActiveWord(value(0));
    x in UNIV3_BASE || NearbyWord(k, active, x) || NearbyTickSlot(k, value, active, x)
  }

  /** Each of those slots exactly once, in ascending order, with its value. */
  ghost predicate Complete(k: Keccak, value: u256 -> u256, r: seq<Entry>) {
    && Ascending(Slots(r))
    && (forall x :: x in Slots(r) <==> InResolution(k, value, x))
    && (forall e :: e in r ==> e.1 == value(e.0))
  }

  lemma Finish(k: Keccak, value: u256 -> u256, es: seq<Entry>)
    requires Sound(es, value) && forall x :: x in Slots(es) <==> InResolution(k, value, x)
    ensures Complete(k, value, SortBySlot(es))
  {
    hide InResolution, SortBySlot, Ascending, DistinctSlots, Slots;
    SortBySlotAscends(es);
    SameMembersSameSlots(SortBySlot(es), es);
  }

  /** The pass that fetches the tick slots is the last one. */
  lemma TickPass(k: Keccak, value: u256 -> u256, es: seq<Entry>)
    requires Ideal(k) && Sound(es, value) && UniV3Derived(k, es) != []
    requires forall x :: x in Slots(es) <==> x in UNIV3_BASE || NearbyWord(k, ActiveWord(value(0)), x)
    ensures var r := Resolve(UniswapV3Fee005Layout(k), value, UniV3Derived(k, es), es, 2);
            r.Some? && Complete(k, value, r.value)
  {
    hide Resolve, Todo, ReadAll, UniV3Derived, NearbyWord, NearbyTickSlot, SortBySlot, DistinctSlots, ActiveWord,
      Complete, Ideal;
    var next := UniV3Derived(k, es);
    assert UNIV3_BASE[0] in UNIV3_BASE;
    DerivedAfterWords(k, value, es);
    HeadIsMember(next);
    PassIsSound(value, es, next);
    var es' := es + ReadAll(value, Todo(next, es));
    ResolveStep(UniswapV3Fee005Layout(k), value, next, es, 2, next[0]);
    DerivedAfterWords(k, value, es');
    if UniV3Derived(k, es') != [] {
      HeadIsMember(UniV3Derived(k, es'));
    }
    Finish(k, value, es');
  }

  /** The pass that fetches the three bitmap words. */
  lemma WordPass(k: Keccak, value: u256 -> u256, es: seq<Entry>)
    requires Ideal(k) && Sound(es, value)
    requires forall x :: x in Slots(es) <==> x in UNIV3_BASE
    ensures UniV3Derived(k, es) != []
    ensures var r := Resolve(UniswapV3Fee005Layout(k), value, UniV3Derived(k, es), es, 1);
            r.Some? && Complete(k, value, r.value)
  {
    hide Resolve, Todo, ReadAll, UniV3Derived, NearbyWord, NearbyTickSlot, SortBySlot, DistinctSlots, ActiveWord,
      Complete, Ideal;
    var next := UniV3Derived(k, es);
    var active := ActiveWord(value(0));
    DerivedAfterBase(k, value, es);
    var w := BitmapSlot(k, active);
    MiddleWord(k, active);
    PassIsSound(value, es, next);
    var es' := es + ReadAll(value, Todo(next, es));
    ResolveStep(UniswapV3Fee005Layout(k), value, next, es, 1, w);
    assert UNIV3_BASE[0] in UNIV3_BASE;
    DerivedAfterWords(k, value, es');
    if UniV3Derived(k, es') == [] {
      Finish(k, value, es');
    } else {
      TickPass(k, value, es');
    }
  }

  lemma MiddleWord(k: Keccak, active: int)
    ensures NearbyWord(k, active, BitmapSlot(k, active))
  {
  }

  lemma EmptyIsSound(value: u256 -> u256)
    ensures Sound([], value) && Slots([]) == []
  {
  }

  /** The base slots of a layout and nothing else, ascending, each with its value. */
  ghost predicate BaseOnly(layout: Layout, value: u256 -> u256, r: seq<Entry>) {
    && Ascending(Slots(r))
    && (forall x :: x in Slots(r) <==> x in layout.base)
    && (forall e :: e in r ==> e.1 == value(e.0))
  }

  /** A layout that derives nothing is resolved in one pass, for every storage. */
  lemma OnePassResolves(layout: Layout, value: u256 -> u256)
    requires forall es :: layout.derived(es) == []
    ensures ResolvePool(layout, value).Some? && BaseOnly(layout, value, ResolvePool(layout, value).value)
  {
    hide ReadAll, Todo, DistinctSlots, Ascending, Slots, SortBySlot;
    EmptyIsSound(value);
    PassIsSound(value, [], layout.base);
    var todo := Todo(layout.base, []);
    var es := [] + ReadAll(value, todo);
    assert ReadAll(value, todo) == es;
    if todo == [] {
      assert es == [];
    }
    SortBySlotAscends(es);
    SameMembersSameSlots(SortBySlot(es), es);
    assert ResolvePool(layout, value) == Some(SortBySlot(es));
  }

  /** What a pass for these slots adds to what is there. */
  function PassAfter(value: u256 -> u256, wanted: seq<u256>, es: seq<Entry>): seq<Entry> {
    es + ReadAll(value, Todo(wanted, es))
  }

  /** The depth error comes exactly when three passes each fetch something new and more is still derived after them. */
  lemma TooDeepExactlyWhen(layout: Layout, value: u256 -> u256)
    ensures var first := PassAfter(value, layout.base, []);
            var second := PassAfter(value, layout.derived(first), first);
            var third := PassAfter(value, layout.derived(second), second);
            ResolvePool(layout, value) == None <==>
              && first != [] && layout.derived(first) != []
              && second != first && layout.derived(second) != []
              && third != second && layout.derived(third) != []
  {
    hide Todo, SortBySlot, ReadAll;
    var first := PassAfter(value, layout.base, []);
    var second := PassAfter(value, layout.derived(first), first);
    assert |first| == |Todo(layout.base, [])| && |second| == |first| + |Todo(layout.derived(first), first)|;
    assert [] + ReadAll(value, Todo(layout.base, [])) == first;
  }

  lemma BaseIsFirst(k: Keccak)
    ensures UniswapV3Fee005Layout(k).base == UNIV3_BASE
    ensures forall es :: UniswapV3Fee005Layout(k).derived(es) == UniV3Derived(k, es)
  {
    hide UniV3Derived;
  }

  /** For every storage whatever, resolution never runs too deep, and it is complete. */
  lemma UniV3Resolves(k: Keccak, value: u256 -> u256)
    requires Ideal(k)
    ensures var r := ResolvePool(UniswapV3Fee005Layout(k), value);
            r.Some? && Complete(k, value, r.value)
  {
    hide Resolve, Todo, ReadAll, UniV3Derived, DistinctSlots, Complete, Ideal, Slots, GraphOf, UniswapV3Fee005Layout;
    BaseIsFirst(k);
    EmptyIsSound(value);
    PassIsSound(value, [], UNIV3_BASE);
    assert UNIV3_BASE[0] in UNIV3_BASE;
    ResolveStep(UniswapV3Fee005Layout(k), value, UNIV3_BASE, [], 0, UNIV3_BASE[0]);
    WordPass(k, value, [] + ReadAll(value, Todo(UNIV3_BASE, [])));
  }
}
