/** What is fetched of a pool, stated on the raw layout of its storage. */
module PoolStorage {
  import opened Wrappers
  import opened Arithmetic
  import opened Numbers
  import opened Bytes
  import opened Ordered
  import opened SlotLayouts
  import opened StateFetcher
  import opened UniV3Resolution

  /** A signed number as a 256-bit word, in two's complement. */
  function Word256(v: int): u256 {
    v % U256_LIMIT
  }

  /** `x` holds one of the three bitmap words around the one of tick `t`, of 256 ticks that are multiples of 10 each. */
  ghost predicate HoldsWordNear(k: Keccak, t: int, x: u256) {
    exists w :: t / 2560 - 1 <= w <= t / 2560 + 1 && x == k.hash(Word256(w), 6)
  }

  function Offset(base: u256, o: nat): u256 {
    (base + o) % U256_LIMIT
  }

  /** `x` is one of the four slots of tick `10 * c`, and the tick's bit is set in its word. */
  ghost predicate HoldsTick(k: Keccak, value: u256 -> u256, c: int, x: u256) {
    && (value(k.hash(Word256(c / 256), 6)) / Pow2(c % 256)) % 2 == 1
    && exists o :: 0 <= o < 4 && x == Offset(k.hash(Word256(10 * c), 5), o)
  }

  ghost predicate HoldsTickNear(k: Keccak, value: u256 -> u256, t: int, x: u256) {
    exists c :: t / 2560 - 1 <= c / 256 <= t / 2560 + 1 && HoldsTick(k, value, c, x)
  }

  const BITS_160: nat := 0x1_0000_0000_0000_0000_0000_0000_0000_0000_0000_0000
  const BITS_184: nat := 0x1_00_0000_0000_0000_0000_0000_0000_0000_0000_0000_0000_0000

  /** Slot 0 as Solidity packs it: 160 bits of price, 24 bits of tick in two's complement, and the rest. */
  ghost predicate Packs(slot0: u256, price: nat, tick: int, rest: nat) {
    && price < BITS_160 && -0x80_0000 <= tick < 0x80_0000
    && slot0 == price + BITS_160 * (if tick < 0 then tick + 0x100_0000 else tick) + BITS_184 * rest
  }

  lemma TickInSlot0(slot0: u256, price: nat, tick: int, rest: nat)
    requires Packs(slot0, price, tick, rest)
    ensures TickOf(slot0) == tick && ActiveWord(slot0) == tick / 2560
  {
    var low := if tick < 0 then tick + 0x100_0000 else tick;
    QuotientIs(slot0, TWO_TO_160, low + 0x100_0000 * rest);
    RemainderIs(low + 0x100_0000 * rest, 0x100_0000, rest, low);
    assert TickOf(slot0) == tick;
    CompressedBounds(tick, TICK_SPACING_005);
  }

  lemma WordIs(v: int)
    requires 0 - U256_LIMIT <= v < U256_LIMIT
    ensures Word256(v) == if v < 0 then U256_LIMIT + v else v
  {
    if v < 0 { NegativeMod(v, U256_LIMIT); } else { SmallMod(v, U256_LIMIT); }
  }

  lemma WordSlot(k: Keccak, w: int)
    requires -0x1_0000 <= w < 0x1_0000
    ensures BitmapSlot(k, w) == k.hash(Word256(w), 6)
  {
    assert Pow256(2) == 0x1_0000;
    KeyIsFaithful(w, 2);
    WordIs(w);
  }

  lemma TickSlot(k: Keccak, c: int, o: nat)
    requires -0x10_0000 <= c < 0x10_0000 && o < 4
    ensures InfoSlotOf(k, c, o) == Offset(k.hash(Word256(10 * c), 5), o)
  {
    assert Pow256(3) == 0x100_0000;
    KeyIsFaithful(10 * c, 3);
    WordIs(10 * c);
  }

  lemma WordsNear(k: Keccak, t: int, x: u256)
    requires -0x80_0000 <= t < 0x80_0000
    ensures NearbyWord(k, t / 2560, x) <==> HoldsWordNear(k, t, x)
  {
    hide BitmapSlot, Word256;
    var a := t / 2560;
    WordSlot(k, a - 1);
    WordSlot(k, a);
    WordSlot(k, a + 1);
  }

  lemma TicksIn(k: Keccak, value: u256 -> u256, w: int, x: u256)
    requires -0x1000 <= w < 0x1000
    ensures FlaggedIn(k, value, w, x) <==> exists c :: c / 256 == w && HoldsTick(k, value, c, x)
  {
    hide BitmapSlot, InfoSlotOf, Word256, Offset;
    WordSlot(k, w);
    if FlaggedIn(k, value, w, x) {
      var b: nat, o: nat :| b < 256 && o < 4 && BitSet(value(BitmapSlot(k, w)), b) && x == TickInfoSlot(k, w, b, o);
      var c := w * 256 + b;
      assert c / 256 == w && c % 256 == b;
      TickSlot(k, c, o);
      assert HoldsTick(k, value, c, x);
    }
    if c :| c / 256 == w && HoldsTick(k, value, c, x) {
      var o :| 0 <= o < 4 && x == Offset(k.hash(Word256(10 * c), 5), o);
      TickSlot(k, c, o);
      assert c == w * 256 + c % 256;
      assert x == TickInfoSlot(k, w, c % 256, o);
      assert BitSet(value(BitmapSlot(k, w)), c % 256);
    }
  }

  lemma TicksNear(k: Keccak, value: u256 -> u256, t: int, x: u256)
    requires -0x80_0000 <= t < 0x80_0000
    ensures NearbyTickSlot(k, value, t / 2560, x) <==> HoldsTickNear(k, value, t, x)
  {
    hide FlaggedIn, HoldsTick;
    var a := t / 2560;
    TicksIn(k, value, a - 1, x);
    TicksIn(k, value, a, x);
    TicksIn(k, value, a + 1, x);
  }

  /**
   * Whatever else a pool's storage holds: if slot 0 packs the tick `t`, what is fetched is exactly slots 0 to 4, the
   * three bitmap words around the tick's, and the four slots of every tick flagged in one of them, ascending and each
   * with its value.
   */
  lemma CompleteMeans(k: Keccak, value: u256 -> u256, r: seq<Entry>, price: nat, t: int, rest: nat)
    requires Complete(k, value, r) && Packs(value(0), price, t, rest)
    ensures Ascending(Slots(r)) && forall e :: e in r ==> e.1 == value(e.0)
    ensures forall x :: x in Slots(r) <==> x < 5 || HoldsWordNear(k, t, x) || HoldsTickNear(k, value, t, x)
  {
    hide NearbyWord, NearbyTickSlot, HoldsWordNear, HoldsTickNear, Packs, ActiveWord, Slots, Ascending;
    TickInSlot0(value(0), price, t, rest);
    assert -0x80_0000 <= t < 0x80_0000 by { PackedTick(value(0), price, t, rest); }
    forall x: u256
      ensures x in Slots(r) <==> x < 5 || HoldsWordNear(k, t, x) || HoldsTickNear(k, value, t, x)
    {
      BaseSlots(x);
      WordsNear(k, t, x);
      TicksNear(k, value, t, x);
      assert x in Slots(r) <==> InResolution(k, value, x);
    }
  }

  /** And so is a resolution, which always ends; `Unpack` finds such a tick in every slot 0. */
  lemma ResolutionFollowsStorage(k: Keccak, value: u256 -> u256, price: nat, t: int, rest: nat)
    requires Ideal(k) && Packs(value(0), price, t, rest)
    ensures ResolvePool(UniswapV3Fee005Layout(k), value).Some?
    ensures var r := ResolvePool(UniswapV3Fee005Layout(k), value).value;
            && Ascending(Slots(r))
            && (forall e :: e in r ==> e.1 == value(e.0))
            && forall x :: x in Slots(r) <==> x < 5 || HoldsWordNear(k, t, x) || HoldsTickNear(k, value, t, x)
  {
    hide ResolvePool, UniswapV3Fee005Layout, Complete, Packs, Ideal, HoldsWordNear, HoldsTickNear, Slots, Ascending;
    UniV3Resolves(k, value);
    CompleteMeans(k, value, ResolvePool(UniswapV3Fee005Layout(k), value).value, price, t, rest);
  }

  lemma Unpack(slot0: u256) returns (price: nat, t: int, rest: nat)
    ensures Packs(slot0, price, t, rest)
  {
    price, rest := slot0 % TWO_TO_160, slot0 / TWO_TO_160 / 0x100_0000;
    var low := slot0 / TWO_TO_160 % 0x100_0000;
    t := if low >= 0x80_0000 then low - 0x100_0000 else low;
  }

  /** Of a V2 pool exactly slots 0, 6, 7 and 8 are fetched. */
  lemma BaseOnlyMeans(value: u256 -> u256, r: seq<Entry>)
    requires BaseOnly(UniswapV2Layout, value, r)
    ensures r == [(0, value(0)), (6, value(6)), (7, value(7)), (8, value(8))]
  {
    hide Slots;
    var base: seq<u256> := [0, 6, 7, 8];
    assert UniswapV2Layout.base == base;
    AscendingIsUnique(Slots(r), base);
    forall i | 0 <= i < 4 ensures r[i] == (base[i], value(base[i])) {
      assert r[i] in r;
    }
  }

  lemma PackedTick(slot0: u256, price: nat, tick: int, rest: nat)
    requires Packs(slot0, price, tick, rest)
    ensures -0x80_0000 <= tick < 0x80_0000
  {
  }

  lemma BaseSlots(x: u256)
    ensures x in UNIV3_BASE <==> x < 5
  {
    assert UNIV3_BASE[0] == 0 && UNIV3_BASE[1] == 1 && UNIV3_BASE[2] == 2 && UNIV3_BASE[3] == 3 && UNIV3_BASE[4] == 4;
  }

  /** Every initialised tick within 256 spacings of the pool's own has all four of its slots fetched. */
  lemma NearbyTicksAreCovered(k: Keccak, value: u256 -> u256, r: seq<Entry>, price: nat, t: int, rest: nat,
                              c: int, o: nat)
    requires Complete(k, value, r) && Packs(value(0), price, t, rest) && o < 4
    requires t / 10 - 256 <= c <= t / 10 + 256
    requires (value(k.hash(Word256(c / 256), 6)) / Pow2(c % 256)) % 2 == 1
    ensures Offset(k.hash(Word256(10 * c), 5), o) in Slots(r)
  {
    hide Complete, Packs, Offset, Slots, Ascending, Word256;
    CompleteMeans(k, value, r, price, t, rest);
    assert HoldsTick(k, value, c, Offset(k.hash(Word256(10 * c), 5), o));
  }
}
