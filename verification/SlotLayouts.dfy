/** Storage keys of Solidity mappings, and the three-phase slot layout of a UniswapV3 pool. */
module SlotLayouts {
  import opened Wrappers
  import opened Arithmetic
  import opened Numbers
  import opened Bytes
  import opened Ordered

  // ----- storage keys -----------------------------------------------------------------------

  /** How many bytes of the 64-bit value a key keeps. */
  function Kept(bytes: nat): (take: nat)
    ensures take <= 8 && take <= bytes
  {
    if bytes < 8 then bytes else 8
  }

  /** A signed integer of the declared width in bytes, sign-extended to a 256-bit key. */
  function SignedIntKey(value: int, bytes: nat): (k: nat)
    ensures k < U256_LIMIT
  {
    WidthBelow256(Kept(bytes));
    (if value < 0 then U256_LIMIT - Pow256(Kept(bytes)) else 0) + value % Pow256(Kept(bytes))
  }

  lemma WidthBelow256(bytes: nat)
    requires bytes <= 8
    ensures Pow256(bytes) < U256_LIMIT
  {
    assert Pow256(1) == 0x100 && Pow256(2) == 0x1_0000 && Pow256(3) == 0x100_0000 && Pow256(4) == 0x1_0000_0000;
    assert Pow256(5) == 0x100_0000_0000 && Pow256(6) == 0x1_0000_0000_0000;
    assert Pow256(7) == 0x100_0000_0000_0000 && Pow256(8) == 0x1_0000_0000_0000_0000;
  }

  /** The key is the value's own 256-bit encoding exactly while the value's magnitude fits the kept bytes. */
  lemma KeyIsFaithful(value: int, bytes: nat)
    ensures SignedIntKey(value, bytes) == (if value < 0 then U256_LIMIT + value else value)
       <==> 0 - Pow256(Kept(bytes)) <= value < Pow256(Kept(bytes))
  {
    WidthBelow256(Kept(bytes));
    hide Pow256;
    FaithfulWidth(value, Pow256(Kept(bytes)));
  }

  lemma FaithfulWidth(value: int, p: int)
    requires 0 < p < U256_LIMIT
    ensures (if value < 0 then U256_LIMIT - p + value % p == U256_LIMIT + value else value % p == value) <==>
      -p <= value < p
  {
    if 0 <= value < p {
      SmallMod(value, p);
    } else if -p <= value < 0 {
      NegativeMod(value, p);
    }
  }

  /** keccak256 of a mapping key and slot, left abstract. */
  datatype Keccak = Keccak(hash: (u256, u256) -> u256)

  function MappingSlot(k: Keccak, slot: u256, key: u256): u256 {
    k.hash(key, slot)
  }

  // ----- ticks ------------------------------------------------------------------------------

  const TICK_SPACING_005: int := 10
  const UNIV3_SLOT0_SLOT: u256 := 0
  const UNIV3_TICKS_MAPPING_SLOT: u256 := 5
  const UNIV3_TICKBITMAP_MAPPING_SLOT: u256 := 6
  const TWO_TO_160: nat := 0x1_0000_0000_0000_0000_0000_0000_0000_0000_0000_0000

  /** Division rounding toward zero, and its remainder. */
  function TruncDiv(a: int, b: int): int
    requires b > 0
  {
    if a >= 0 then a / b else -((-a) / b)
  }

  function TruncRem(a: int, b: int): int
    requires b > 0
  {
    a - b * TruncDiv(a, b)
  }

  /** Rounding toward zero and then correcting negative remainders is rounding down. */
  method CompressTick(tick: int, spacing: int) returns (compressed: int)
    requires spacing > 0
    ensures compressed == Compressed(tick, spacing)
    ensures compressed * spacing <= tick < (compressed + 1) * spacing
  {
    compressed := TruncDiv(tick, spacing);
    if tick < 0 && TruncRem(tick, spacing) != 0 {
      compressed := compressed - 1;
    }
    CompressedBounds(tick, spacing);
  }

  function Compressed(tick: int, spacing: int): int
    requires spacing > 0
  {
    if tick < 0 && TruncRem(tick, spacing) != 0 then TruncDiv(tick, spacing) - 1 else TruncDiv(tick, spacing)
  }

  lemma CompressedBounds(tick: int, spacing: int)
    requires spacing > 0
    ensures Compressed(tick, spacing) * spacing <= tick < (Compressed(tick, spacing) + 1) * spacing
  {
    var a := if tick >= 0 then tick else -tick;
    var q, r := a / spacing, a % spacing;
    assert a == q * spacing + r;
    Distribute(q, spacing);
    Distribute(-q, spacing);
    Distribute(-q - 1, spacing);
    assert (-q) * spacing == -(q * spacing);
    assert TruncDiv(tick, spacing) == if tick >= 0 then q else -q;
    assert spacing * TruncDiv(tick, spacing) == TruncDiv(tick, spacing) * spacing;
  }

  lemma Distribute(a: int, b: int)
    ensures (a + 1) * b == a * b + b
  {
  }

  /** The int24 in bits 160 to 183 of slot 0. */
  function TickOf(slot0: u256): (t: int)
    ensures -0x80_0000 <= t < 0x80_0000
  {
    var low := (slot0 / TWO_TO_160) % 0x100_0000;
    if low >= 0x80_0000 then low - 0x100_0000 else low
  }

  function CurrentTick(slot0: u256): int {
    Compressed(TickOf(slot0), TICK_SPACING_005)
  }

  function ActiveWord(slot0: u256): int {
    CurrentTick(slot0) / 256
  }

  function BitmapSlot(k: Keccak, wordPos: int): u256 {
    MappingSlot(k, UNIV3_TICKBITMAP_MAPPING_SLOT, SignedIntKey(wordPos, 2))
  }

  predicate IsInt16(v: int) {
    -0x8000 <= v < 0x8000
  }

  /**
   * What is assumed of the hash: the 65536 keys that bitmap words can have do not collide, and none of these
   * words lies among the first five slots.
   */
  ghost predicate Ideal(k: Keccak) {
    && (forall v, w :: IsInt16(v) && IsInt16(w) && BitmapSlot(k, v) == BitmapSlot(k, w) ==>
          SignedIntKey(v, 2) == SignedIntKey(w, 2))
    && (forall v :: IsInt16(v) ==> BitmapSlot(k, v) > 4)
  }

  /** The assumption can be met. */
  lemma SomeHashIsIdeal()
    ensures Ideal(Keccak((key: u256, slot: u256) => (key + 0x1_0000) % U256_LIMIT))
  {
    var k := Keccak((key: u256, slot: u256) => (key + 0x1_0000) % U256_LIMIT);
    forall v | IsInt16(v) ensures BitmapSlot(k, v) == v + 0x1_0000 {
      assert Pow256(2) == 0x1_0000;
      KeyIsFaithful(v, 2);
    }
  }

  function Phase2BitmapSlots(k: Keccak, slot0: u256): (r: seq<u256>)
    ensures |r| == 3
  {
    var active := ActiveWord(slot0);
    [BitmapSlot(k, active - 1), BitmapSlot(k, active), BitmapSlot(k, active + 1)]
  }

  predicate BitSet(word: u256, bit: nat) {
    (word / Pow2(bit)) % 2 == 1
  }

  /** Slot `offset` of the four that hold `Tick.Info` for a compressed tick. */
  function InfoSlotOf(k: Keccak, compressed: int, offset: nat): u256 {
    (MappingSlot(k, UNIV3_TICKS_MAPPING_SLOT, SignedIntKey(compressed * TICK_SPACING_005, 3)) + offset) % U256_LIMIT
  }

  function TickInfoSlot(k: Keccak, wordPos: int, bit: nat, offset: nat): u256 {
    InfoSlotOf(k, wordPos * 256 + bit, offset)
  }

  function TickInfoSlots(k: Keccak, wordPos: int, bit: nat): (r: seq<u256>)
    ensures |r| == 4 && forall o :: 0 <= o < 4 ==> r[o] == TickInfoSlot(k, wordPos, bit, o)
  {
    [TickInfoSlot(k, wordPos, bit, 0), TickInfoSlot(k, wordPos, bit, 1),
     TickInfoSlot(k, wordPos, bit, 2), TickInfoSlot(k, wordPos, bit, 3)]
  }

  /** The info slots of the set bits from `bit` up. */
  function WordTickSlots(k: Keccak, word: u256, wordPos: int, bit: nat): (r: seq<u256>)
    requires bit <= 256
    decreases 256 - bit
  {
    if bit == 256 then []
    else (if BitSet(word, bit) then TickInfoSlots(k, wordPos, bit) else []) + WordTickSlots(k, word, wordPos, bit + 1)
  }

  lemma {:induction false} WordTickSlotsMembers(k: Keccak, word: u256, wordPos: int, bit: nat, x: u256)
    requires bit <= 256
    ensures x in WordTickSlots(k, word, wordPos, bit) <==>
      exists b: nat, o: nat :: bit <= b < 256 && o < 4 && BitSet(word, b) && x == TickInfoSlot(k, wordPos, b, o)
    decreases 256 - bit
  {
    hide BitSet, TickInfoSlot;
    if bit < 256 {
      WordTickSlotsMembers(k, word, wordPos, bit + 1, x);
      var four := TickInfoSlots(k, wordPos, bit);
      if BitSet(word, bit) && x in four {
        var o :| 0 <= o < 4 && four[o] == x;
        assert x == TickInfoSlot(k, wordPos, bit, o);
      }
      if b: nat, o: nat :| bit <= b < 256 && o < 4 && BitSet(word, b) && x == TickInfoSlot(k, wordPos, b, o) {
        if b == bit { assert four[o] == x; }
      }
    }
  }

  function Position(s: seq<u256>, x: u256): (r: Option<nat>)
    ensures r == None <==> x !in s
    ensures r.Some? ==> r.value < |s| && s[r.value] == x && x !in s[..r.value]
  {
    if s == [] then None
    else if s[0] == x then Some(0)
    else match Position(s[1..], x)
      case None => None
      case Some(i) => assert s[..i + 1] == [s[0]] + s[1..][..i]; Some(i + 1)
  }

  function Find(already: seq<Entry>, slot: u256): (r: Option<u256>)
    ensures r == None <==> slot !in Slots(already)
    ensures r.Some? ==> (slot, r.value) in already
  {
    if already == [] then None else if already[0].0 == slot then Some(already[0].1) else Find(already[1..], slot)
  }

  function ActiveWordIn(already: seq<Entry>): int {
    match Find(already, UNIV3_SLOT0_SLOT)
    case Some(slot0) => ActiveWord(slot0)
    case None => 0
  }

  /** The info slots one fetched entry leads to, if it is a bitmap word. */
  function EntryTickSlots(k: Keccak, bitmap: seq<u256>, already: seq<Entry>, entry: Entry): seq<u256> {
    match Position(bitmap, entry.0)
    case None => []
    case Some(i) => WordTickSlots(k, entry.1, ActiveWordIn(already) + i - 1, 0)
  }

  /** The info slots for every bitmap word among `entries`, `already` being the whole list fetched so far. */
  function Phase3TickInfoSlots(k: Keccak, bitmap: seq<u256>, already: seq<Entry>, entries: seq<Entry>): seq<u256> {
    if entries == [] then []
    else EntryTickSlots(k, bitmap, already, entries[0]) + Phase3TickInfoSlots(k, bitmap, already, entries[1..])
  }

  method PushTick(k: Keccak, wordPos: int, bit: nat, out0: seq<u256>) returns (out: seq<u256>)
    ensures out == out0 + TickInfoSlots(k, wordPos, bit)
  {
    hide TickInfoSlot, TickInfoSlots;
    out := out0;
    ghost var four := TickInfoSlots(k, wordPos, bit);
    for offset := 0 to 4
      invariant out == out0 + four[..offset]
    {
      out := out + [TickInfoSlot(k, wordPos, bit, offset)];
    }
    assert four[..4] == four;
  }

  method PushWord(k: Keccak, word: u256, wordPos: int, out0: seq<u256>) returns (out: seq<u256>)
    ensures out == out0 + WordTickSlots(k, word, wordPos, 0)
  {
    hide BitSet, TickInfoSlots;
    out := out0;
    ghost var all := WordTickSlots(k, word, wordPos, 0);
    for bit := 0 to 256
      invariant out + WordTickSlots(k, word, wordPos, bit) == out0 + all
    {
      ghost var rest := WordTickSlots(k, word, wordPos, bit + 1);
      if BitSet(word, bit) {
        ghost var before := out;
        out := PushTick(k, wordPos, bit, out);
        assert before + (TickInfoSlots(k, wordPos, bit) + rest) == out + rest;
      } else {
        assert [] + rest == rest;
      }
    }
  }

  method PushEntry(k: Keccak, bitmap: seq<u256>, already: seq<Entry>, entry: Entry, out0: seq<u256>)
    returns (out: seq<u256>)
    ensures out == out0 + EntryTickSlots(k, bitmap, already, entry)
  {
    hide WordTickSlots, ActiveWordIn;
    var idx := Position(bitmap, entry.0);
    if idx == None {
      return out0;
    }
    out := PushWord(k, entry.1, ActiveWordIn(already) + idx.value - 1, out0);
  }

  /** The nested loops that push the same list. */
  method CollectTickInfoSlots(k: Keccak, bitmap: seq<u256>, already: seq<Entry>) returns (out: seq<u256>)
    ensures out == Phase3TickInfoSlots(k, bitmap, already, already)
  {
    hide EntryTickSlots;
    out := [];
    ghost var all := Phase3TickInfoSlots(k, bitmap, already, already);
    for n := 0 to |already|
      invariant out + Phase3TickInfoSlots(k, bitmap, already, already[n..]) == all
    {
      ghost var before, entry, rest := out, already[n], Phase3TickInfoSlots(k, bitmap, already, already[n + 1..]);
      assert already[n..][1..] == already[n + 1..] && already[n..][0] == entry;
      out := PushEntry(k, bitmap, already, already[n], out);
      assert before + (EntryTickSlots(k, bitmap, already, entry) + rest) == out + rest;
    }
  }

  /** A two-phase slot resolver: unconditional slots, and slots derived from what has been fetched. */
  datatype Layout = Layout(base: seq<u256>, derived: seq<Entry> -> seq<u256>)

  const UNIV3_BASE: seq<u256> := [0, 1, 2, 3, 4]

  /** Drops what has been fetched already. */
  function Unfetched(candidates: seq<u256>, already: seq<Entry>): (r: seq<u256>)
    ensures forall x :: x in r <==> x in candidates && x !in Slots(already)
  {
    if candidates == [] then []
    else
      (if candidates[0] in Slots(already) then [] else [candidates[0]]) + Unfetched(candidates[1..], already)
  }

  lemma {:induction false} UnfetchedAscends(candidates: seq<u256>, already: seq<Entry>)
    requires Ascending(candidates)
    ensures Ascending(Unfetched(candidates, already))
  {
    if candidates != [] {
      HeadIsLeast(candidates);
      UnfetchedAscends(candidates[1..], already);
      ConsAscends(candidates[0], Unfetched(candidates[1..], already));
    }
  }

  function UniV3Derived(k: Keccak, already: seq<Entry>): seq<u256> {
    match Find(already, UNIV3_SLOT0_SLOT)
    case None => []
    case Some(slot0) =>
      var bitmap := Phase2BitmapSlots(k, slot0);
      var phase2Done := exists i :: 0 <= i < |bitmap| && bitmap[i] in Slots(already);
      var candidates := if phase2Done then Phase3TickInfoSlots(k, bitmap, already, already) else bitmap;
      Unfetched(candidates, already)
  }

  function UniswapV3Fee005Layout(k: Keccak): Layout {
    Layout(UNIV3_BASE, already => UniV3Derived(k, already))
  }

  const UniswapV2Layout: Layout := Layout([0, 6, 7, 8], _ => [])
}
