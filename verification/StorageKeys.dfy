/** The 32-byte buffers that storage keys are built in, read as the numbers the layouts use. */
module StorageKeys {
  import opened Arithmetic
  import opened Numbers
  import opened Bytes
  import opened BigEndian
  import opened SlotLayouts

  // ----- the three key builders -------------------------------------------------------------

  /** The two's complement of a 64-bit value. */
  function TwosComplement(value: i32): nat {
    if value < 0 then 0x1_0000_0000_0000_0000 + value else value
  }

  /** The buffer holds the sign-extended key: sign bytes first, then the low bytes of the value. */
  method SignedIntKeyBuffer(value: i32, bytes: nat) returns (key: array<byte>)
    ensures fresh(key) && key.Length == 32
    ensures FromBe(key[..]) == SignedIntKey(value, bytes)
  {
    var signedBe := BeFixed(8, TwosComplement(value));
    var sign: byte := if value < 0 then 0xFF else 0;
    key := new byte[32](_ => sign);
    var take := if bytes < 8 then bytes else 8;
    for i := 0 to take
      invariant forall j :: 0 <= j < 32 - take ==> key[j] == sign
      invariant forall j :: 32 - take <= j < 32 - take + i ==> key[j] == signedBe[j - 24]
    {
      key[32 - take + i] := signedBe[8 - take + i];
    }
    assert key[..] == Fill(sign, 32 - take) + signedBe[8 - take..];
    KeyValue(value, take);
  }

  lemma KeyValue(value: i32, take: nat)
    requires take <= 8
    ensures FromBe(Fill(if value < 0 then 0xFF else 0, 32 - take) + BeFixed(8, TwosComplement(value))[8 - take..])
         == (if value < 0 then U256_LIMIT - Pow256(take) else 0) + value % Pow256(take)
  {
    var v := TwosComplement(value);
    hide Fill, BeFixed, FromBe, TwosComplement, Pow256;
    BeFixedTail(8, v, take);
    BeFixedValue(take, v);
    FillValue(32 - take);
    FromBeConcat(Fill(if value < 0 then 0xFF else 0, 32 - take), BeFixed(take, v));
    PowAdd(32 - take, take);
    PowWord();
    SameLowBytes(value, take);
    assert (Pow256(32 - take) - 1) * Pow256(take) == Pow256(32 - take) * Pow256(take) - Pow256(take);
  }

  lemma SameLowBytes(value: i32, take: nat)
    requires take <= 8
    ensures TwosComplement(value) % Pow256(take) == value % Pow256(take)
  {
    PowAdd(8 - take, take);
    PowWord();
    hide Pow256;
    if value < 0 {
      ComplementRemainder(value, Pow256(8 - take), Pow256(take));
    }
  }

  lemma ComplementRemainder(value: int, m: int, p: int)
    requires p > 0
    ensures (m * p + value) % p == value % p
  {
    var q, r := value / p, value % p;
    assert value == p * q + r;
    assert p * (m + q) == m * p + p * q;
    RemainderIs(m * p + value, p, m + q, r);
  }

  /** An address becomes the number it is, in a whole word. */
  method AddressKeyBuffer(address: seq<byte>) returns (key: array<byte>)
    requires |address| == 20
    ensures fresh(key) && key.Length == 32 && FromBe(key[..]) == FromBe(address)
  {
    hide Fill, FromBe, Pow256;
    key := new byte[32](_ => 0);
    for i := 0 to 20
      invariant forall j :: 0 <= j < 12 ==> key[j] == 0
      invariant forall j :: 12 <= j < 12 + i ==> key[j] == address[j - 12]
    {
      key[12 + i] := address[i];
    }
    ghost var zeros := Fill(0, 12);
    assert key[..] == zeros + address;
    FillValue(12);
    FromBeConcat(zeros, address);
  }

  /** What `mapping_slot_u256` hashes. */
  method MappingPreimage(slot: u256, key: seq<byte>) returns (buffer: array<byte>)
    requires |key| == 32
    ensures fresh(buffer) && buffer[..] == Preimage(slot, key)
  {
    buffer := new byte[64](_ => 0);
    var slotBe := BeFixed(32, slot);
    for i := 0 to 32
      invariant forall j :: 0 <= j < i ==> buffer[j] == key[j]
    {
      buffer[i] := key[i];
    }
    for i := 0 to 32
      invariant forall j :: 0 <= j < 32 ==> buffer[j] == key[j]
      invariant forall j :: 32 <= j < 32 + i ==> buffer[j] == slotBe[j - 32]
    {
      buffer[32 + i] := slotBe[i];
    }
    assert buffer[..] == key + slotBe;
  }

  function Preimage(slot: u256, key: seq<byte>): seq<byte> {
    key + BeFixed(32, slot)
  }

  /**
   * Different slots or keys are hashed from different buffers, so a collision-free hash keeps mapping entries apart.
   */
  lemma PreimagesDiffer(slot: u256, key: seq<byte>, slot': u256, key': seq<byte>)
    requires |key| == |key'| == 32
    ensures Preimage(slot, key) == Preimage(slot', key') <==> slot == slot' && FromBe(key) == FromBe(key')
  {
    hide Preimage, FromBe, BeFixed;
    PreimageParts(slot, key);
    PreimageParts(slot', key');
    if FromBe(key) == FromBe(key') {
      SameValueSameBytes(key, key');
    }
  }

  lemma PreimageParts(slot: u256, key: seq<byte>)
    requires |key| == 32
    ensures |Preimage(slot, key)| == 64
    ensures Preimage(slot, key)[..32] == key && FromBe(Preimage(slot, key)[32..]) == slot
  {
    hide FromBe, Pow256, BeFixed;
    PowWord();
    BeFixedValue(32, slot);
    assert Preimage(slot, key)[32..] == BeFixed(32, slot);
  }
}
