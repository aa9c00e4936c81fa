/** The type-2 transaction encoders of the signer, and a strict decoder for what they produce (EIP-2718, EIP-1559). */
module Eip1559 {
  import opened Wrappers
  import opened Numbers
  import opened Bytes
  import opened BigEndian
  import opened Rlp

  type Address20 = s: seq<byte> | |s| == 20 witness Le(20, 0)
  type Word32 = s: seq<byte> | |s| == 32 witness Le(32, 0)

  datatype BundleTx = BundleTx(
    from: Address20,
    to: Address20,
    valueWei: u256,
    data: seq<byte>,
    gasLimit: u64,
    nonce: u64,
    chainId: u64,
    bundleCorrelationId: u64,
    maxPriorityFeePerGas: u256,
    maxFeePerGas: u256)

  /** What of a `BundleTx` is signed: everything but the sender and the correlation id. */
  datatype Fields = Fields(
    chainId: u64,
    nonce: u64,
    maxPriorityFeePerGas: u256,
    maxFeePerGas: u256,
    gasLimit: u64,
    to: Address20,
    valueWei: u256,
    data: seq<byte>)

  function FieldsOf(tx: BundleTx): Fields {
    Fields(tx.chainId, tx.nonce, tx.maxPriorityFeePerGas, tx.maxFeePerGas, tx.gasLimit, tx.to, tx.valueWei, tx.data)
  }

  datatype Signature = Signature(yParity: byte, r: Word32, s: Word32)

  /** A byte vector cannot be longer than half the address space. */
  predicate Fits(data: seq<byte>) {
    |data| < 0x8000_0000_0000_0000
  }

  lemma UintWidth(n: nat)
    requires n < U256_LIMIT
    ensures |Be(n)| <= 32
  {
    PowWord();
    BeLength(n, 32);
  }

  // ----- what the bytes have to say ---------------------------------------------------------

  /** The number `n`, as short as it can be written. */
  predicate IsNumber(it: Item, n: nat) {
    !it.list && Minimal(it.payload) && FromBe(it.payload) == n
  }

  /** The items of `tx`, position by position, as EIP-1559 orders them. */
  predicate CarriesTx(items: seq<Item>, tx: BundleTx)
    requires |items| >= 9
  {
    && IsNumber(items[0], tx.chainId)
    && IsNumber(items[1], tx.nonce)
    && IsNumber(items[2], tx.maxPriorityFeePerGas)
    && IsNumber(items[3], tx.maxFeePerGas)
    && IsNumber(items[4], tx.gasLimit)
    && items[5] == Item(false, tx.to)
    && IsNumber(items[6], tx.valueWei)
    && items[7] == Item(false, tx.data)
    && items[8] == Item(true, [])
  }

  /** Two calls sign the same transaction: they agree in all but the sender and the correlation id. */
  predicate SameTx(a: BundleTx, b: BundleTx) {
    && a.chainId == b.chainId && a.nonce == b.nonce
    && a.maxPriorityFeePerGas == b.maxPriorityFeePerGas && a.maxFeePerGas == b.maxFeePerGas
    && a.gasLimit == b.gasLimit && a.to == b.to && a.valueWei == b.valueWei && a.data == b.data
  }

  // ----- the items of a transaction ---------------------------------------------------------

  function Number(n: nat): Item {
    Item(false, Be(n))
  }

  function UnsignedItems(f: Fields): (items: seq<Item>)
    ensures |items| == 9
  {
    [Number(f.chainId), Number(f.nonce), Number(f.maxPriorityFeePerGas), Number(f.maxFeePerGas), Number(f.gasLimit),
     Item(false, f.to), Number(f.valueWei), Item(false, f.data), Item(true, [])]
  }

  function SignatureItems(sig: Signature): (items: seq<Item>)
    ensures |items| == 3
  {
    [Number(sig.yParity), Number(FromBe(sig.r)), Number(FromBe(sig.s))]
  }

  lemma WordValue(w: Word32)
    ensures FromBe(w) < U256_LIMIT
  {
    FromBeBound(w);
    PowWord();
  }

  lemma {:induction false} EncodeItemsConcat(a: seq<Item>, b: seq<Item>)
    requires Encodable(a) && Encodable(b)
    ensures Encodable(a + b) && EncodeItems(a + b) == EncodeItems(a) + EncodeItems(b)
  {
    hide EncodeItem;
    if a == [] {
      assert a + b == b;
    } else {
      assert (a + b)[1..] == a[1..] + b;
      EncodeItemsConcat(a[1..], b);
    }
  }

  // ----- the encoders -----------------------------------------------------------------------

  function UnsignedPayloadLength(f: Fields): nat {
    UintLength(f.chainId) + UintLength(f.nonce) + UintLength(f.maxPriorityFeePerGas) + UintLength(f.maxFeePerGas)
    + UintLength(f.gasLimit) + StringLength(f.to) + UintLength(f.valueWei) + StringLength(f.data) + HeaderLength(0)
  }

  lemma NumberBytes(n: nat)
    requires n < U256_LIMIT
    ensures |Be(n)| <= 32 && |Number(n).payload| < MAX_LENGTH
    ensures EncodeItem(Number(n)) == EncodeUint(n) && |EncodeUint(n)| == UintLength(n) <= 33
  {
    UintWidth(n);
    UintIsString(n);
  }

  lemma StringBytes(s: seq<byte>)
    requires |s| < MAX_LENGTH
    ensures EncodeItem(Item(false, s)) == EncodeString(s) && |EncodeString(s)| == StringLength(s) <= |s| + 9
  {
    BeLength8(|s|);
  }

  lemma FieldsEncodable(f: Fields)
    requires Fits(f.data)
    ensures Encodable(UnsignedItems(f))
  {
    hide Be;
    UintWidth(f.chainId); UintWidth(f.nonce); UintWidth(f.maxPriorityFeePerGas); UintWidth(f.maxFeePerGas);
    UintWidth(f.gasLimit); UintWidth(f.valueWei);
  }

  /** Writing the next item extends what has been written of `items` by one. */
  lemma Put(out0: seq<byte>, out: seq<byte>, items: seq<Item>, i: nat, bytes: seq<byte>)
    requires Encodable(items) && i < |items| && Encodable(items[..i])
    requires out == out0 + EncodeItems(items[..i]) && bytes == EncodeItem(items[i])
    ensures Encodable(items[..i + 1])
    ensures out + bytes == out0 + EncodeItems(items[..i + 1])
    ensures |EncodeItems(items[..i + 1])| == |EncodeItems(items[..i])| + |bytes|
  {
    hide EncodeItem;
    assert items[..i + 1] == items[..i] + [items[i]];
    EncodeItemsConcat(items[..i], [items[i]]);
    assert EncodeItems([items[i]]) == bytes + EncodeItems([]);
  }

  function SignedPayloadLength(f: Fields, sig: Signature): nat {
    UnsignedPayloadLength(f) + UintLength(sig.yParity) + UintLength(FromBe(sig.r)) + UintLength(FromBe(sig.s))
  }

  /** Appends the nine fields, in the order of EIP-1559, each through its own encoder. */
  method WriteUnsignedFields(f: Fields, out0: seq<byte>) returns (out: seq<byte>)
    requires Fits(f.data)
    ensures Encodable(UnsignedItems(f)) && out == out0 + EncodeItems(UnsignedItems(f))
  {
    hide Be, EncodeUint, UintLength, EncodeString, StringLength, EncodeItems, EncodeItem;
    FieldsEncodable(f);
    ghost var items := UnsignedItems(f);
    out := out0;
    assert items[..0] == [];
    NoItems();
    NumberBytes(f.chainId);
    Put(out0, out, items, 0, EncodeUint(f.chainId));
    out := out + EncodeUint(f.chainId);
    NumberBytes(f.nonce);
    Put(out0, out, items, 1, EncodeUint(f.nonce));
    out := out + EncodeUint(f.nonce);
    NumberBytes(f.maxPriorityFeePerGas);
    Put(out0, out, items, 2, EncodeUint(f.maxPriorityFeePerGas));
    out := out + EncodeUint(f.maxPriorityFeePerGas);
    NumberBytes(f.maxFeePerGas);
    Put(out0, out, items, 3, EncodeUint(f.maxFeePerGas));
    out := out + EncodeUint(f.maxFeePerGas);
    NumberBytes(f.gasLimit);
    Put(out0, out, items, 4, EncodeUint(f.gasLimit));
    out := out + EncodeUint(f.gasLimit);
    StringBytes(f.to);
    Put(out0, out, items, 5, EncodeString(f.to));
    out := out + EncodeString(f.to);
    NumberBytes(f.valueWei);
    Put(out0, out, items, 6, EncodeUint(f.valueWei));
    out := out + EncodeUint(f.valueWei);
    StringBytes(f.data);
    Put(out0, out, items, 7, EncodeString(f.data));
    out := out + EncodeString(f.data);
    EmptyList();
    Put(out0, out, items, 8, Header(true, 0));
    out := out + Header(true, 0);
    assert items[..9] == items;
  }

  lemma NoItems()
    ensures EncodeItems([]) == []
  {
  }

  lemma EmptyList()
    ensures EncodeItem(Item(true, [])) == Header(true, 0) && |Header(true, 0)| == HeaderLength(0)
  {
  }

  /** The payload length computed up front is the number of bytes written. */
  lemma PayloadLengthIsExact(f: Fields)
    requires Fits(f.data)
    ensures
      && Encodable(UnsignedItems(f))
      && UnsignedPayloadLength(f) == |EncodeItems(UnsignedItems(f))| < MAX_LENGTH - 200
  {
    hide Be, EncodeUint, UintLength, EncodeString, StringLength, EncodeItems, EncodeItem, Header;
    FieldsEncodable(f);
    var items := UnsignedItems(f);
    assert items[..0] == [] && items[..9] == items;
    NoItems();
    NumberBytes(f.chainId); NumberBytes(f.nonce); NumberBytes(f.maxPriorityFeePerGas); NumberBytes(f.maxFeePerGas);
    NumberBytes(f.gasLimit); StringBytes(f.to); NumberBytes(f.valueWei); StringBytes(f.data);
    EmptyList();
    Grow(items, 0); Grow(items, 1); Grow(items, 2); Grow(items, 3); Grow(items, 4);
    Grow(items, 5); Grow(items, 6); Grow(items, 7); Grow(items, 8);
  }

  lemma Grow(items: seq<Item>, i: nat)
    requires Encodable(items) && i < |items|
    ensures Encodable(items[..i]) && Encodable(items[..i + 1])
    ensures |EncodeItems(items[..i + 1])| == |EncodeItems(items[..i])| + |EncodeItem(items[i])|
  {
    hide EncodeItem, EncodeItems;
    Put([], EncodeItems(items[..i]), items, i, EncodeItem(items[i]));
  }

  /** The sign input: `0x02`, a list header carrying the precomputed length, the nine fields. */
  method EncodeUnsigned(tx: BundleTx) returns (out: seq<byte>)
    requires Fits(tx.data)
    ensures out == EnvelopeOf(Unsigned(FieldsOf(tx)))
    ensures EnvelopeItems(out).Some? && |EnvelopeItems(out).value| == 9 && CarriesTx(EnvelopeItems(out).value, tx)
  {
    hide Be, FromBe, EncodeItems, EncodeItem, UnsignedPayloadLength, Header, EnvelopeItems, EnvelopeOf;
    var f := FieldsOf(tx);
    PayloadLengthIsExact(f);
    out := [0x02];
    out := out + Header(true, UnsignedPayloadLength(f));
    out := WriteUnsignedFields(f, out);
    UnsignedEnvelope(f);
    EnvelopeHasItems(Unsigned(f));
    NumbersHold(f);
  }

  /** The assembled transaction: the same fields followed by parity, `r` and `s`. */
  method EncodeSigned(tx: BundleTx, yParity: byte, r: Word32, s: Word32) returns (out: seq<byte>)
    requires Fits(tx.data)
    ensures out == EnvelopeOf(Signed(FieldsOf(tx), Signature(yParity, r, s)))
    ensures EnvelopeItems(out).Some? && |EnvelopeItems(out).value| == 12 && CarriesTx(EnvelopeItems(out).value, tx)
    ensures var items := EnvelopeItems(out).value;
            IsNumber(items[9], yParity) && IsNumber(items[10], FromBe(r)) && IsNumber(items[11], FromBe(s))
  {
    hide Be, FromBe, EncodeItems, EncodeItem, UnsignedPayloadLength, Header, EncodeUint, UintLength, EnvelopeItems,
      EnvelopeOf;
    var f := FieldsOf(tx);
    ghost var sig := Signature(yParity, r, s);
    var rU, sU := FromBe(r), FromBe(s);
    WordValue(r); WordValue(s);
    UintWidth(yParity); UintWidth(rU); UintWidth(sU);
    PayloadLengthIsExact(f);
    SignatureLength(sig);
    var signedPayload := UnsignedPayloadLength(f) + UintLength(yParity) + UintLength(rU) + UintLength(sU);
    out := [0x02];
    out := out + Header(true, signedPayload);
    out := WriteUnsignedFields(f, out);
    out := out + EncodeUint(yParity);
    out := out + EncodeUint(rU);
    out := out + EncodeUint(sU);
    SignedEnvelope(f, sig);
    EnvelopeHasItems(Signed(f, sig));
    NumbersHold(f);
    NumberHolds(yParity); NumberHolds(rU); NumberHolds(sU);
  }

  lemma NumberHolds(n: nat)
    ensures IsNumber(Number(n), n)
  {
    FromBeOfBe(n);
  }

  lemma NumbersHold(f: Fields)
    ensures IsNumber(Number(f.chainId), f.chainId) && IsNumber(Number(f.nonce), f.nonce)
    ensures IsNumber(Number(f.maxPriorityFeePerGas), f.maxPriorityFeePerGas)
    ensures IsNumber(Number(f.maxFeePerGas), f.maxFeePerGas)
    ensures IsNumber(Number(f.gasLimit), f.gasLimit) && IsNumber(Number(f.valueWei), f.valueWei)
  {
    hide IsNumber, Number;
    NumberHolds(f.chainId); NumberHolds(f.nonce); NumberHolds(f.maxPriorityFeePerGas);
    NumberHolds(f.maxFeePerGas); NumberHolds(f.gasLimit); NumberHolds(f.valueWei);
  }

  lemma SignatureLength(sig: Signature)
    ensures Encodable(SignatureItems(sig))
    ensures |Be(sig.yParity)| <= 32 && |Be(FromBe(sig.r))| <= 32 && |Be(FromBe(sig.s))| <= 32
    ensures EncodeItems(SignatureItems(sig))
         == EncodeUint(sig.yParity) + EncodeUint(FromBe(sig.r)) + EncodeUint(FromBe(sig.s))
    ensures |EncodeItems(SignatureItems(sig))|
         == UintLength(sig.yParity) + UintLength(FromBe(sig.r)) + UintLength(FromBe(sig.s)) < 200
  {
    hide Be, FromBe, EncodeUint, UintLength, EncodeItems, EncodeItem;
    WordValue(sig.r); WordValue(sig.s);
    var y, r, s := sig.yParity, FromBe(sig.r), FromBe(sig.s);
    NumberBytes(y); NumberBytes(r); NumberBytes(s);
    var items := SignatureItems(sig);
    NoItems();
    assert items[..0] == [] && items[..3] == items;
    Put([], [], items, 0, EncodeUint(y));
    Put([], EncodeUint(y), items, 1, EncodeUint(r));
    Put([], EncodeUint(y) + EncodeUint(r), items, 2, EncodeUint(s));
  }

  // ----- what the bytes mean ----------------------------------------------------------------

  datatype Tx = Unsigned(fields: Fields) | Signed(fields: Fields, sig: Signature)

  function ItemsOf(t: Tx): seq<Item> {
    match t
    case Unsigned(f) => UnsignedItems(f)
    case Signed(f, sig) => UnsignedItems(f) + SignatureItems(sig)
  }

  /** A transaction whose payload a header can announce. */
  ghost predicate Sized(t: Tx) {
    Encodable(ItemsOf(t)) && |EncodeItems(ItemsOf(t))| < MAX_LENGTH
  }

  /** The canonical envelope of a transaction, by the general rules of RLP. */
  ghost function EnvelopeOf(t: Tx): seq<byte> {
    if Sized(t) then [0x02] + EncodeItem(Item(true, EncodeItems(ItemsOf(t)))) else []
  }

  lemma UnsignedEnvelope(f: Fields)
    requires Fits(f.data)
    ensures Sized(Unsigned(f)) && UnsignedPayloadLength(f) < MAX_LENGTH
    ensures EnvelopeOf(Unsigned(f)) == [0x02] + Header(true, UnsignedPayloadLength(f)) + EncodeItems(UnsignedItems(f))
  {
    hide Be, EncodeItems, UnsignedPayloadLength, Header;
    PayloadLengthIsExact(f);
  }

  lemma SignedEnvelope(f: Fields, sig: Signature)
    requires Fits(f.data)
    ensures Encodable(UnsignedItems(f)) && Encodable(SignatureItems(sig))
    ensures Sized(Signed(f, sig)) && SignedPayloadLength(f, sig) < MAX_LENGTH
    ensures EnvelopeOf(Signed(f, sig))
         == [0x02] + Header(true, SignedPayloadLength(f, sig))
            + (EncodeItems(UnsignedItems(f)) + EncodeItems(SignatureItems(sig)))
  {
    hide Be, FromBe, EncodeItems, UnsignedPayloadLength, Header, UintLength, EncodeUint, SignatureItems, UnsignedItems;
    PayloadLengthIsExact(f);
    SignatureLength(sig);
    EncodeItemsConcat(UnsignedItems(f), SignatureItems(sig));
  }

  // ----- decoding ---------------------------------------------------------------------------

  /** A canonical number below `limit`. */
  function AsNumber(it: Item, limit: nat): Option<nat> {
    if !it.list && Minimal(it.payload) && FromBe(it.payload) < limit then Some(FromBe(it.payload)) else None
  }

  const U64_LIMIT: nat := 0x1_0000_0000_0000_0000

  function AsFields(items: seq<Item>): Option<Fields>
    requires |items| >= 9
  {
    match (AsNumber(items[0], U64_LIMIT), AsNumber(items[1], U64_LIMIT), AsNumber(items[2], U256_LIMIT),
           AsNumber(items[3], U256_LIMIT), AsNumber(items[4], U64_LIMIT), AsNumber(items[6], U256_LIMIT))
    case (Some(chainId), Some(nonce), Some(priority), Some(fee), Some(gas), Some(value)) =>
      if !items[5].list && |items[5].payload| == 20 && !items[7].list && items[8] == Item(true, []) then
        Some(Fields(chainId, nonce, priority, fee, gas, items[5].payload, value, items[7].payload))
      else None
    case _ => None
  }

  function Word(n: nat): Word32
    requires n < U256_LIMIT
  {
    BeFixed(32, n)
  }

  function AsSignature(items: seq<Item>): Option<Signature>
    requires |items| == 3
  {
    match (AsNumber(items[0], 256), AsNumber(items[1], U256_LIMIT), AsNumber(items[2], U256_LIMIT))
    case (Some(y), Some(r), Some(s)) => Some(Signature(y, Word(r), Word(s)))
    case _ => None
  }

  function AsTx(items: seq<Item>): Option<Tx> {
    if |items| == 9 then
      match AsFields(items)
      case Some(f) => Some(Unsigned(f))
      case None => None
    else if |items| == 12 then
      match (AsFields(items[..9]), AsSignature(items[9..]))
      case (Some(f), Some(sig)) => Some(Signed(f, sig))
      case _ => None
    else None
  }

  /** The items of a type-2 envelope: the byte 2, and then one list that takes up all the rest. */
  function EnvelopeItems(bytes: seq<byte>): Option<seq<Item>> {
    if bytes == [] || bytes[0] != 0x02 then None
    else match DecodeItem(bytes[1..])
      case None => None
      case Some((outer, used)) => if !outer.list || used != |bytes| - 1 then None else DecodeItems(outer.payload)
  }

  /** Strict decoding of a whole envelope: nothing may be left over at any level. */
  function Decode(bytes: seq<byte>): Option<Tx> {
    match EnvelopeItems(bytes)
    case None => None
    case Some(items) => AsTx(items)
  }

  /** A 32-byte word is determined by its value. */
  lemma WordOfValue(w: Word32)
    ensures FromBe(w) < U256_LIMIT && Word(FromBe(w)) == w
  {
    WordValue(w);
    WordHolds(FromBe(w));
    SameValueSameBytes(Word(FromBe(w)), w);
  }

  lemma WordHolds(n: nat)
    requires n < U256_LIMIT
    ensures FromBe(Word(n)) == n
  {
    PowWord();
    hide Pow256;
    BeFixedValue(32, n);
  }

  lemma NumberRoundTrip(n: nat, limit: nat)
    requires n < limit
    ensures AsNumber(Number(n), limit) == Some(n)
  {
    FromBeOfBe(n);
  }

  lemma NumberIsCanonical(it: Item, limit: nat)
    requires AsNumber(it, limit).Some?
    ensures Number(AsNumber(it, limit).value) == it
  {
    BeOfFromBe(it.payload);
  }

  lemma ItemsDetermineTx(t: Tx)
    ensures AsTx(ItemsOf(t)) == Some(t)
  {
    hide Be, FromBe, AsNumber, Number;
    var f := t.fields;
    NumberRoundTrip(f.chainId, U64_LIMIT); NumberRoundTrip(f.nonce, U64_LIMIT);
    NumberRoundTrip(f.maxPriorityFeePerGas, U256_LIMIT); NumberRoundTrip(f.maxFeePerGas, U256_LIMIT);
    NumberRoundTrip(f.gasLimit, U64_LIMIT); NumberRoundTrip(f.valueWei, U256_LIMIT);
    if t.Signed? {
      var sig := t.sig;
      NumberRoundTrip(sig.yParity, 256);
      WordOfValue(sig.r); WordOfValue(sig.s);
      NumberRoundTrip(FromBe(sig.r), U256_LIMIT); NumberRoundTrip(FromBe(sig.s), U256_LIMIT);
      assert ItemsOf(t)[..9] == UnsignedItems(f) && ItemsOf(t)[9..] == SignatureItems(sig);
    }
  }

  lemma TxDeterminesItems(items: seq<Item>)
    requires AsTx(items).Some?
    ensures ItemsOf(AsTx(items).value) == items
  {
    hide Be, FromBe, AsNumber, Number, Word;
    CanonicalIfNumber(items[0], U64_LIMIT); CanonicalIfNumber(items[1], U64_LIMIT);
    CanonicalIfNumber(items[2], U256_LIMIT); CanonicalIfNumber(items[3], U256_LIMIT);
    CanonicalIfNumber(items[4], U64_LIMIT); CanonicalIfNumber(items[6], U256_LIMIT);
    if |items| == 12 {
      CanonicalIfNumber(items[9], 256);
      CanonicalIfNumber(items[10], U256_LIMIT); CanonicalIfNumber(items[11], U256_LIMIT);
      ValueOfWord(items[10]); ValueOfWord(items[11]);
    }
  }

  lemma CanonicalIfNumber(it: Item, limit: nat)
    ensures AsNumber(it, limit).Some? ==> Number(AsNumber(it, limit).value) == it
  {
    if AsNumber(it, limit).Some? { NumberIsCanonical(it, limit); }
  }

  lemma ValueOfWord(it: Item)
    ensures AsNumber(it, U256_LIMIT).Some? ==>
      FromBe(Word(AsNumber(it, U256_LIMIT).value)) == AsNumber(it, U256_LIMIT).value
  {
    if AsNumber(it, U256_LIMIT).Some? {
      WordHolds(AsNumber(it, U256_LIMIT).value);
    }
  }

  lemma EnvelopeHasItems(t: Tx)
    requires Sized(t)
    ensures EnvelopeItems(EnvelopeOf(t)) == Some(ItemsOf(t))
  {
    hide EncodeItem, DecodeItem, EncodeItems, DecodeItems, ItemsOf;
    var items := ItemsOf(t);
    var outer := Item(true, EncodeItems(items));
    DecodeEncodeItem(outer, []);
    DecodeEncode(items);
    assert EncodeItem(outer) + [] == EncodeItem(outer) == EnvelopeOf(t)[1..];
  }

  /** Decoding an envelope gives back every encoded field and consumes every byte. */
  lemma DecodeEncodeTx(t: Tx)
    requires Sized(t)
    ensures Decode(EnvelopeOf(t)) == Some(t)
  {
    hide EnvelopeItems, EnvelopeOf, AsTx, ItemsOf;
    EnvelopeHasItems(t);
    ItemsDetermineTx(t);
  }

  /** Anything accepted is exactly the envelope of what it decodes to. */
  lemma EncodeDecodeTx(bytes: seq<byte>)
    requires Decode(bytes).Some?
    ensures Sized(Decode(bytes).value) && EnvelopeOf(Decode(bytes).value) == bytes
  {
    hide EncodeItem, DecodeItem, EncodeItems, DecodeItems, AsTx, ItemsOf;
    var (outer, used) := DecodeItem(bytes[1..]).value;
    EncodeDecodeItem(bytes[1..]);
    EncodeDecode(outer.payload);
    TxDeterminesItems(DecodeItems(outer.payload).value);
    assert bytes[1..][..used] == bytes[1..];
    assert bytes == [0x02] + bytes[1..];
  }

  /** Equal bytes mean equal transactions: equal preimages sign equal fields, and none is also a signed one. */
  lemma EnvelopesAreInjective(t: Tx, t': Tx)
    requires Sized(t) && Sized(t') && EnvelopeOf(t) == EnvelopeOf(t')
    ensures t == t'
  {
    hide Decode, EnvelopeOf;
    DecodeEncodeTx(t);
    DecodeEncodeTx(t');
  }

  /**
   * The statement about the encoders themselves: sign inputs are equal exactly for the same transaction, signed bytes
   * exactly for the same transaction and signature, and neither is ever the other.
   */
  lemma PreimagesAndSignedBytes(a: BundleTx, b: BundleTx, sig: Signature, sig': Signature)
    requires Fits(a.data) && Fits(b.data)
    ensures EnvelopeOf(Unsigned(FieldsOf(a))) == EnvelopeOf(Unsigned(FieldsOf(b))) <==> SameTx(a, b)
    ensures EnvelopeOf(Signed(FieldsOf(a), sig)) == EnvelopeOf(Signed(FieldsOf(b), sig')) <==>
      SameTx(a, b) && sig == sig'
    ensures EnvelopeOf(Signed(FieldsOf(a), sig)) != EnvelopeOf(Unsigned(FieldsOf(b)))
    ensures Decode(EnvelopeOf(Unsigned(FieldsOf(a)))) == Some(Unsigned(FieldsOf(a)))
    ensures Decode(EnvelopeOf(Signed(FieldsOf(a), sig))) == Some(Signed(FieldsOf(a), sig))
  {
    hide Decode, EnvelopeOf, Sized;
    UnsignedEnvelope(FieldsOf(a));
    UnsignedEnvelope(FieldsOf(b));
    SignedEnvelope(FieldsOf(a), sig);
    SignedEnvelope(FieldsOf(b), sig');
    DecodeEncodeTx(Unsigned(FieldsOf(a)));
    DecodeEncodeTx(Signed(FieldsOf(a), sig));
    if EnvelopeOf(Unsigned(FieldsOf(a))) == EnvelopeOf(Unsigned(FieldsOf(b))) {
      EnvelopesAreInjective(Unsigned(FieldsOf(a)), Unsigned(FieldsOf(b)));
    }
    if EnvelopeOf(Signed(FieldsOf(a), sig)) == EnvelopeOf(Signed(FieldsOf(b), sig')) {
      EnvelopesAreInjective(Signed(FieldsOf(a), sig), Signed(FieldsOf(b), sig'));
    }
    if EnvelopeOf(Signed(FieldsOf(a), sig)) == EnvelopeOf(Unsigned(FieldsOf(b))) {
      EnvelopesAreInjective(Signed(FieldsOf(a), sig), Unsigned(FieldsOf(b)));
    }
  }
}
