/** CRC-32 as section 8 of RFC 1952 defines it, and the error patterns it detects. */
module Crc32 {
  import opened Bytes

  /** The shift register, least significant bit first. */
  type Register = c: seq<bool> | |c| == 32 witness Bits(32, 0)

  function Repeat(k: nat, b: bool): (s: seq<bool>)
    ensures |s| == k && forall i :: 0 <= i < k ==> s[i] == b
  {
    if k == 0 then [] else [b] + Repeat(k - 1, b)
  }

  function Xor(a: seq<bool>, b: seq<bool>): (r: seq<bool>)
    requires |a| == |b|
    ensures |r| == |a| && forall i :: 0 <= i < |a| ==> r[i] == (a[i] != b[i])
  {
    if a == [] then [] else [a[0] != b[0]] + Xor(a[1..], b[1..])
  }

  /** The two constants of the algorithm: the reversed polynomial and the initial (and final) mask. */
  datatype Params = Params(poly: Register, mask: Register)

  const IEEE: Params := Params(Bits(32, 0xEDB8_8320), Repeat(32, true))

  /** All that the proofs below need of the constants; `IeeeIsSound` shows that the real ones have it. */
  ghost predicate Sound(p: Params) {
    p.poly[31] && forall i :: 0 <= i < 32 ==> p.mask[i]
  }

  /** The exponents below 32 of the generator polynomial of IEEE 802.3. */
  const IEEE_EXPONENTS: set<int> := {26, 23, 22, 16, 12, 11, 10, 8, 7, 5, 4, 2, 1, 0}

  /** The constant is that polynomial with its bits reversed. */
  lemma IeeePolynomial()
    ensures forall i :: 0 <= i < 32 ==> (IEEE.poly[31 - i] <==> i in IEEE_EXPONENTS)
  {
    hide Bits, Repeat, FromBits, Pow2;
    var T, F := true, false;
    var s8: seq<bool> := [];
    WordWidth();
    var s7 := [F, T, T, T] + s8;
    Nibble(s8, F, T, T, T);
    assert FromBits(s7) == 0xE;
    var s6 := [T, F, T, T] + s7;
    Nibble(s7, T, F, T, T);
    assert FromBits(s6) == 0xED;
    var s5 := [T, T, F, T] + s6;
    Nibble(s6, T, T, F, T);
    assert FromBits(s5) == 0xEDB;
    var s4 := [F, F, F, T] + s5;
    Nibble(s5, F, F, F, T);
    assert FromBits(s4) == 0xEDB8;
    var s3 := [F, F, F, T] + s4;
    Nibble(s4, F, F, F, T);
    assert FromBits(s3) == 0xEDB88;
    var s2 := [T, T, F, F] + s3;
    Nibble(s3, T, T, F, F);
    assert FromBits(s2) == 0xEDB883;
    var s1 := [F, T, F, F] + s2;
    Nibble(s2, F, T, F, F);
    assert FromBits(s1) == 0xEDB8832;
    var s0 := [F, F, F, F] + s1;
    Nibble(s1, F, F, F, F);
    assert FromBits(s0) == 0xEDB88320;
    BitsRoundTrip(32, 0xEDB8_8320);
    FromBitsInjective(IEEE.poly, s0);
  }

  lemma WordWidth()
    ensures Pow2(32) == 0x1_0000_0000 && FromBits([]) == 0
  {
    assert Pow2(8) == 0x100;
    assert Pow2(16) == 0x1_0000;
    assert Pow2(24) == 0x100_0000;
  }

  lemma Nibble(s: seq<bool>, a: bool, b: bool, c: bool, d: bool)
    ensures FromBits([a, b, c, d] + s) == One(a) + 2 * One(b) + 4 * One(c) + 8 * One(d) + 16 * FromBits(s)
  {
    hide FromBits;
    FirstBit(d, s);
    FirstBit(c, [d] + s);
    FirstBit(b, [c] + ([d] + s));
    FirstBit(a, [b] + ([c] + ([d] + s)));
    assert [a, b, c, d] + s == [a] + ([b] + ([c] + ([d] + s)));
  }

  function One(b: bool): nat {
    if b then 1 else 0
  }

  lemma FirstBit(b: bool, s: seq<bool>)
    ensures FromBits([b] + s) == One(b) + 2 * FromBits(s)
  {
    assert ([b] + s)[1..] == s;
  }

  lemma IeeeIsSound()
    ensures Sound(IEEE)
  {
    IeeePolynomial();
    assert IEEE.poly[31 - 0];
  }

  /** One round of RFC 1952's table generator: shift right, folding the polynomial in when a one falls out. */
  function Round(g: Register, c: Register): Register {
    var shifted := c[1..] + [false];
    if c[0] then Xor(shifted, g) else shifted
  }

  function Rounds(g: Register, n: nat, c: Register): Register {
    if n == 0 then c else Rounds(g, n - 1, Round(g, c))
  }

  /** `t` in the low bits, zeros above. */
  function Pad(t: seq<bool>): Register
    requires |t| <= 32
  {
    t + Repeat(32 - |t|, false)
  }

  /** RFC 1952's update: fold the byte into the low eight bits, then eight rounds. */
  function Update(g: Register, c: Register, b: byte): Register {
    Rounds(g, 8, Xor(c, Pad(Bits(8, b))))
  }

  function UpdateAll(g: Register, c: Register, data: seq<byte>): Register
    decreases data
  {
    if data == [] then c else UpdateAll(g, Update(g, c, data[0]), data[1..])
  }

  /** The checksum of `data`. */
  function Checksum(p: Params, data: seq<byte>): (r: nat)
    ensures r < Pow2(32)
  {
    FromBitsBound(Xor(UpdateAll(p.poly, p.mask, data), p.mask));
    FromBits(Xor(UpdateAll(p.poly, p.mask, data), p.mask))
  }

  // ----- the table --------------------------------------------------------------------------

  /** RFC 1952's `crc_table`: each byte value after eight rounds. */
  function Table(g: Register): (t: seq<Register>)
    ensures |t| == 256
  {
    seq(256, (n: int) requires 0 <= n < 256 => Rounds(g, 8, Pad(Bits(8, n))))
  }

  /** RFC 1952's `crc_table[(c ^ b) & 0xff] ^ (c >> 8)`. */
  function TableUpdate(g: Register, c: Register, b: byte): Register {
    var low := Xor(c[..8], Bits(8, b));
    FromBitsBound(low);
    assert Pow2(8) == 256;
    Xor(Table(g)[FromBits(low)], c[8..] + Repeat(8, false))
  }

  lemma RoundIsLinear(g: Register, a: Register, b: Register)
    ensures Round(g, Xor(a, b)) == Xor(Round(g, a), Round(g, b))
  {
    hide Xor;
    var left, right := Round(g, Xor(a, b)), Xor(Round(g, a), Round(g, b));
    forall i | 0 <= i < 32 ensures left[i] == right[i] {
      if i < 31 { assert Xor(a, b)[i + 1] == (a[i + 1] != b[i + 1]); }
    }
  }

  lemma {:induction false} RoundsAreLinear(g: Register, n: nat, a: Register, b: Register)
    ensures Rounds(g, n, Xor(a, b)) == Xor(Rounds(g, n, a), Rounds(g, n, b))
    decreases n
  {
    hide Xor, Round;
    if n > 0 {
      RoundIsLinear(g, a, b);
      RoundsAreLinear(g, n - 1, Round(g, a), Round(g, b));
    }
  }

  /** As long as only zeros fall out, rounds just shift. */
  lemma {:induction false} ZerosOnlyShift(g: Register, n: nat, z: Register)
    requires n <= 32 && forall i :: 0 <= i < n ==> !z[i]
    ensures Rounds(g, n, z) == z[n..] + Repeat(n, false)
    decreases n
  {
    hide Repeat;
    if n > 0 {
      ZerosOnlyShift(g, n - 1, Round(g, z));
      assert Round(g, z)[n - 1..] + Repeat(n - 1, false) == z[n..] + Repeat(n, false);
    }
  }

  /** Looking the low byte up in the table is the same as folding the byte in and running eight rounds. */
  lemma UpdateIsTableLookup(g: Register, c: Register, b: byte)
    ensures Update(g, c, b) == TableUpdate(g, c, b)
  {
    hide Xor, Repeat, Rounds, Table;
    var low := Xor(c[..8], Bits(8, b));
    var folded := Xor(c, Pad(Bits(8, b)));
    var high: Register := Repeat(8, false) + c[8..];
    assert folded == Xor(Pad(low), high);
    RoundsAreLinear(g, 8, Pad(low), high);
    ZerosOnlyShift(g, 8, high);
    assert high[8..] == c[8..];
    FromBitsBound(low);
    assert Pow2(8) == 256;
    BitsOfFromBits(low);
    TableEntry(g, FromBits(low));
  }

  lemma TableEntry(g: Register, n: nat)
    requires n < 256
    ensures Table(g)[n] == Rounds(g, 8, Pad(Bits(8, n)))
  {
    hide Rounds;
  }

  lemma BitsOfFromBits(s: seq<bool>)
    ensures Bits(|s|, FromBits(s)) == s
  {
    FromBitsBound(s);
    BitsRoundTrip(|s|, FromBits(s));
    FromBitsInjective(Bits(|s|, FromBits(s)), s);
  }

  // ----- the register as a serial machine ---------------------------------------------------

  /** Feeds one message bit into the low end. */
  function Feed(g: Register, c: Register, bit: bool): Register {
    var shifted := c[1..] + [false];
    if c[0] != bit then Xor(shifted, g) else shifted
  }

  function FeedAll(g: Register, c: Register, bits: seq<bool>): Register
    decreases bits
  {
    if bits == [] then c else FeedAll(g, Feed(g, c, bits[0]), bits[1..])
  }

  lemma {:induction false} FeedAllConcat(g: Register, c: Register, a: seq<bool>, b: seq<bool>)
    ensures FeedAll(g, c, a + b) == FeedAll(g, FeedAll(g, c, a), b)
    decreases a
  {
    if a == [] {
      assert a + b == b;
    } else {
      assert (a + b)[1..] == a[1..] + b;
      FeedAllConcat(g, Feed(g, c, a[0]), a[1..], b);
    }
  }

  lemma RoundIsFeed(g: Register, c: Register, bits: seq<bool>)
    requires 0 < |bits| <= 32
    ensures Round(g, Xor(c, Pad(bits))) == Xor(Feed(g, c, bits[0]), Pad(bits[1..]))
  {
    hide Xor, Repeat;
    var folded, left := Xor(c, Pad(bits)), Round(g, Xor(c, Pad(bits)));
    var fed := Feed(g, c, bits[0]);
    assert folded[0] == (c[0] != bits[0]);
    forall i | 0 <= i < 32
      ensures left[i] == (fed[i] != Pad(bits[1..])[i])
    {
      if i < 31 { assert folded[i + 1] == (c[i + 1] != Pad(bits[1..])[i]); }
    }
  }

  /** Folding up to 32 message bits in at once and then shifting equals feeding them one by one. */
  lemma {:induction false} FoldThenShift(g: Register, c: Register, bits: seq<bool>)
    requires |bits| <= 32
    ensures Rounds(g, |bits|, Xor(c, Pad(bits))) == FeedAll(g, c, bits)
    decreases bits
  {
    if bits == [] {
      assert Xor(c, Pad(bits)) == c;
    } else {
      hide Feed, Round, Pad, Xor;
      RoundIsFeed(g, c, bits);
      FoldThenShift(g, Feed(g, c, bits[0]), bits[1..]);
    }
  }

  /** The byte-wise update is the serial machine run over the bit stream. */
  lemma {:induction false} UpdateIsSerial(g: Register, c: Register, data: seq<byte>)
    ensures UpdateAll(g, c, data) == FeedAll(g, c, ByteBits(data))
    decreases data
  {
    if data != [] {
      FoldThenShift(g, c, Bits(8, data[0]));
      UpdateIsSerial(g, Update(g, c, data[0]), data[1..]);
      FeedAllConcat(g, c, Bits(8, data[0]), ByteBits(data[1..]));
    }
  }

  /** For a fixed message the final register determines the initial one. */
  lemma {:induction false} FeedAllInjective(g: Register, c: Register, d: Register, bits: seq<bool>)
    requires g[31]
    requires FeedAll(g, c, bits) == FeedAll(g, d, bits)
    ensures c == d
    decreases bits
  {
    if bits != [] {
      FeedAllInjective(g, Feed(g, c, bits[0]), Feed(g, d, bits[0]), bits[1..]);
      FeedDetermines(g, c, d, bits[0], bits[0], 0);
    }
  }

  /** When two steps end with equal bits from `k` up, the fed-back bit agrees and so do the inputs from `k + 1` up. */
  lemma FeedDetermines(g: Register, c: Register, d: Register, x: bool, y: bool, k: nat)
    requires g[31]
    requires k <= 31
    requires Feed(g, c, x)[k..] == Feed(g, d, y)[k..]
    ensures (c[0] != x) == (d[0] != y)
    ensures c[k + 1..] == d[k + 1..]
  {
    var p, q := Feed(g, c, x), Feed(g, d, y);
    assert p[31] == p[k..][31 - k] && q[31] == q[k..][31 - k];
    forall i | k + 1 <= i < 32
      ensures c[i] == d[i]
    {
      assert p[i - 1] == p[k..][i - 1 - k] && q[i - 1] == q[k..][i - 1 - k];
    }
  }

  /** Equal ends after `|a| <= 32` steps force the starting registers to agree above bit `|a|`. */
  lemma {:induction false} EqualEnds(g: Register, c: Register, d: Register, a: seq<bool>, b: seq<bool>)
    requires g[31]
    requires |a| == |b| <= 32
    requires FeedAll(g, c, a) == FeedAll(g, d, b)
    ensures c[|a|..] == d[|a|..]
    decreases a
  {
    if a != [] {
      EqualEnds(g, Feed(g, c, a[0]), Feed(g, d, b[0]), a[1..], b[1..]);
      FeedDetermines(g, c, d, a[0], b[0], |a| - 1);
    }
  }

  /** Two different messages of the same length up to 32 bits never lead to the same register. */
  lemma {:induction false} ShortMessagesDiffer(g: Register, c: Register, a: seq<bool>, b: seq<bool>)
    requires g[31]
    requires |a| == |b| <= 32
    requires FeedAll(g, c, a) == FeedAll(g, c, b)
    ensures a == b
    decreases a
  {
    if a != [] {
      EqualEnds(g, Feed(g, c, a[0]), Feed(g, c, b[0]), a[1..], b[1..]);
      FeedDetermines(g, c, c, a[0], b[0], |a| - 1);
      ShortMessagesDiffer(g, Feed(g, c, a[0]), a[1..], b[1..]);
      assert a == [a[0]] + a[1..] && b == [b[0]] + b[1..];
    }
  }

  // ----- checked messages -------------------------------------------------------------------

  /** The register that every message followed by its own checksum ends in. */
  function Residue(p: Params): Register {
    Rounds(p.poly, |p.mask|, p.mask)
  }

  /** `trailer` is the little-endian checksum of `payload`. */
  predicate Sealed(p: Params, payload: seq<byte>, trailer: seq<byte>) {
    FromLe(trailer) == Checksum(p, payload)
  }

  function Syndrome(p: Params, message: seq<byte>): Register {
    FeedAll(p.poly, p.mask, ByteBits(message))
  }

  /** A sealed message is recognised by the register it leaves behind, whatever the message is. */
  lemma SealedIffResidue(p: Params, payload: seq<byte>, trailer: seq<byte>)
    requires Sound(p) && |trailer| == 4
    ensures Sealed(p, payload, trailer) <==> Syndrome(p, payload + trailer) == Residue(p)
  {
    hide Xor, FeedAll, UpdateAll, ByteBits, FromBits, FromLe, Rounds, Repeat;
    var g := p.poly;
    var s := FeedAll(g, p.mask, ByteBits(payload));
    var t := ByteBits(trailer);
    var complement := Xor(s, p.mask);
    UpdateIsSerial(g, p.mask, payload);
    ByteBitsConcat(payload, trailer);
    FeedAllConcat(g, p.mask, ByteBits(payload), t);
    ByteBitsValue(trailer);
    assert FeedAll(g, s, complement) == Residue(p) by {
      assert Pad(complement) == complement;
      assert Xor(s, complement) == p.mask;
      FoldThenShift(g, s, complement);
    }
    if Sealed(p, payload, trailer) {
      FromBitsInjective(t, complement);
    } else if FeedAll(g, s, t) == Residue(p) {
      ShortMessagesDiffer(g, s, t, complement);
    }
  }

  /** A change confined to four consecutive bytes of payload and trailer always breaks the seal. */
  lemma BurstBreaksSeal(p: Params, payload: seq<byte>, trailer: seq<byte>, payload': seq<byte>, trailer': seq<byte>,
                        pre: seq<byte>, w: seq<byte>, w': seq<byte>, post: seq<byte>)
    requires Sound(p) && |trailer| == |trailer'| == 4
    requires payload + trailer == pre + w + post
    requires payload' + trailer' == pre + w' + post
    requires |w| == |w'| <= 4 && w != w'
    requires Sealed(p, payload, trailer)
    ensures !Sealed(p, payload', trailer')
  {
    SealedIffResidue(p, payload, trailer);
    SealedIffResidue(p, payload', trailer');
    SplitFeed(p, pre, w, post);
    SplitFeed(p, pre, w', post);
    if Syndrome(p, pre + w' + post) == Residue(p) {
      var c := Syndrome(p, pre);
      FeedAllInjective(p.poly, FeedAll(p.poly, c, ByteBits(w)), FeedAll(p.poly, c, ByteBits(w')), ByteBits(post));
      ShortMessagesDiffer(p.poly, c, ByteBits(w), ByteBits(w'));
      ByteBitsInjective(w, w');
    }
  }

  lemma SplitFeed(p: Params, pre: seq<byte>, w: seq<byte>, post: seq<byte>)
    ensures Syndrome(p, pre + w + post)
         == FeedAll(p.poly, FeedAll(p.poly, Syndrome(p, pre), ByteBits(w)), ByteBits(post))
  {
    ByteBitsConcat(pre + w, post);
    ByteBitsConcat(pre, w);
    FeedAllConcat(p.poly, p.mask, ByteBits(pre + w), ByteBits(post));
    FeedAllConcat(p.poly, p.mask, ByteBits(pre), ByteBits(w));
  }
}
