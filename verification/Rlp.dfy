/** Recursive Length Prefix (Ethereum Yellow Paper, Appendix B): the encoders used, and a strict decoder. */
module Rlp {
  import opened Wrappers
  import opened Bytes
  import opened BigEndian

  const MAX_LENGTH: nat := 0x1_0000_0000_0000_0000

  // ----- encoding ---------------------------------------------------------------------------

  function Header(list: bool, length: nat): seq<byte>
    requires length < MAX_LENGTH
  {
    if length < 56 then [(if list then 0xC0 else 0x80) + length]
    else
      BeLength8(length);
      [(if list then 0xF7 else 0xB7) + |Be(length)|] + Be(length)
  }

  lemma BeLength8(n: nat)
    requires n < MAX_LENGTH
    ensures |Be(n)| <= 8
  {
    assert Pow256(4) == 0x1_0000_0000;
    assert Pow256(8) == MAX_LENGTH;
    BeLength(n, 8);
  }

  function HeaderLength(length: nat): nat {
    if length < 56 then 1 else 1 + |Be(length)|
  }

  function EncodeString(s: seq<byte>): seq<byte>
    requires |s| < MAX_LENGTH
  {
    if |s| == 1 && s[0] < 0x80 then s else Header(false, |s|) + s
  }

  function StringLength(s: seq<byte>): nat {
    if |s| == 1 && s[0] < 0x80 then 1 else |s| + HeaderLength(|s|)
  }

  /** Unsigned integers of up to 32 bytes: zero is the empty string, small values stand for themselves. */
  function EncodeUint(n: nat): seq<byte>
    requires |Be(n)| <= 32
  {
    if n == 0 then [0x80] else if n < 0x80 then [n] else [0x80 + |Be(n)|] + Be(n)
  }

  function UintLength(n: nat): nat {
    if n < 0x80 then 1 else 1 + |Be(n)|
  }

  lemma UintIsString(n: nat)
    requires |Be(n)| <= 32
    ensures EncodeUint(n) == EncodeString(Be(n))
    ensures UintLength(n) == StringLength(Be(n)) == |EncodeUint(n)|
  {
    if 0 < n < 0x100 {
      assert Be(n / 256) == [];
      assert Be(n) == [n];
    } else if n > 0 {
      assert |Be(n / 256)| > 0;
      assert |Be(n)| > 1;
    }
  }

  // ----- items ------------------------------------------------------------------------------

  /** One string, or one list whose payload is left undecoded. */
  datatype Item = Item(list: bool, payload: seq<byte>)

  function EncodeItem(it: Item): (s: seq<byte>)
    requires |it.payload| < MAX_LENGTH
    ensures |s| > 0
  {
    if it.list then Header(true, |it.payload|) + it.payload else EncodeString(it.payload)
  }

  ghost predicate Encodable(items: seq<Item>) {
    forall i :: 0 <= i < |items| ==> |items[i].payload| < MAX_LENGTH
  }

  function EncodeItems(items: seq<Item>): seq<byte>
    requires Encodable(items)
  {
    if items == [] then [] else EncodeItem(items[0]) + EncodeItems(items[1..])
  }

  /** The first item of `s` and the number of bytes it takes. Only canonical forms are accepted. */
  function DecodeItem(s: seq<byte>): (r: Option<(Item, nat)>)
    ensures r.Some? ==> 0 < r.value.1 <= |s| && |r.value.0.payload| < MAX_LENGTH
  {
    if s == [] then None
    else if s[0] < 0x80 then Some((Item(false, s[..1]), 1))
    else
      var list := s[0] >= 0xC0;
      var tag := s[0] - (if list then 0xC0 else 0x80);
      if tag < 56 then
        if |s| < 1 + tag || (!list && tag == 1 && s[1] < 0x80) then None
        else Some((Item(list, s[1..1 + tag]), 1 + tag))
      else
        var width := tag - 55;
        if |s| < 1 + width || s[1] == 0 then None
        else
          var length := FromBe(s[1..1 + width]);
          LongLength(s[1..1 + width]);
          if length < 56 || |s| < 1 + width + length then None
          else Some((Item(list, s[1 + width..1 + width + length]), 1 + width + length))
  }

  lemma LongLength(s: seq<byte>)
    requires |s| <= 8
    ensures FromBe(s) < MAX_LENGTH
  {
    FromBeBound(s);
    PowMonotone(|s|, 8);
    assert Pow256(4) == 0x1_0000_0000;
    assert Pow256(8) == MAX_LENGTH;
  }

  lemma {:induction false} PowMonotone(j: nat, k: nat)
    requires j <= k
    ensures Pow256(j) <= Pow256(k)
    decreases k
  {
    if j < k { PowMonotone(j, k - 1); }
  }

  function DecodeItems(s: seq<byte>): Option<seq<Item>>
    decreases |s|
  {
    if s == [] then Some([])
    else match DecodeItem(s)
      case None => None
      case Some((item, used)) =>
        match DecodeItems(s[used..])
        case None => None
        case Some(items) => Some([item] + items)
  }

  lemma DecodeEncodeItem(it: Item, rest: seq<byte>)
    requires |it.payload| < MAX_LENGTH
    ensures DecodeItem(EncodeItem(it) + rest) == Some((it, |EncodeItem(it)|))
  {
    hide Be, FromBe;
    var p := it.payload;
    var s := EncodeItem(it) + rest;
    if !it.list && |p| == 1 && p[0] < 0x80 {
      assert s[..1] == p;
    } else if |p| < 56 {
      assert s[1..1 + |p|] == p;
    } else {
      var be := Be(|p|);
      BeLength8(|p|);
      FromBeOfBe(|p|);
      assert s[1..1 + |be|] == be;
      assert s[1 + |be|..1 + |be| + |p|] == p;
    }
  }

  lemma EncodeDecodeItem(s: seq<byte>)
    requires DecodeItem(s).Some?
    ensures var (it, used) := DecodeItem(s).value; EncodeItem(it) == s[..used]
  {
    hide Be, FromBe;
    var (it, used) := DecodeItem(s).value;
    if s[0] >= 0x80 {
      var tag := s[0] - (if s[0] >= 0xC0 then 0xC0 else 0x80);
      if tag >= 56 {
        var be := s[1..1 + (tag - 55)];
        BeOfFromBe(be);
        assert s[..used] == [s[0]] + be + it.payload;
      } else {
        assert s[..used] == [s[0]] + it.payload;
      }
    }
  }

  /** Decoding what was encoded gives it back and consumes everything. */
  lemma {:induction false} DecodeEncode(items: seq<Item>)
    requires Encodable(items)
    ensures DecodeItems(EncodeItems(items)) == Some(items)
  {
    hide EncodeItem, DecodeItem;
    if items != [] {
      var rest := EncodeItems(items[1..]);
      DecodeEncodeItem(items[0], rest);
      DecodeEncode(items[1..]);
      assert EncodeItems(items)[|EncodeItem(items[0])|..] == rest;
      assert items == [items[0]] + items[1..];
    }
  }

  /** Whatever decodes is the canonical encoding of what it decodes to. */
  lemma {:induction false} EncodeDecode(s: seq<byte>)
    requires DecodeItems(s).Some?
    ensures Encodable(DecodeItems(s).value) && EncodeItems(DecodeItems(s).value) == s
    decreases |s|
  {
    hide EncodeItem, DecodeItem;
    if s != [] {
      var (item, used) := DecodeItem(s).value;
      EncodeDecodeItem(s);
      EncodeDecode(s[used..]);
      var items := DecodeItems(s[used..]).value;
      assert DecodeItems(s).value[1..] == items;
      assert s == s[..used] + s[used..];
    }
  }
}
