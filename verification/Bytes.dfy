/** Bytes, and the little-endian and bit-stream readings of them that the journal relies on. */
module Bytes {
  type byte = b: int | 0 <= b < 256

  /** `n` as `k` little-endian bytes; the part of `n` above `256^k` is dropped. */
  function Le(k: nat, n: nat): (s: seq<byte>)
    ensures |s| == k
  {
    if k == 0 then [] else [n % 256] + Le(k - 1, n / 256)
  }

  function FromLe(s: seq<byte>): nat {
    if s == [] then 0 else s[0] + 256 * FromLe(s[1..])
  }

  function Pow256(k: nat): (p: nat)
    ensures p > 0
  {
    if k == 0 then 1 else 256 * Pow256(k - 1)
  }

  lemma {:induction false} LeRoundTrip(k: nat, n: nat)
    requires n < Pow256(k)
    ensures FromLe(Le(k, n)) == n
  {
    if k > 0 {
      LeRoundTrip(k - 1, n / 256);
      assert Le(k, n)[1..] == Le(k - 1, n / 256);
    }
  }

  lemma {:induction false} FromLeRoundTrip(s: seq<byte>)
    ensures FromLe(s) < Pow256(|s|)
    ensures Le(|s|, FromLe(s)) == s
  {
    if s != [] {
      FromLeRoundTrip(s[1..]);
      assert s == [s[0]] + s[1..];
    }
  }

  function Pow2(k: nat): (p: nat)
    ensures p > 0
  {
    if k == 0 then 1 else 2 * Pow2(k - 1)
  }

  /** The low `k` bits of `n`, least significant first. */
  function Bits(k: nat, n: nat): (s: seq<bool>)
    ensures |s| == k
  {
    if k == 0 then [] else [n % 2 == 1] + Bits(k - 1, n / 2)
  }

  function FromBits(s: seq<bool>): nat {
    if s == [] then 0 else (if s[0] then 1 else 0) + 2 * FromBits(s[1..])
  }

  lemma {:induction false} BitsRoundTrip(k: nat, n: nat)
    requires n < Pow2(k)
    ensures FromBits(Bits(k, n)) == n
  {
    if k > 0 {
      BitsRoundTrip(k - 1, n / 2);
      assert Bits(k, n)[1..] == Bits(k - 1, n / 2);
    }
  }

  lemma {:induction false} FromBitsInjective(a: seq<bool>, b: seq<bool>)
    requires |a| == |b| && FromBits(a) == FromBits(b)
    ensures a == b
  {
    if a != [] {
      FromBitsInjective(a[1..], b[1..]);
      assert a == [a[0]] + a[1..] && b == [b[0]] + b[1..];
    }
  }

  lemma {:induction false} FromBitsBound(s: seq<bool>)
    ensures FromBits(s) < Pow2(|s|)
  {
    if s != [] { FromBitsBound(s[1..]); }
  }

  lemma Doubling(p: nat, f: nat)
    ensures 2 * (p * f) == (2 * p) * f
  {
  }

  lemma {:induction false} FromBitsConcat(a: seq<bool>, b: seq<bool>)
    ensures FromBits(a + b) == FromBits(a) + Pow2(|a|) * FromBits(b)
  {
    if a == [] {
      assert a + b == b;
    } else {
      FromBitsConcat(a[1..], b);
      assert (a + b)[1..] == a[1..] + b;
      Doubling(Pow2(|a| - 1), FromBits(b));
    }
  }

  /** The bit stream of a byte string: bytes in order, each least significant bit first. */
  function ByteBits(s: seq<byte>): (r: seq<bool>)
    ensures |r| == 8 * |s|
  {
    if s == [] then [] else Bits(8, s[0]) + ByteBits(s[1..])
  }

  lemma {:induction false} ByteBitsConcat(a: seq<byte>, b: seq<byte>)
    ensures ByteBits(a + b) == ByteBits(a) + ByteBits(b)
  {
    hide Bits;
    if a == [] {
      assert a + b == b;
    } else {
      ByteBitsConcat(a[1..], b);
      assert (a + b)[1..] == a[1..] + b;
      assert Bits(8, a[0]) + (ByteBits(a[1..]) + ByteBits(b)) == (Bits(8, a[0]) + ByteBits(a[1..])) + ByteBits(b);
    }
  }

  /** The bit stream and the bytes denote the same little-endian number. */
  lemma {:induction false} ByteBitsValue(s: seq<byte>)
    ensures FromBits(ByteBits(s)) == FromLe(s)
  {
    if s != [] {
      ByteBitsValue(s[1..]);
      assert Pow2(8) == 256;
      BitsRoundTrip(8, s[0]);
      FromBitsConcat(Bits(8, s[0]), ByteBits(s[1..]));
    }
  }

  lemma ByteBitsInjective(a: seq<byte>, b: seq<byte>)
    requires |a| == |b| && ByteBits(a) == ByteBits(b)
    ensures a == b
  {
    ByteBitsValue(a);
    ByteBitsValue(b);
    FromLeRoundTrip(a);
    FromLeRoundTrip(b);
  }
}
