/** Big-endian numbers: minimal, as RLP writes them, and of a fixed width, as words and keys hold them. */
module BigEndian {
  import opened Arithmetic
  import opened Numbers
  import opened Bytes

  // ----- minimal big-endian numbers ---------------------------------------------------------

  /** Big-endian without leading zeros; zero is the empty string. */
  function Be(n: nat): (s: seq<byte>)
    ensures s == [] <==> n == 0
    ensures s != [] ==> s[0] != 0
  {
    if n == 0 then [] else Be(n / 256) + [n % 256]
  }

  function FromBe(s: seq<byte>): nat {
    if s == [] then 0 else 256 * FromBe(s[..|s| - 1]) + s[|s| - 1]
  }

  predicate Minimal(s: seq<byte>) {
    s == [] || s[0] != 0
  }

  lemma {:induction false} FromBeOfBe(n: nat)
    ensures FromBe(Be(n)) == n
  {
    if n > 0 {
      FromBeOfBe(n / 256);
      assert Be(n)[..|Be(n)| - 1] == Be(n / 256);
    }
  }

  lemma {:induction false} BeOfFromBe(s: seq<byte>)
    requires Minimal(s)
    ensures Be(FromBe(s)) == s
  {
    if s != [] {
      var init, last := s[..|s| - 1], s[|s| - 1];
      BeOfFromBe(init);
      assert s == init + [last];
      var n := FromBe(init);
      assert FromBe(s) == 256 * n + last;
      assert (256 * n + last) / 256 == n && (256 * n + last) % 256 == last;
      assert 256 * n + last > 0;
    }
  }

  lemma {:induction false} FromBeBound(s: seq<byte>)
    ensures FromBe(s) < Pow256(|s|)
  {
    if s != [] { FromBeBound(s[..|s| - 1]); }
  }

  lemma {:induction false} BeLength(n: nat, k: nat)
    requires n < Pow256(k)
    ensures |Be(n)| <= k
    decreases k
  {
    if n > 0 { BeLength(n / 256, k - 1); }
  }

  // ----- numbers of a fixed width -----------------------------------------------------------

  /** The low `k` bytes of `n`, most significant first. */
  function BeFixed(k: nat, n: nat): (s: seq<byte>)
    ensures |s| == k
  {
    if k == 0 then [] else BeFixed(k - 1, n / 256) + [n % 256]
  }

  function Fill(b: byte, n: nat): (s: seq<byte>)
    ensures |s| == n && forall i :: 0 <= i < n ==> s[i] == b
  {
    if n == 0 then [] else Fill(b, n - 1) + [b]
  }

  lemma {:induction false} BeFixedValue(k: nat, n: nat)
    ensures FromBe(BeFixed(k, n)) == n % Pow256(k)
    decreases k
  {
    if k > 0 {
      BeFixedValue(k - 1, n / 256);
      assert BeFixed(k, n)[..k - 1] == BeFixed(k - 1, n / 256);
      SplitMod(n, Pow256(k - 1));
    }
  }

  lemma {:induction false} BeFixedTail(k: nat, n: nat, t: nat)
    requires t <= k
    ensures BeFixed(k, n)[k - t..] == BeFixed(t, n)
    decreases k
  {
    if t == 0 {
      assert BeFixed(k, n)[k..] == [];
    } else {
      BeFixedTail(k - 1, n / 256, t - 1);
      assert BeFixed(k, n)[k - t..] == BeFixed(k - 1, n / 256)[k - t..] + [n % 256];
    }
  }

  lemma {:induction false} FromBeConcat(a: seq<byte>, b: seq<byte>)
    ensures FromBe(a + b) == FromBe(a) * Pow256(|b|) + FromBe(b)
    decreases |b|
  {
    if b == [] {
      assert a + b == a;
    } else {
      var init := b[..|b| - 1];
      FromBeConcat(a, init);
      assert (a + b)[..|a + b| - 1] == a + init;
      assert 256 * (FromBe(a) * Pow256(|init|)) == FromBe(a) * (256 * Pow256(|init|));
    }
  }

  lemma {:induction false} FillValue(n: nat)
    ensures FromBe(Fill(0, n)) == 0
    ensures FromBe(Fill(255, n)) == Pow256(n) - 1
  {
    if n > 0 {
      FillValue(n - 1);
      assert Fill(0, n)[..n - 1] == Fill(0, n - 1) && Fill(255, n)[..n - 1] == Fill(255, n - 1);
    }
  }

  lemma {:induction false} PowAdd(a: nat, b: nat)
    ensures Pow256(a + b) == Pow256(a) * Pow256(b)
    decreases a
  {
    if a > 0 {
      PowAdd(a - 1, b);
      assert 256 * (Pow256(a - 1) * Pow256(b)) == (256 * Pow256(a - 1)) * Pow256(b);
    }
  }

  lemma PowWord()
    ensures Pow256(32) == U256_LIMIT && Pow256(8) == 0x1_0000_0000_0000_0000
  {
    assert Pow256(4) == 0x1_0000_0000;
    PowAdd(4, 4);
    PowAdd(8, 8);
    PowAdd(16, 16);
  }

  lemma {:induction false} SameValueSameBytes(a: seq<byte>, b: seq<byte>)
    requires |a| == |b| && FromBe(a) == FromBe(b)
    ensures a == b
  {
    if a != [] {
      SameValueSameBytes(a[..|a| - 1], b[..|b| - 1]);
      assert a == a[..|a| - 1] + [a[|a| - 1]] && b == b[..|b| - 1] + [b[|b| - 1]];
    }
  }
}
