// Bit strings, most significant bit first, and the numbers they denote.
module Bits {
  import opened Arith

  type Bits = seq<bool>

  function Bit(b: bool): nat {
    if b then 1 else 0
  }

  // The number a bit string denotes.
  function Val(s: Bits): nat {
    if s == [] then 0 else 2 * Val(s[..|s| - 1]) + Bit(s[|s| - 1])
  }

  // The n low-order bits of v.
  function ToBits(v: nat, n: nat): (r: Bits)
    ensures |r| == n
    decreases n
  {
    if n == 0 then [] else ToBits(v / 2, n - 1) + [v % 2 == 1]
  }

  lemma {:induction false} ValBound(s: Bits)
    ensures Val(s) < Pow2(|s|)
    decreases |s|
  {
    if s != [] {
      ValBound(s[..|s| - 1]);
    }
  }

  lemma {:induction false} ValConcat(a: Bits, b: Bits)
    ensures Val(a + b) == Val(a) * Pow2(|b|) + Val(b)
    decreases |b|
  {
    if b == [] {
      assert a + b == a;
    } else {
      var c := b[..|b| - 1];
      assert (a + b)[..|a + b| - 1] == a + c;
      ValConcat(a, c);
    }
  }

  lemma {:induction false} ToBitsVal(s: Bits)
    ensures ToBits(Val(s), |s|) == s
    decreases |s|
  {
    if s != [] {
      ToBitsVal(s[..|s| - 1]);
    }
  }

  lemma {:induction false} ValToBits(v: nat, n: nat)
    requires v < Pow2(n)
    ensures Val(ToBits(v, n)) == v
    decreases n
  {
    if n > 0 {
      ValToBits(v / 2, n - 1);
    }
  }

  lemma ValUnique(a: Bits, b: Bits)
    requires |a| == |b| && Val(a) == Val(b)
    ensures a == b
  {
    ToBitsVal(a);
    ToBitsVal(b);
  }

  function Zeros(n: nat): (r: Bits)
    ensures |r| == n
    ensures forall i | 0 <= i < n :: !r[i]
  {
    seq(n, _ => false)
  }

  // The first n bits of s, with zero bits supplied after its end.
  function Ahead(s: Bits, n: nat): (r: Bits)
    ensures |r| == n
    ensures forall i | 0 <= i < n :: r[i] == (i < |s| && s[i])
  {
    if n <= |s| then s[..n] else s + Zeros(n - |s|)
  }

  // What is left of s after its first n bits.
  function Behind(s: Bits, n: nat): (r: Bits)
    ensures |r| == if n <= |s| then |s| - n else 0
  {
    if n <= |s| then s[n..] else []
  }

  lemma AheadConcat(a: Bits, s: Bits)
    ensures Ahead(a + s, |a|) == a && Behind(a + s, |a|) == s
  {
  }

  lemma AheadTwice(s: Bits, m: nat, n: nat)
    ensures Ahead(s, m + n) == Ahead(s, m) + Ahead(Behind(s, m), n)
    ensures Behind(Behind(s, m), n) == Behind(s, m + n)
  {
  }

  // One more bit doubles the number read so far.
  lemma ValNext(s: Bits, n: nat)
    ensures Val(Ahead(s, n + 1)) == 2 * Val(Ahead(s, n)) + Bit(n < |s| && s[n])
  {
    assert Ahead(s, n + 1)[..n] == Ahead(s, n);
  }

  lemma {:induction false} DivPow2(v: nat, n: nat)
    ensures v / 2 / Pow2(n) == v / Pow2(n + 1)
  {
    var p := Pow2(n);
    var q, r := v / 2 / p, v / 2 % p;
    assert v / 2 == q * p + r && v == 2 * (v / 2) + v % 2;
    DoubleFactor(q, p);
    DivUnique(v, 2 * p, q, 2 * r + v % 2);
  }

  lemma DoubleFactor(q: nat, p: nat)
    ensures q * (2 * p) == 2 * (q * p)
  {
  }

  lemma DivUnique(v: nat, d: nat, q: nat, r: nat)
    requires d > 0 && v == q * d + r && r < d
    ensures v / d == q && v % d == r
  {
    var q', r' := v / d, v % d;
    assert v == q' * d + r';
    if q' < q {
      MulMono(q' + 1, q, d);
    } else if q < q' {
      MulMono(q + 1, q', d);
    }
  }

  // The leading k of n bits.
  lemma {:induction false} ToBitsTop(v: nat, n: nat, k: nat)
    requires k <= n
    ensures ToBits(v, n)[..k] == ToBits(v / Pow2(n - k), k)
    decreases n
  {
    if k < n {
      ToBitsTop(v / 2, n - 1, k);
      DivPow2(v, n - 1 - k);
      assert ToBits(v, n)[..k] == ToBits(v / 2, n - 1)[..k];
    }
  }
}
