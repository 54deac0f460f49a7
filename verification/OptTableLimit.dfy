// Why jpeg_gen_optimal_table is not for more than 254 symbols: bits[] has 8 bits
// to an entry, and 256 words can have the same length.
module OptTableLimit {
  import opened Arith
  import opened PrefixCodes
  import opened OptTable
  import CL = CodeLengths

  // 255 symbols, all equally frequent, and the pseudo-symbol.
  function EqualCounts(): (w: seq<nat>)
    ensures |w| == 257 && forall i | 0 <= i < 257 :: w[i] == if i == 255 then 0 else 1
  {
    seq(257, i => if i == 255 then 0 else 1)
  }

  function Eights(): (r: seq<nat>)
    ensures |r| == 257 && forall i | 0 <= i < 257 :: r[i] == 8 * EqualCounts()[i]
  {
    seq(257, i requires 0 <= i < 257 => 8 * EqualCounts()[i])
  }

  lemma {:induction false} SumOfOnes(s: seq<int>)
    requires forall i | 0 <= i < |s| :: s[i] == 1
    ensures Sum(s) == |s|
  {
    if s != [] {
      SumOfOnes(s[1..]);
    }
  }

  lemma EqualSum()
    ensures Sum(EqualCounts()) == 256
  {
    var w: seq<int> := EqualCounts();
    SumUpdate(w, 255, 1);
    SumOfOnes(w[255 := 1]);
  }

  // Of two sequences with the same sum neither is the smaller one anywhere, if
  // one of them is nowhere the greater.
  lemma {:induction false} EqualSums(a: seq<int>, b: seq<int>, i: nat)
    requires |a| == |b| && i < |a| && Sum(a) >= Sum(b)
    requires forall k | 0 <= k < |a| :: a[k] <= b[k]
    ensures a[i] == b[i]
  {
    SumUpdate(a, i, b[i]);
    SumMono(a[i := b[i]], b);
  }

  // 2^(8-l) lies above its tangent, and touches it at 7 and 8 only.
  lemma {:induction false} Tangent(m: nat, l: nat)
    requires 8 <= m && l <= m
    ensures Pow2(m - l) >= (9 - l) * Pow2(m - 8)
    ensures Pow2(m - l) == (9 - l) * Pow2(m - 8) ==> l == 7 || l == 8
    decreases if l < 7 then 7 - l else 0
  {
    var p := Pow2(m - 8);
    if l < 7 {
      Tangent(m, l + 1);
      assert Pow2(m - l) == 2 * Pow2(m - (l + 1));
      assert (9 - l) * p == (9 - (l + 1)) * p + p;
      MulMono(2, 9 - (l + 1), p);
    } else if l == 7 {
      assert Pow2(m - 7) == 2 * p;
    } else if l > 8 {
      MulMono(9 - l, 0, p);
    }
  }

  // What the tangents give for the Kraft sum.
  function Lines(size: seq<nat>, p: nat): (r: seq<int>)
    requires |size| == 257
    ensures |r| == 257 && forall i | 0 <= i < 257 :: r[i] == if i == 255 then 0 else (9 - size[i]) * p
  {
    seq(257, i requires 0 <= i < 257 => if i == 255 then 0 else Times(9 - (size[i] as int), p))
  }

  function Times(a: int, b: int): int {
    a * b
  }

  // The codes for such counts: all words have 8 bits.
  lemma AllEights(size: seq<nat>, m: nat)
    requires Codeable(EqualCounts(), size, m) && Optimal(EqualCounts(), size) && m >= 8
    ensures forall i | 0 <= i < 257 && i != 255 :: size[i] == 8
  {
    hide Pow2, Sum;
    var w, p := EqualCounts(), Pow2(m - 8);
    EqualSum();
    EightsCost(size);
    var terms := KraftTerms(w, size, m);
    var line := Lines(size, p);
    LineSum(size, p);
    Pow2Add(8, m - 8);
    assert Pow2(8) == 256 by {
      EightPow();
    }
    MulMono(256, 2304 - Cost(w, size), p);
    forall i | 0 <= i < 257
      ensures line[i] <= terms[i]
    {
      if i != 255 {
        Tangent(m, size[i]);
      }
    }
    var ones: seq<int> := seq(257, i requires 0 <= i < 257 => w[i] * p);
    SumScale(w, ones, p);
    forall i | 0 <= i < 257 && i != 255
      ensures (size[i] == 7 || size[i] == 8) && p <= terms[i]
    {
      EqualSums(line, terms, i);
      Tangent(m, size[i]);
      Pow2Mono(m - 8, m - size[i]);
    }
    Pow2Mono(m - 8, m - 7);
    forall i | 0 <= i < 257 && i != 255
      ensures size[i] == 8
    {
      EqualSums(ones, terms, i);
    }
  }

  lemma EightPow()
    ensures Pow2(8) == 256
  {
  }

  // An optimal code does not cost more than one of 8-bit words.
  lemma EightsCost(size: seq<nat>)
    requires Optimal(EqualCounts(), size)
    ensures Cost(EqualCounts(), size) <= 2048
  {
    hide Pow2, Sum;
    var w: seq<nat> := EqualCounts();
    EqualSum();
    var one: seq<int> := KraftTerms(w, Eights(), 8);
    assert Pow2(0) == 1 by {
      ZeroPow();
    }
    SumScale(w, one, 1);
    EightPow();
    assert Codeable(w, Eights(), 8);
    SumScale(w, CostTerms(w, Eights()), 8);
  }

  lemma Swapped(a: int, b: int)
    ensures a * b == b * a
  {
  }

  lemma ZeroPow()
    ensures Pow2(0) == 1
  {
  }

  lemma LineSum(size: seq<nat>, p: nat)
    requires |size| == 257
    ensures Sum(Lines(size, p)) == (2304 - Cost(EqualCounts(), size)) * p
  {
    hide Sum;
    var w: seq<int> := EqualCounts();
    EqualSum();
    var cost := CostTerms(EqualCounts(), size);
    var nine: seq<int> := seq(257, i requires 0 <= i < 257 => 9 * w[i]);
    var minus: seq<int> := seq(257, i requires 0 <= i < 257 => (0 - 1) * cost[i]);
    var both: seq<int> := seq(257, i requires 0 <= i < 257 => nine[i] + minus[i]);
    SumScale(w, nine, 9);
    SumScale(cost, minus, -1);
    SumTwo(nine, minus, both);
    forall i | 0 <= i < 257
      ensures Lines(size, p)[i] == p * both[i]
    {
      if i != 255 {
        assert both[i] == 9 - size[i] as int;
      }
    }
    SumScale(both, Lines(size, p), p);
    Swapped(p, 2304 - Sum(cost));
  }

  // The lengths jpeg_gen_optimal_table finds for these counts are all 8, and the
  // count of them does not fit in bits[8]: what is left of it is 0.
  lemma TooManySymbols(size: seq<nat>)
    requires HuffmanLengths(EqualCounts(), size) && CL.Short(size)
    ensures CL.Support(EqualCounts(), 256) == 255
    ensures CL.Hist(size, 257)[8] == 256
    ensures forall l | 0 <= l <= CL.MAX_CLEN :: CL.Hist(size, 257)[l] % 256 == 0
  {
    hide CL.Hist, CL.Support, Kraft, Optimal;
    var w := EqualCounts();
    assert Fits(w, size, CL.MAX_CLEN);
    AllEights(size, CL.MAX_CLEN);
    OneLength(size, 257);
    SupportAll(256);
  }

  lemma {:induction false} OneLength(size: seq<nat>, n: nat)
    requires |size| == 257 && n <= 257 && CL.Short(size)
    requires forall i | 0 <= i < 257 :: size[i] == if i == 255 then 0 else 8
    ensures forall l | 0 <= l <= CL.MAX_CLEN ::
      CL.Hist(size, n)[l] == if l != 8 then 0 else if n <= 255 then n else n - 1
  {
    if n > 0 {
      OneLength(size, n - 1);
    }
  }

  lemma {:induction false} SupportAll(n: nat)
    requires n <= 256
    ensures CL.Support(EqualCounts(), n) == if n <= 255 then n else 255
  {
    if n > 0 {
      SupportAll(n - 1);
    }
  }
}
