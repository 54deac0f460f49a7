// Powers of two and finite sums, shared by the coding-theory modules.
module Arith {

  function Pow2(n: nat): (r: nat)
    ensures r > 0
  {
    if n == 0 then 1 else 2 * Pow2(n - 1)
  }

  lemma {:induction false} Pow2Add(a: nat, b: nat)
    ensures Pow2(a + b) == Pow2(a) * Pow2(b)
  {
    if a > 0 {
      Pow2Add(a - 1, b);
    }
  }

  lemma {:induction false} Pow2Mono(a: nat, b: nat)
    requires a <= b
    ensures Pow2(a) <= Pow2(b)
    ensures a < b ==> 2 * Pow2(a) <= Pow2(b)
  {
    if a < b {
      Pow2Mono(a, b - 1);
    }
  }

  function Quot(a: nat, d: nat): (q: nat)
    requires d > 0
    ensures q <= a
  {
    assert a == d * (a / d) + a % d;
    MulMono(1, d, a / d);
    a / d
  }

  lemma MulMono(a: int, b: int, c: int)
    requires a <= b && c >= 0
    ensures a * c <= b * c
  {
  }

  function Sum(s: seq<int>): int {
    if s == [] then 0 else s[0] + Sum(s[1..])
  }

  lemma {:induction false} SumUpdate(s: seq<int>, i: nat, v: int)
    requires i < |s|
    ensures Sum(s[i := v]) == Sum(s) - s[i] + v
  {
    if i == 0 {
      assert s[i := v][1..] == s[1..];
    } else {
      assert s[i := v][1..] == s[1..][i - 1 := v];
      SumUpdate(s[1..], i - 1, v);
    }
  }

  lemma {:induction false} SumConcat(a: seq<int>, b: seq<int>)
    ensures Sum(a + b) == Sum(a) + Sum(b)
  {
    if a == [] {
      assert a + b == b;
    } else {
      assert (a + b)[1..] == a[1..] + b;
      SumConcat(a[1..], b);
    }
  }

  // Pointwise order carries over to the sums.
  lemma {:induction false} SumMono(a: seq<int>, b: seq<int>)
    requires |a| == |b|
    requires forall i | 0 <= i < |a| :: a[i] <= b[i]
    ensures Sum(a) <= Sum(b)
  {
    if a != [] {
      SumMono(a[1..], b[1..]);
    }
  }

  lemma {:induction false} SumScale(a: seq<int>, b: seq<int>, c: int)
    requires |a| == |b|
    requires forall i | 0 <= i < |a| :: b[i] == c * a[i]
    ensures Sum(b) == c * Sum(a)
  {
    if a != [] {
      SumScale(a[1..], b[1..], c);
    }
  }

  lemma {:induction false} SumZero(a: seq<int>)
    requires forall i | 0 <= i < |a| :: a[i] == 0
    ensures Sum(a) == 0
  {
    if a != [] {
      SumZero(a[1..]);
    }
  }

  // One entry of a sequence of naturals is at most the sum.
  lemma SumAtLeast(a: seq<int>, i: nat)
    requires i < |a|
    requires forall k | 0 <= k < |a| :: a[k] >= 0
    ensures a[i] <= Sum(a)
  {
    SumUpdate(a, i, 0);
    var rest := a[i := 0];
    SumScale(rest, seq(|a|, _ => 0), 0);
    SumMono(seq(|a|, _ => 0), rest);
  }

  // Two distinct entries of a sequence of naturals together are at most the sum.
  lemma SumAtLeastTwo(a: seq<int>, i: nat, j: nat)
    requires i < |a| && j < |a| && i != j
    requires forall k | 0 <= k < |a| :: a[k] >= 0
    ensures a[i] + a[j] <= Sum(a)
  {
    SumUpdate(a, i, 0);
    SumAtLeast(a[i := 0], j);
  }

  lemma Assoc<T>(a: seq<T>, b: seq<T>, c: seq<T>)
    ensures a + (b + c) == (a + b) + c
  {
  }

  // The entries of s at the positions listed in ch, in that order.
  function Pick(s: seq<int>, ch: seq<nat>): (r: seq<int>)
    requires forall k | 0 <= k < |ch| :: ch[k] < |s|
    ensures |r| == |ch|
    ensures forall k | 0 <= k < |ch| :: r[k] == s[ch[k]]
  {
    seq(|ch|, k requires 0 <= k < |ch| => s[ch[k]])
  }

  ghost predicate Distinct<T>(s: seq<T>) {
    forall i, j | 0 <= i < j < |s| :: s[i] != s[j]
  }

  // If every position outside ch holds zero, summing along ch sums everything.
  lemma {:induction false} SumPick(s: seq<int>, ch: seq<nat>)
    requires forall k | 0 <= k < |ch| :: ch[k] < |s|
    requires Distinct(ch)
    requires forall i: nat | i < |s| && i !in ch :: s[i] == 0
    ensures Sum(Pick(s, ch)) == Sum(s)
    decreases |ch|
  {
    if ch == [] {
      SumZero(s);
    } else {
      var c := ch[0];
      var s' := s[c := 0];
      SumUpdate(s, c, 0);
      assert forall i: nat | i < |s'| && i !in ch[1..] :: s'[i] == 0 by {
        forall i: nat | i < |s'| && i !in ch[1..]
          ensures s'[i] == 0
        {
          assert i != c ==> i !in [c] + ch[1..];
          assert ch == [c] + ch[1..];
        }
      }
      assert Distinct(ch[1..]);
      SumPick(s', ch[1..]);
      assert Pick(s', ch[1..]) == Pick(s, ch)[1..] by {
        forall k | 0 <= k < |ch| - 1
          ensures s'[ch[1..][k]] == s[ch[k + 1]]
        {
          assert ch[0] != ch[k + 1];
        }
      }
    }
  }
}
