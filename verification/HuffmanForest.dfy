// The forest that jpeg_gen_optimal_table (jchuff.c) grows: the counts freq[],
// the code lengths codesize[] and the symbol chains threaded through others[].
// Each invariant of the merge loop is a predicate here with one lemma saying
// that it holds at the start and one saying that a merge keeps it.
module HuffmanForest {
  import opened Arith
  import opened PrefixCodes

  // chain[c] lists the symbols of the branch whose count is held at freq[c], in
  // the order of the others[] links; owner[i] is that c for each used symbol i.
  datatype Forest = Forest(freq: seq<nat>, size: seq<nat>, chain: seq<seq<nat>>, owner: seq<nat>)

  // The code lengths after one more bit for every symbol of ch.
  ghost function Bump(size: seq<nat>, ch: seq<nat>): (r: seq<nat>)
    requires forall k | 0 <= k < |ch| :: ch[k] < |size|
    ensures |r| == |size|
    decreases |ch|
  {
    if ch == [] then size else
      var last := |ch| - 1;
      var r := Bump(size, ch[..last]);
      r[ch[last] := r[ch[last]] + 1]
  }

  lemma {:induction false} BumpAt(size: seq<nat>, ch: seq<nat>)
    requires forall k | 0 <= k < |ch| :: ch[k] < |size|
    requires Distinct(ch)
    ensures forall i: nat | i < |size| :: Bump(size, ch)[i] == size[i] + if i in ch then 1 else 0
    decreases |ch|
  {
    if ch != [] {
      BumpAt(size, ch[..|ch| - 1]);
      assert ch == ch[..|ch| - 1] + [ch[|ch| - 1]];
    }
  }

  lemma {:induction false} BumpCost(orig: seq<nat>, size: seq<nat>, ch: seq<nat>)
    requires |orig| == |size| && forall k | 0 <= k < |ch| :: ch[k] < |size|
    requires Distinct(ch)
    ensures Cost(orig, Bump(size, ch)) == Cost(orig, size) + Sum(Pick(orig, ch))
    decreases |ch|
  {
    if ch != [] {
      var init, last := ch[..|ch| - 1], ch[|ch| - 1];
      BumpCost(orig, size, init);
      var r := Bump(size, init);
      CostUpdate(orig, r, last, r[last] + 1);
      assert Pick(orig, ch) == Pick(orig, init) + [orig[last]];
      SumConcat(Pick(orig, init), [orig[last]]);
      assert orig[last] * (r[last] + 1) == orig[last] * r[last] + orig[last];
    }
  }

  // ----- the start and the step -----

  function Start(orig: seq<nat>): (f: Forest) {
    Forest(orig, seq(|orig|, _ => 0),
           seq(|orig|, i requires 0 <= i < |orig| => if orig[i] == 0 then [] else [i]),
           seq(|orig|, i => i))
  }

  // Branch c: its chain starts at c and visits each symbol it owns exactly once.
  ghost predicate Chain(orig: seq<nat>, f: Forest, c: nat)
    requires |f.freq| == |f.chain| == |f.owner| == |orig| && c < |orig|
  {
    && Distinct(f.chain[c])
    && (if f.freq[c] == 0 then f.chain[c] == [] else f.chain[c] != [] && f.chain[c][0] == c)
    && forall i: nat :: i in f.chain[c] <==> i < |orig| && orig[i] != 0 && f.owner[i] == c
  }

  ghost predicate Shape(orig: seq<nat>, f: Forest) {
    && |f.freq| == |f.size| == |f.chain| == |f.owner| == |orig|
    && (forall i | 0 <= i < |orig| :: f.owner[i] < |orig|)
    && forall c: nat | c < |orig| :: Chain(orig, f, c)
  }

  lemma ChainInRange(orig: seq<nat>, f: Forest, c: nat)
    requires Shape(orig, f) && c < |orig|
    ensures forall k | 0 <= k < |f.chain[c]| :: f.chain[c][k] < |orig|
  {
    assert Chain(orig, f, c);
    assert forall k | 0 <= k < |f.chain[c]| :: f.chain[c][k] in f.chain[c];
  }

  ghost function Merge(orig: seq<nat>, f: Forest, a: nat, b: nat): (r: Forest)
    requires Shape(orig, f) && a < |orig| && b < |orig|
  {
    ChainInRange(orig, f, a);
    ChainInRange(orig, f, b);
    Forest(Merged(f.freq, a, b),
           Bump(Bump(f.size, f.chain[a]), f.chain[b]),
           f.chain[a := f.chain[a] + f.chain[b]][b := []],
           seq(|orig|, i requires 0 <= i < |orig| => if f.owner[i] == b then a else f.owner[i]))
  }

  lemma ShapeStart(orig: seq<nat>)
    ensures Shape(orig, Start(orig))
  {
  }

  lemma DistinctConcat(ca: seq<nat>, cb: seq<nat>)
    requires Distinct(ca) && Distinct(cb) && forall i: nat :: !(i in ca && i in cb)
    ensures Distinct(ca + cb)
  {
    forall i, j | 0 <= i < |ca| && 0 <= j < |cb|
      ensures ca[i] != cb[j]
    {
      assert ca[i] in ca && cb[j] in cb;
    }
  }

  lemma ShapeMerge(orig: seq<nat>, f: Forest, a: nat, b: nat)
    requires Shape(orig, f) && TwoLeast(f.freq, a, b)
    ensures Shape(orig, Merge(orig, f, a, b))
  {
    var g := Merge(orig, f, a, b);
    assert Chain(orig, f, a) && Chain(orig, f, b);
    DistinctConcat(f.chain[a], f.chain[b]);
    forall c: nat | c < |orig|
      ensures Chain(orig, g, c)
    {
      assert Chain(orig, f, c);
    }
  }

  // A merge lengthens the words of exactly the symbols of the two branches.
  lemma MergeSizes(orig: seq<nat>, f: Forest, a: nat, b: nat)
    requires Shape(orig, f) && TwoLeast(f.freq, a, b)
    ensures forall i: nat | i < |orig| ::
      Merge(orig, f, a, b).size[i] == f.size[i] + if orig[i] != 0 && (f.owner[i] == a || f.owner[i] == b) then 1 else 0
  {
    assert Chain(orig, f, a) && Chain(orig, f, b);
    ChainInRange(orig, f, a);
    ChainInRange(orig, f, b);
    BumpAt(f.size, f.chain[a]);
    BumpAt(Bump(f.size, f.chain[a]), f.chain[b]);
  }

  // ----- counts, cost and optimality -----

  // Each branch holds the count of all its symbols; the cost so far is k, and
  // no code for the original counts can save on k.
  ghost predicate Weighed(orig: seq<nat>, f: Forest, k: int)
    requires Shape(orig, f)
  {
    && (forall c: nat | c < |orig| :: (ChainInRange(orig, f, c); f.freq[c] == Sum(Pick(orig, f.chain[c]))))
    && Sum(f.freq) == Sum(orig)
    && Cost(orig, f.size) == k
    && OptimalSoFar(orig, f.freq, k)
  }

  lemma WeighedStart(orig: seq<nat>)
    ensures Shape(orig, Start(orig)) && Weighed(orig, Start(orig), 0)
  {
    ShapeStart(orig);
    var f := Start(orig);
    SumZero(CostTerms(orig, f.size));
    OptimalStart(orig);
    forall c | 0 <= c < |orig|
      ensures f.freq[c] == Sum(Pick(orig, f.chain[c]))
    {
      assert Pick(orig, f.chain[c]) == if orig[c] == 0 then [] else [orig[c]];
    }
  }

  // A merge costs one bit for every occurrence of every symbol of the two branches.
  lemma MergeCosts(orig: seq<nat>, f: Forest, a: nat, b: nat)
    requires Shape(orig, f) && a < |orig| && b < |orig|
    requires forall c: nat | c < |orig| :: (ChainInRange(orig, f, c); f.freq[c] == Sum(Pick(orig, f.chain[c])))
    ensures Cost(orig, Merge(orig, f, a, b).size) == Cost(orig, f.size) + f.freq[a] + f.freq[b]
  {
    assert Chain(orig, f, a) && Chain(orig, f, b);
    ChainInRange(orig, f, a);
    ChainInRange(orig, f, b);
    BumpCost(orig, f.size, f.chain[a]);
    BumpCost(orig, Bump(f.size, f.chain[a]), f.chain[b]);
  }

  lemma WeighedMerge(orig: seq<nat>, f: Forest, k: int, a: nat, b: nat)
    requires Shape(orig, f) && TwoLeast(f.freq, a, b) && Weighed(orig, f, k)
    ensures Shape(orig, Merge(orig, f, a, b))
    ensures Weighed(orig, Merge(orig, f, a, b), k + f.freq[a] + f.freq[b])
  {
    ShapeMerge(orig, f, a, b);
    MergeCosts(orig, f, a, b);
    OptimalMerge(orig, f.freq, k, a, b);
    MergedSum(f.freq, a, b);
    ChainInRange(orig, f, a);
    ChainInRange(orig, f, b);
    var ca, cb := f.chain[a], f.chain[b];
    assert Pick(orig, ca + cb) == Pick(orig, ca) + Pick(orig, cb);
    SumConcat(Pick(orig, ca), Pick(orig, cb));
  }

  // ----- the Kraft sum of each branch is 1 -----

  ghost predicate ChainFits(size: seq<nat>, ch: seq<nat>, m: nat) {
    forall i | i in ch :: i < |size| && size[i] <= m
  }

  ghost function ChainTerms(size: seq<nat>, ch: seq<nat>, m: nat): (r: seq<int>)
    requires ChainFits(size, ch, m)
    ensures |r| == |ch|
    ensures forall k | 0 <= k < |ch| :: ch[k] in ch && r[k] == Pow2(m - size[ch[k]])
  {
    seq(|ch|, k requires 0 <= k < |ch| => assert ch[k] in ch; Pow2(m - size[ch[k]]))
  }

  ghost predicate Complete(size: seq<nat>, ch: seq<nat>) {
    forall m: nat {:trigger ChainFits(size, ch, m)} | ChainFits(size, ch, m) :: Sum(ChainTerms(size, ch, m)) == Pow2(m)
  }

  ghost predicate AllComplete(orig: seq<nat>, f: Forest)
    requires Shape(orig, f)
  {
    forall c | 0 <= c < |orig| && f.freq[c] != 0 :: Complete(f.size, f.chain[c])
  }

  lemma AllCompleteStart(orig: seq<nat>)
    ensures Shape(orig, Start(orig)) && AllComplete(orig, Start(orig))
  {
    ShapeStart(orig);
    var f := Start(orig);
    forall c, m: nat | 0 <= c < |orig| && f.freq[c] != 0 && ChainFits(f.size, f.chain[c], m)
      ensures Sum(ChainTerms(f.size, f.chain[c], m)) == Pow2(m)
    {
      assert ChainTerms(f.size, f.chain[c], m) == [Pow2(m)];
    }
  }

  // Two chains one bit deeper: each term of m stays what it was for m - 1.
  lemma TermsJoin(size: seq<nat>, size': seq<nat>, ca: seq<nat>, cb: seq<nat>, m: nat)
    requires m > 0 && ChainFits(size, ca, m - 1) && ChainFits(size, cb, m - 1) && ChainFits(size', ca + cb, m)
    requires |size| == |size'| && forall i | i in ca + cb :: size'[i] == size[i] + 1
    ensures ChainTerms(size', ca + cb, m) == ChainTerms(size, ca, m - 1) + ChainTerms(size, cb, m - 1)
  {
  }

  // Two complete branches, one bit deeper, make one complete branch.
  lemma CompleteJoin(size: seq<nat>, size': seq<nat>, ca: seq<nat>, cb: seq<nat>)
    requires ca != [] && |size| == |size'|
    requires forall i | i in ca + cb :: i < |size| && size'[i] == size[i] + 1
    requires Complete(size, ca) && Complete(size, cb)
    ensures Complete(size', ca + cb)
  {
    forall m: nat | ChainFits(size', ca + cb, m)
      ensures Sum(ChainTerms(size', ca + cb, m)) == Pow2(m)
    {
      assert ca[0] in ca + cb;
      assert forall i :: i in ca || i in cb ==> i in ca + cb;
      TermsJoin(size, size', ca, cb, m);
      SumConcat(ChainTerms(size, ca, m - 1), ChainTerms(size, cb, m - 1));
    }
  }

  // A branch whose lengths did not change is still complete.
  lemma CompleteFrame(size: seq<nat>, size': seq<nat>, ch: seq<nat>)
    requires |size| == |size'|
    requires forall i | i in ch :: i < |size| && size'[i] == size[i]
    requires Complete(size, ch)
    ensures Complete(size', ch)
  {
    forall m: nat | ChainFits(size', ch, m)
      ensures Sum(ChainTerms(size', ch, m)) == Pow2(m)
    {
      assert ChainFits(size, ch, m);
      assert ChainTerms(size', ch, m) == ChainTerms(size, ch, m);
    }
  }

  lemma AllCompleteMerge(orig: seq<nat>, f: Forest, a: nat, b: nat)
    requires Shape(orig, f) && TwoLeast(f.freq, a, b) && AllComplete(orig, f)
    ensures Shape(orig, Merge(orig, f, a, b)) && AllComplete(orig, Merge(orig, f, a, b))
  {
    ShapeMerge(orig, f, a, b);
    MergeSizes(orig, f, a, b);
    var g := Merge(orig, f, a, b);
    var ca, cb := f.chain[a], f.chain[b];
    assert Chain(orig, f, a) && Chain(orig, f, b);
    CompleteJoin(f.size, g.size, ca, cb);
    forall c: nat | c < |orig| && g.freq[c] != 0 && c != a
      ensures Complete(g.size, g.chain[c])
    {
      assert Chain(orig, f, c);
      CompleteFrame(f.size, g.size, f.chain[c]);
    }
  }

  // ----- a deep branch is a heavy branch -----

  function Fib(n: nat): (r: nat) {
    if n == 0 then 0 else if n == 1 then 1 else Fib(n - 1) + Fib(n - 2)
  }

  lemma {:induction false} FibMono(a: nat, b: nat)
    requires a <= b
    ensures Fib(a) <= Fib(b)
    decreases b
  {
    if a < b {
      FibMono(a, b - 1);
    }
  }

  // A symbol with a word of d bits sits in a branch of count at least Fib(d + 2),
  // while every other branch has count at least Fib(d + 1).
  ghost predicate HeavyFor(f: Forest, i: nat, c: nat)
    requires |f.freq| == |f.size| == |f.owner| && i < |f.size| && c < |f.size|
  {
    f.freq[c] != 0 ==> f.freq[c] >= Fib(f.size[i] + if c == f.owner[i] then 2 else 1)
  }

  ghost predicate FibHeavy(orig: seq<nat>, f: Forest)
    requires Shape(orig, f)
  {
    forall i: nat, c: nat | i < |orig| && orig[i] != 0 && c < |orig| :: HeavyFor(f, i, c)
  }

  lemma FibHeavyStart(orig: seq<nat>)
    ensures Shape(orig, Start(orig)) && FibHeavy(orig, Start(orig))
  {
    ShapeStart(orig);
    assert Fib(2) == 1;
  }

  lemma FibNext(n: nat)
    ensures Fib(n + 2) == Fib(n + 1) + Fib(n)
  {
  }

  lemma FibHeavyMerge(orig: seq<nat>, f: Forest, a: nat, b: nat)
    requires Shape(orig, f) && TwoLeast(f.freq, a, b) && FibHeavy(orig, f)
    ensures Shape(orig, Merge(orig, f, a, b)) && FibHeavy(orig, Merge(orig, f, a, b))
  {
    hide Fib, Chain;
    ShapeMerge(orig, f, a, b);
    MergeSizes(orig, f, a, b);
    var g := Merge(orig, f, a, b);
    forall i: nat, c: nat | i < |orig| && orig[i] != 0 && c < |orig|
      ensures HeavyFor(g, i, c)
    {
      assert HeavyFor(f, i, a) && HeavyFor(f, i, b) && HeavyFor(f, i, c);
      var d := f.size[i];
      FibNext(d + 1);
      FibMono(d + 1, d + 2);
    }
  }

  // ----- the symbol merged first keeps the longest word -----

  // The order in which the two search loops prefer branches: the smaller count,
  // and of equal counts the larger index.
  predicate Before(freq: seq<nat>, x: nat, y: nat)
    requires x < |freq| && y < |freq|
  {
    freq[x] < freq[y] || (freq[x] == freq[y] && x > y)
  }

  // a comes before every other branch, and b before every branch but a.
  ghost predicate FirstTwo(freq: seq<nat>, a: nat, b: nat) {
    && a < |freq| && b < |freq| && a != b && freq[a] != 0 && freq[b] != 0
    && Before(freq, a, b)
    && forall i: nat | i < |freq| && freq[i] != 0 && i != a && i != b :: Before(freq, b, i)
  }

  ghost predicate Deepest(orig: seq<nat>, f: Forest, p: nat)
    requires Shape(orig, f)
  {
    && p < |orig| && orig[p] != 0
    && (forall i: nat | i < |orig| :: f.size[i] <= f.size[p])
    && var top := f.owner[p];
    && (forall c: nat | c < |orig| && f.freq[c] != 0 && c != top ::
          2 * f.freq[c] > f.freq[top] || (2 * f.freq[c] == f.freq[top] && c < top))
    && (forall i: nat | i < |orig| && orig[i] != 0 && f.owner[i] != top && f.size[i] == f.size[p] ::
          Before(f.freq, top, f.owner[i]))
  }

  lemma DeepestStart(orig: seq<nat>, p: nat)
    requires p == |orig| - 1 && orig[p] == 1
    ensures Shape(orig, Start(orig)) && Deepest(orig, Start(orig), p)
  {
    ShapeStart(orig);
  }

  lemma RootOfUsed(orig: seq<nat>, f: Forest, i: nat)
    requires Shape(orig, f) && i < |orig| && orig[i] != 0
    ensures f.freq[f.owner[i]] != 0
  {
    assert Chain(orig, f, f.owner[i]);
    assert i in f.chain[f.owner[i]];
  }

  lemma DeepestMerge(orig: seq<nat>, f: Forest, p: nat, a: nat, b: nat)
    requires Shape(orig, f) && FirstTwo(f.freq, a, b) && TwoLeast(f.freq, a, b) && Deepest(orig, f, p)
    ensures Shape(orig, Merge(orig, f, a, b)) && Deepest(orig, Merge(orig, f, a, b), p)
  {
    ShapeMerge(orig, f, a, b);
    MergeSizes(orig, f, a, b);
    var g := Merge(orig, f, a, b);
    RootOfUsed(orig, f, p);
    forall i: nat | i < |orig| && orig[i] != 0
      ensures f.freq[f.owner[i]] != 0
    {
      RootOfUsed(orig, f, i);
    }
  }

  // ----- everything together -----

  ghost predicate Good(orig: seq<nat>, f: Forest, k: int, p: nat) {
    && Shape(orig, f)
    && Weighed(orig, f, k)
    && AllComplete(orig, f)
    && FibHeavy(orig, f)
    && Deepest(orig, f, p)
    && forall i: nat | i < |orig| && orig[i] == 0 :: f.size[i] == 0
  }

  lemma GoodStart(orig: seq<nat>, p: nat)
    requires p == |orig| - 1 && orig[p] == 1
    ensures Good(orig, Start(orig), 0, p)
  {
    ShapeStart(orig);
    WeighedStart(orig);
    AllCompleteStart(orig);
    FibHeavyStart(orig);
    DeepestStart(orig, p);
  }

  lemma GoodMerge(orig: seq<nat>, f: Forest, k: int, p: nat, a: nat, b: nat)
    requires Good(orig, f, k, p) && FirstTwo(f.freq, a, b)
    ensures Good(orig, Merge(orig, f, a, b), k + f.freq[a] + f.freq[b], p)
  {
    assert TwoLeast(f.freq, a, b);
    WeighedMerge(orig, f, k, a, b);
    AllCompleteMerge(orig, f, a, b);
    FibHeavyMerge(orig, f, a, b);
    DeepestMerge(orig, f, p, a, b);
    MergeSizes(orig, f, a, b);
  }

  // ----- what a finished forest, with the single branch r, delivers -----

  ghost predicate Finished(freq: seq<nat>, r: nat) {
    r < |freq| && freq[r] != 0 && forall c: nat | c < |freq| && c != r :: freq[c] == 0
  }

  lemma FinishedCovers(orig: seq<nat>, f: Forest, r: nat)
    requires Shape(orig, f) && Finished(f.freq, r)
    ensures Distinct(f.chain[r])
    ensures forall i: nat :: i in f.chain[r] <==> i < |orig| && orig[i] != 0
    ensures forall k | 0 <= k < |f.chain[r]| :: f.chain[r][k] < |orig|
  {
    assert Chain(orig, f, r);
    ChainInRange(orig, f, r);
    forall i: nat | i < |orig| && orig[i] != 0
      ensures i in f.chain[r]
    {
      RootOfUsed(orig, f, i);
    }
  }

  // The code lengths of a finished forest have Kraft sum exactly 1.
  lemma FinishedKraft(orig: seq<nat>, f: Forest, r: nat, m: nat)
    requires Shape(orig, f) && AllComplete(orig, f) && Finished(f.freq, r)
    requires Fits(orig, f.size, m)
    ensures Kraft(orig, f.size, m) == Pow2(m)
  {
    FinishedCovers(orig, f, r);
    var ch, t := f.chain[r], KraftTerms(orig, f.size, m);
    SumPick(t, ch);
    assert ChainFits(f.size, ch, m);
    assert Pick(t, ch) == ChainTerms(f.size, ch, m);
  }

  // No code costs less than the code lengths of the forest.
  lemma WeighedOptimal(orig: seq<nat>, f: Forest, k: int)
    requires Shape(orig, f) && Weighed(orig, f, k)
    ensures Optimal(orig, f.size)
  {
    forall len, m | Codeable(orig, len, m)
      ensures Cost(orig, f.size) <= Cost(orig, len)
    {
      assert Covered(Cost(orig, len), f.freq, k);
      var rest, m' :| Codeable(f.freq, rest, m') && Cost(f.freq, rest) + k <= Cost(orig, len);
      CostNonneg(f.freq, rest);
    }
  }

  // The total count bounds the longest word: d bits need a total of Fib(d + 2).
  lemma FinishedDepth(orig: seq<nat>, f: Forest, k: int, r: nat, i: nat)
    requires Shape(orig, f) && Weighed(orig, f, k) && FibHeavy(orig, f) && Finished(f.freq, r)
    requires i < |orig| && orig[i] != 0
    ensures Fib(f.size[i] + 2) <= Sum(orig)
  {
    FinishedCovers(orig, f, r);
    SumPick(orig, f.chain[r]);
    RootOfUsed(orig, f, i);
    assert HeavyFor(f, i, r);
  }
}
