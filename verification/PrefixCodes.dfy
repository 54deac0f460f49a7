// The theory behind Huffman's procedure (section K.2 of ITU-T T.81): code
// lengths, the Kraft sum, the cost of a code, and the exchange argument which
// shows that merging the two least frequent symbols never loses optimality.
//
// Frequencies are indexed by symbol; a symbol of frequency 0 takes no part.
module PrefixCodes {
  import opened Arith

  // Every used symbol has a length of at most m.
  ghost predicate Fits(freq: seq<nat>, len: seq<nat>, m: nat) {
    && |freq| == |len|
    && forall i | 0 <= i < |freq| && freq[i] != 0 :: len[i] <= m
  }

  ghost function KraftTerms(freq: seq<nat>, len: seq<nat>, m: nat): (r: seq<int>)
    requires Fits(freq, len, m)
    ensures |r| == |freq|
    ensures forall i | 0 <= i < |r| :: r[i] == if freq[i] == 0 then 0 else Pow2(m - len[i])
  {
    seq(|freq|, i requires 0 <= i < |freq| => if freq[i] == 0 then 0 else Pow2(m - len[i]))
  }

  // The Kraft sum of the lengths, in units of 2^-m.
  ghost function Kraft(freq: seq<nat>, len: seq<nat>, m: nat): int
    requires Fits(freq, len, m)
  {
    Sum(KraftTerms(freq, len, m))
  }

  // The lengths of some prefix code: Kraft sum of at most 1.
  ghost predicate Codeable(freq: seq<nat>, len: seq<nat>, m: nat) {
    Fits(freq, len, m) && Kraft(freq, len, m) <= Pow2(m)
  }

  ghost function CostTerms(freq: seq<nat>, len: seq<nat>): (r: seq<int>)
    requires |freq| == |len|
    ensures |r| == |freq|
    ensures forall i | 0 <= i < |r| :: r[i] == freq[i] * len[i]
  {
    seq(|freq|, i requires 0 <= i < |freq| => freq[i] * len[i])
  }

  // Number of bits needed to send every symbol as often as it occurs.
  ghost function Cost(freq: seq<nat>, len: seq<nat>): int
    requires |freq| == |len|
  {
    Sum(CostTerms(freq, len))
  }

  lemma KraftDouble(freq: seq<nat>, len: seq<nat>, m: nat)
    requires Fits(freq, len, m)
    ensures Kraft(freq, len, m + 1) == 2 * Kraft(freq, len, m)
  {
    SumScale(KraftTerms(freq, len, m), KraftTerms(freq, len, m + 1), 2);
  }

  lemma KraftUpdate(freq: seq<nat>, len: seq<nat>, m: nat, x: nat, l: nat)
    requires Fits(freq, len, m) && x < |freq| && freq[x] != 0 && l <= m
    ensures Fits(freq, len[x := l], m)
    ensures Kraft(freq, len[x := l], m) == Kraft(freq, len, m) - Pow2(m - len[x]) + Pow2(m - l)
  {
    var t := KraftTerms(freq, len, m);
    SumUpdate(t, x, Pow2(m - l));
    assert KraftTerms(freq, len[x := l], m) == t[x := Pow2(m - l)];
  }

  lemma CostUpdate(freq: seq<nat>, len: seq<nat>, x: nat, l: nat)
    requires |freq| == |len| && x < |freq|
    ensures Cost(freq, len[x := l]) == Cost(freq, len) - freq[x] * len[x] + freq[x] * l
  {
    var t := CostTerms(freq, len);
    SumUpdate(t, x, freq[x] * l);
    assert CostTerms(freq, len[x := l]) == t[x := freq[x] * l];
  }

  // Two used symbols cannot both have the empty code.
  lemma DeepEnough(freq: seq<nat>, len: seq<nat>, m: nat, x: nat, y: nat)
    requires Codeable(freq, len, m)
    requires x < |freq| && y < |freq| && x != y && freq[x] != 0 && freq[y] != 0
    ensures m > 0
  {
    var t := KraftTerms(freq, len, m);
    SumAtLeastTwo(t, x, y);
    assert t[x] >= 1 && t[y] >= 1;
    assert Pow2(0) == 1;
  }

  // Lengths that stay below m have an even Kraft sum in units of 2^-m.
  lemma LowerBound(freq: seq<nat>, len: seq<nat>, m: nat)
    requires m > 0 && Codeable(freq, len, m) && Fits(freq, len, m - 1)
    ensures Codeable(freq, len, m - 1)
  {
    KraftDouble(freq, len, m - 1);
  }

  // A symbol that is alone at the deepest level m can move up one level.
  lemma MoveUp(freq: seq<nat>, len: seq<nat>, m: nat, x: nat)
    requires m > 0 && Codeable(freq, len, m)
    requires x < |freq| && freq[x] != 0 && len[x] == m
    requires forall i | 0 <= i < |freq| && freq[i] != 0 && i != x :: len[i] < m
    ensures Codeable(freq, len[x := m - 1], m - 1)
    ensures Cost(freq, len[x := m - 1]) <= Cost(freq, len)
  {
    var up := len[x := m - 1];
    KraftUpdate(freq, len, m, x, m - 1);
    KraftDouble(freq, up, m - 1);
    CostUpdate(freq, len, x, m - 1);
    assert freq[x] * (m - 1) <= freq[x] * m;
    assert Pow2(m - (m - 1)) == 2 by { assert Pow2(1) == 2 * Pow2(0); }
  }

  // Any code can be tightened, without extra cost, until two symbols share the deepest level.
  lemma {:induction false} Tighten(freq: seq<nat>, len: seq<nat>, m: nat, x: nat, y: nat)
    returns (len': seq<nat>, m': nat, x': nat, y': nat)
    requires Codeable(freq, len, m)
    requires x < |freq| && y < |freq| && x != y && freq[x] != 0 && freq[y] != 0
    ensures Codeable(freq, len', m') && Cost(freq, len') <= Cost(freq, len)
    ensures x' < |freq| && y' < |freq| && x' != y' && freq[x'] != 0 && freq[y'] != 0
    ensures len'[x'] == m' && len'[y'] == m'
    decreases m
  {
    DeepEnough(freq, len, m, x, y);
    if a: nat :| a < |freq| && freq[a] != 0 && len[a] == m {
      if b: nat :| b < |freq| && freq[b] != 0 && b != a && len[b] == m {
        return len, m, a, b;
      }
      MoveUp(freq, len, m, a);
      len', m', x', y' := Tighten(freq, len[a := m - 1], m - 1, x, y);
    } else {
      LowerBound(freq, len, m);
      len', m', x', y' := Tighten(freq, len, m - 1, x, y);
    }
  }

  // The lengths after x and y have traded theirs.
  lemma SwapCost(freq: seq<nat>, len: seq<nat>, x: nat, y: nat)
    requires |freq| == |len| && x < |freq| && y < |freq| && x != y
    ensures Cost(freq, len[x := len[y]][y := len[x]])
         == Cost(freq, len) + (freq[x] as int - freq[y]) * (len[y] as int - len[x])
  {
    CostUpdate(freq, len, x, len[y]);
    CostUpdate(freq, len[x := len[y]], y, len[x]);
    assert (freq[x] as int - freq[y]) * (len[y] as int - len[x])
        == freq[x] * len[y] as int - freq[x] * len[x] - freq[y] * len[y] + freq[y] * len[x];
  }

  lemma SwapKraft(freq: seq<nat>, len: seq<nat>, m: nat, x: nat, y: nat)
    requires Fits(freq, len, m) && x < |freq| && y < |freq| && x != y && freq[x] != 0 && freq[y] != 0
    ensures Fits(freq, len[x := len[y]][y := len[x]], m)
    ensures Kraft(freq, len[x := len[y]][y := len[x]], m) == Kraft(freq, len, m)
  {
    KraftUpdate(freq, len, m, x, len[y]);
    KraftUpdate(freq, len[x := len[y]], m, y, len[x]);
  }

  // Giving the deepest level to a rarer symbol costs nothing.
  lemma Swap(freq: seq<nat>, len: seq<nat>, m: nat, a: nat, x: nat) returns (len': seq<nat>)
    requires Codeable(freq, len, m)
    requires a < |freq| && x < |freq| && a != x && freq[a] != 0 && freq[a] <= freq[x]
    requires len[x] == m
    ensures len' == len[a := m][x := len[a]]
    ensures Codeable(freq, len', m) && Cost(freq, len') <= Cost(freq, len)
  {
    len' := len[a := m][x := len[a]];
    SwapKraft(freq, len, m, a, x);
    SwapCost(freq, len, a, x);
    MulMono(freq[a] as int - freq[x], 0, len[x] - len[a]);
  }

  // a and b are used, and no used symbol is rarer than either.
  ghost predicate TwoLeast(freq: seq<nat>, a: nat, b: nat) {
    && a < |freq| && b < |freq| && a != b
    && 0 < freq[a] <= freq[b]
    && forall i | 0 <= i < |freq| && freq[i] != 0 && i != a && i != b :: freq[b] <= freq[i]
  }

  // The frequencies after b has been merged into a.
  function Merged(freq: seq<nat>, a: nat, b: nat): (r: seq<nat>)
    requires a < |freq| && b < |freq|
  {
    freq[a := freq[a] + freq[b]][b := 0]
  }

  lemma MergedSum(freq: seq<nat>, a: nat, b: nat)
    requires a < |freq| && b < |freq| && a != b
    ensures Sum(Merged(freq, a, b)) == Sum(freq)
  {
    hide Sum;
    var f := freq[a := freq[a] + freq[b]];
    SumUpdate(freq, a, freq[a] + freq[b]);
    assert f[b] == freq[b];
    SumUpdate(f, b, 0);
  }

  // The two rarest symbols may be taken to be siblings on the deepest level.
  lemma Siblings(freq: seq<nat>, len: seq<nat>, m: nat, a: nat, b: nat) returns (len': seq<nat>, m': nat)
    requires Codeable(freq, len, m) && TwoLeast(freq, a, b)
    ensures Codeable(freq, len', m') && Cost(freq, len') <= Cost(freq, len)
    ensures len'[a] == m' && len'[b] == m' && m' > 0
  {
    var x, y;
    len', m', x, y := Tighten(freq, len, m, a, b);
    DeepEnough(freq, len', m', x, y);
    if a == y {
      x, y := y, x;
    }
    if a != x {
      len' := Swap(freq, len', m', a, x);
      x := a;
    }
    if b != y {
      len' := Swap(freq, len', m', b, y);
    }
  }

  // Two siblings at level m make room for one word at level m - 1.
  lemma MergeKraft(freq: seq<nat>, len: seq<nat>, m: nat, a: nat, b: nat)
    requires Codeable(freq, len, m) && TwoLeast(freq, a, b)
    requires len[a] == m && len[b] == m && m > 0
    ensures Codeable(Merged(freq, a, b), len[a := m - 1], m)
  {
    var t := KraftTerms(freq, len, m);
    assert Pow2(0) == 1 && Pow2(1) == 2;
    assert KraftTerms(Merged(freq, a, b), len[a := m - 1], m) == t[a := 2][b := 0];
    SumUpdate(t, a, 2);
    SumUpdate(t[a := 2], b, 0);
  }

  // The merged word saves one bit per occurrence of either sibling.
  lemma MergeCost(freq: seq<nat>, len: seq<nat>, m: nat, a: nat, b: nat)
    requires |freq| == |len| && a < |freq| && b < |freq| && a != b
    requires len[a] == m && len[b] == m && m > 0
    ensures Cost(Merged(freq, a, b), len[a := m - 1]) + freq[a] + freq[b] == Cost(freq, len)
  {
    var t, w := CostTerms(freq, len), (freq[a] + freq[b]) * (m - 1);
    assert CostTerms(Merged(freq, a, b), len[a := m - 1]) == t[a := w][b := 0];
    SumUpdate(t, a, w);
    SumUpdate(t[a := w], b, 0);
    assert w == freq[a] * m - freq[a] + freq[b] * m - freq[b];
  }

  // Any code for freq yields one for the merged frequencies that is cheaper by freq[a] + freq[b].
  lemma MergeStep(freq: seq<nat>, len: seq<nat>, m: nat, a: nat, b: nat) returns (len': seq<nat>, m': nat)
    requires Codeable(freq, len, m) && TwoLeast(freq, a, b)
    ensures Codeable(Merged(freq, a, b), len', m')
    ensures Cost(Merged(freq, a, b), len') + freq[a] + freq[b] <= Cost(freq, len)
  {
    var mid;
    mid, m' := Siblings(freq, len, m, a, b);
    len' := mid[a := m' - 1];
    MergeKraft(freq, mid, m', a, b);
    MergeCost(freq, mid, m', a, b);
  }

  // Some code for freq, plus the cost k already paid, is within the cost of len.
  ghost predicate Covered(total: int, freq: seq<nat>, k: int) {
    exists len, m :: Codeable(freq, len, m) && Cost(freq, len) + k <= total
  }

  // No code for the original frequencies beats k plus a code for the merged ones.
  ghost predicate OptimalSoFar(orig: seq<nat>, freq: seq<nat>, k: int) {
    forall len, m | Codeable(orig, len, m) :: Covered(Cost(orig, len), freq, k)
  }

  lemma OptimalStart(orig: seq<nat>)
    ensures OptimalSoFar(orig, orig, 0)
  {
  }

  lemma OptimalMerge(orig: seq<nat>, freq: seq<nat>, k: int, a: nat, b: nat)
    requires OptimalSoFar(orig, freq, k) && TwoLeast(freq, a, b)
    ensures OptimalSoFar(orig, Merged(freq, a, b), k + freq[a] + freq[b])
  {
    forall len, m | Codeable(orig, len, m)
      ensures Covered(Cost(orig, len), Merged(freq, a, b), k + freq[a] + freq[b])
    {
      assert Covered(Cost(orig, len), freq, k);
      var mid, m1 :| Codeable(freq, mid, m1) && Cost(freq, mid) + k <= Cost(orig, len);
      var mid', m2 := MergeStep(freq, mid, m1, a, b);
    }
  }

  lemma CostNonneg(freq: seq<nat>, len: seq<nat>)
    requires |freq| == |len|
    ensures Cost(freq, len) >= 0
  {
    var zeros := seq(|freq|, _ => 0);
    SumZero(zeros);
    assert forall i | 0 <= i < |freq| :: 0 <= freq[i] * len[i];
    SumMono(zeros, CostTerms(freq, len));
  }

  // No code with Kraft sum at most 1 costs less than these lengths.
  ghost predicate Optimal(orig: seq<nat>, len: seq<nat>) {
    && |orig| == |len|
    && forall len', m {:trigger Codeable(orig, len', m)} | Codeable(orig, len', m) ::
      Cost(orig, len) <= Cost(orig, len')
  }

  // ----- Kraft's inequality: from code words to code lengths -----

  type Word = seq<bool>

  // The code words of the used symbols; no one of them begins another.
  ghost predicate PrefixFree(freq: seq<nat>, code: seq<Word>) {
    && |freq| == |code|
    && forall i, j | 0 <= i < |freq| && 0 <= j < |freq| && i != j && freq[i] != 0 && freq[j] != 0 ::
         !(code[i] <= code[j])
  }

  ghost function Lengths(code: seq<Word>): (r: seq<nat>)
    ensures |r| == |code|
    ensures forall i | 0 <= i < |r| :: r[i] == |code[i]|
  {
    seq(|code|, i requires 0 <= i < |code| => |code[i]|)
  }

  // The symbols whose words begin with b keep their frequency ...
  ghost function Branch(freq: seq<nat>, code: seq<Word>, b: bool): (r: seq<nat>)
    requires |freq| == |code|
    ensures |r| == |freq|
    ensures forall i | 0 <= i < |r| :: r[i] == if code[i] != [] && code[i][0] == b then freq[i] else 0
  {
    seq(|freq|, i requires 0 <= i < |freq| => if code[i] != [] && code[i][0] == b then freq[i] else 0)
  }

  // ... and every word loses its first bit.
  ghost function Tails(code: seq<Word>): (r: seq<Word>)
    ensures |r| == |code|
    ensures forall i | 0 <= i < |r| :: r[i] == if code[i] == [] then [] else code[i][1..]
  {
    seq(|code|, i requires 0 <= i < |code| => if code[i] == [] then [] else code[i][1..])
  }

  lemma PrefixAfterBit(b: bool, u: Word, v: Word)
    ensures [b] + u <= [b] + v <==> u <= v
  {
    assert ([b] + u)[1..] == u && ([b] + v)[1..] == v;
  }

  lemma BranchPrefixFree(freq: seq<nat>, code: seq<Word>, b: bool)
    requires PrefixFree(freq, code)
    ensures PrefixFree(Branch(freq, code, b), Tails(code))
  {
    var f, t := Branch(freq, code, b), Tails(code);
    forall i, j | 0 <= i < |f| && 0 <= j < |f| && i != j && f[i] != 0 && f[j] != 0
      ensures !(t[i] <= t[j])
    {
      assert code[i] == [b] + t[i] && code[j] == [b] + t[j];
      PrefixAfterBit(b, t[i], t[j]);
    }
  }

  lemma {:induction false} SumTwo(a: seq<int>, b: seq<int>, c: seq<int>)
    requires |a| == |b| == |c|
    requires forall i | 0 <= i < |a| :: c[i] == a[i] + b[i]
    ensures Sum(c) == Sum(a) + Sum(b)
  {
    if a != [] {
      SumTwo(a[1..], b[1..], c[1..]);
    }
  }

  lemma OnlyWord(freq: seq<nat>, code: seq<Word>, e: nat)
    requires PrefixFree(freq, code) && e < |freq| && freq[e] != 0 && code[e] == []
    ensures forall i: nat | i < |freq| && i != e :: freq[i] == 0
  {
    forall i: nat | i < |freq| && i != e
      ensures freq[i] == 0
    {
      assert code[e] <= code[i];
    }
  }

  // A prefix-free code that uses the empty word has no other word.
  lemma KraftEmptyWord(freq: seq<nat>, code: seq<Word>, m: nat, e: nat)
    requires PrefixFree(freq, code) && Fits(freq, Lengths(code), m)
    requires e < |freq| && freq[e] != 0 && code[e] == []
    ensures Kraft(freq, Lengths(code), m) == Pow2(m)
  {
    hide Pow2, Sum;
    var t := KraftTerms(freq, Lengths(code), m);
    OnlyWord(freq, code, e);
    SumUpdate(t, e, 0);
    SumZero(t[e := 0]);
  }

  // The Kraft sum is the sum over the two halves of the code tree.
  lemma KraftSplit(freq: seq<nat>, code: seq<Word>, m: nat)
    requires |freq| == |code| && m > 0 && Fits(freq, Lengths(code), m)
    requires forall i | 0 <= i < |freq| && freq[i] != 0 :: code[i] != []
    ensures Fits(Branch(freq, code, false), Lengths(Tails(code)), m - 1)
    ensures Fits(Branch(freq, code, true), Lengths(Tails(code)), m - 1)
    ensures Kraft(freq, Lengths(code), m)
         == Kraft(Branch(freq, code, false), Lengths(Tails(code)), m - 1)
          + Kraft(Branch(freq, code, true), Lengths(Tails(code)), m - 1)
  {
    var f0, f1, l := Branch(freq, code, false), Branch(freq, code, true), Lengths(Tails(code));
    SumTwo(KraftTerms(f0, l, m - 1), KraftTerms(f1, l, m - 1), KraftTerms(freq, Lengths(code), m));
  }

  // Kraft's inequality: the word lengths of a prefix-free code have Kraft sum at most 1.
  lemma {:induction false} KraftInequality(freq: seq<nat>, code: seq<Word>, m: nat)
    requires PrefixFree(freq, code) && Fits(freq, Lengths(code), m)
    ensures Kraft(freq, Lengths(code), m) <= Pow2(m)
    decreases m
  {
    if e: nat :| e < |freq| && freq[e] != 0 && code[e] == [] {
      KraftEmptyWord(freq, code, m, e);
    } else if m == 0 {
      SumZero(KraftTerms(freq, Lengths(code), m));
    } else {
      KraftSplit(freq, code, m);
      BranchPrefixFree(freq, code, false);
      BranchPrefixFree(freq, code, true);
      KraftInequality(Branch(freq, code, false), Tails(code), m - 1);
      KraftInequality(Branch(freq, code, true), Tails(code), m - 1);
    }
  }

  // An optimal code beats every prefix code, word by word.
  lemma OptimalBeatsPrefixCodes(orig: seq<nat>, len: seq<nat>, code: seq<Word>)
    requires Optimal(orig, len) && PrefixFree(orig, code)
    ensures Cost(orig, len) <= Cost(orig, Lengths(code))
  {
    var m := MaxOf(Lengths(code));
    KraftInequality(orig, code, m);
    assert Codeable(orig, Lengths(code), m);
  }

  ghost function MaxOf(s: seq<nat>): (m: nat)
    ensures forall i | 0 <= i < |s| :: s[i] <= m
  {
    if s == [] then 0 else
      var rest := MaxOf(s[1..]);
      assert forall i | 1 <= i < |s| :: s[i] == s[1..][i - 1];
      if s[0] > rest then s[0] else rest
  }
}
