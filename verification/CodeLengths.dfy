// The second half of jpeg_gen_optimal_table (jchuff.c): counting the code
// lengths, limiting them to 16 bits as section K.2 of ITU-T T.81 suggests,
// dropping the pseudo-symbol and listing the symbols by code length.
module CodeLengths {
  import opened Arith
  import opened PrefixCodes
  import opened HuffTable

  const MAX_CLEN := 32

  // ----- counting -----

  ghost predicate Short(size: seq<nat>) {
    forall i | 0 <= i < |size| :: size[i] <= MAX_CLEN
  }

  // For every length, how many of the first n symbols have it; length 0 means no code.
  function Hist(size: seq<nat>, n: nat): (r: seq<nat>)
    requires n <= |size| && forall i | 0 <= i < n :: size[i] <= MAX_CLEN
    ensures |r| == MAX_CLEN + 1
  {
    if n == 0 then seq(MAX_CLEN + 1, _ => 0)
    else
      var h := Hist(size, n - 1);
      if size[n - 1] == 0 then h else h[size[n - 1] := h[size[n - 1]] + 1]
  }

  // How many of the first n entries are not 0.
  function Support(s: seq<nat>, n: nat): (r: nat)
    requires n <= |s|
    ensures r <= n
  {
    if n == 0 then 0 else Support(s, n - 1) + if s[n - 1] == 0 then 0 else 1
  }

  // The counts after d more words of length l.
  function AddAt(b: seq<nat>, l: nat, d: int): (r: seq<nat>)
    requires l < |b| && b[l] + d >= 0
    ensures |r| == |b|
  {
    b[l := b[l] + d]
  }

  // d words of length l use up d * 2^(m-l) strings of length m.
  lemma {:induction false} UsedAdd(b: seq<nat>, l: nat, d: int, m: nat)
    requires 1 <= l < |b| && m < |b| && b[l] + d >= 0
    ensures Used(AddAt(b, l, d), m) == if l <= m then Used(b, m) + d * Pow2(m - l) else Used(b, m)
  {
    if m > 0 {
      UsedAdd(b, l, d, m - 1);
      if l < m {
        assert d * Pow2(m - l) == 2 * (d * Pow2(m - 1 - l));
      }
    }
  }

  lemma {:induction false} UptoAdd(b: seq<nat>, l: nat, d: int, m: nat)
    requires 1 <= l < |b| && m < |b| && b[l] + d >= 0
    ensures Upto(AddAt(b, l, d), m) == if l <= m then Upto(b, m) + d else Upto(b, m)
  {
    if m > 0 {
      UptoAdd(b, l, d, m - 1);
    }
  }

  lemma {:induction false} UsedZero(b: seq<nat>, m: nat)
    requires m < |b| && forall l | 1 <= l <= m :: b[l] == 0
    ensures Used(b, m) == 0 && Upto(b, m) == 0
  {
    if m > 0 {
      UsedZero(b, m - 1);
    }
  }

  lemma {:induction false} UptoBounds(b: seq<nat>, l: nat, m: nat)
    requires 1 <= l <= m < |b|
    ensures b[l] <= Upto(b, m)
  {
    if l < m {
      UptoBounds(b, l, m - 1);
    }
  }

  lemma {:induction false} HistSupport(size: seq<nat>, n: nat)
    requires Short(size) && n <= |size|
    ensures Upto(Hist(size, n), MAX_CLEN) == Support(size, n)
    ensures Hist(size, n)[0] == 0
  {
    if n == 0 {
      UsedZero(Hist(size, 0), MAX_CLEN);
    } else {
      HistSupport(size, n - 1);
      var h := Hist(size, n - 1);
      if size[n - 1] != 0 {
        UptoAdd(h, size[n - 1], 1, MAX_CLEN);
      }
    }
  }

  // The counts carry the Kraft sum of the lengths.
  lemma {:induction false} HistKraft(orig: seq<nat>, size: seq<nat>, n: nat)
    requires |orig| == |size| && Short(size) && n <= |size|
    requires forall i | 0 <= i < |size| :: orig[i] == 0 <==> size[i] == 0
    ensures Used(Hist(size, n), MAX_CLEN) == Sum(KraftTerms(orig, size, MAX_CLEN)[..n])
  {
    var t := KraftTerms(orig, size, MAX_CLEN);
    if n == 0 {
      UsedZero(Hist(size, 0), MAX_CLEN);
    } else {
      HistKraft(orig, size, n - 1);
      assert t[..n] == t[..n - 1] + [t[n - 1]];
      SumConcat(t[..n - 1], [t[n - 1]]);
      assert Sum([t[n - 1]]) == t[n - 1];
      var h := Hist(size, n - 1);
      if size[n - 1] != 0 {
        UsedAdd(h, size[n - 1], 1, MAX_CLEN);
      }
    }
  }

  // bits[] has 8-bit entries, so the counts are kept modulo 256.
  method CountLengths(codesize: array<nat>) returns (ok: bool, bits: array<nat>)
    ensures ok <==> Short(codesize[..])
    ensures fresh(bits) && bits.Length == MAX_CLEN + 1
    ensures ok ==> forall l | 0 <= l <= MAX_CLEN :: bits[l] == Hist(codesize[..], codesize.Length)[l] % 256
  {
    bits := new nat[MAX_CLEN + 1](_ => 0);
    ghost var size := codesize[..];
    for i := 0 to codesize.Length
      invariant codesize[..] == size
      invariant forall j | 0 <= j < i :: size[j] <= MAX_CLEN
      invariant forall l | 0 <= l <= MAX_CLEN :: bits[l] == Hist(size, i)[l] % 256
    {
      if codesize[i] != 0 {
        if codesize[i] > MAX_CLEN {
          return false, bits;
        }
        bits[codesize[i]] := (bits[codesize[i]] + 1) % 256;
      }
    }
    return true, bits;
  }

  // ----- limiting -----

  // Counts of a complete code with lengths of at most m.
  ghost predicate Full(b: seq<nat>, m: nat) {
    && |b| == MAX_CLEN + 1 && m <= MAX_CLEN && b[0] == 0
    && (forall l | m < l <= MAX_CLEN :: b[l] == 0)
    && Used(b, m) == Pow2(m)
  }

  // Section K.2: the pair of words of length i that share a prefix give it up;
  // one of them takes the prefix, the other one a word next to a former word of
  // length j, both a bit longer than that word.
  function Adjusted(b: seq<nat>, i: nat, j: nat): (r: seq<nat>)
    requires 1 <= j && j + 2 <= i < |b| && b[i] >= 2 && b[j] >= 1
  {
    AddAt(AddAt(AddAt(AddAt(b, i, -2), i - 1, 1), j + 1, 2), j, -1)
  }

  // What the adjustment takes from the strings of length i it gives back.
  lemma AdjustedUsed(b: seq<nat>, i: nat, j: nat, m: nat)
    requires 1 <= j && j + 2 <= i <= m < |b| && b[i] >= 2 && b[j] >= 1
    ensures Used(Adjusted(b, i, j), i) == Used(b, i)
    ensures Upto(Adjusted(b, i, j), m) == Upto(b, m)
  {
    var b1 := AddAt(b, i, -2);
    var b2 := AddAt(b1, i - 1, 1);
    var b3 := AddAt(b2, j + 1, 2);
    var b4 := AddAt(b3, j, -1);
    assert Used(b1, i) == Used(b, i) - 2 && Upto(b1, m) == Upto(b, m) - 2 by {
      UsedAdd(b, i, -2, i);
      UptoAdd(b, i, -2, m);
    }
    assert Used(b2, i) == Used(b1, i) + 2 && Upto(b2, m) == Upto(b1, m) + 1 by {
      UsedAdd(b1, i - 1, 1, i);
      UptoAdd(b1, i - 1, 1, m);
    }
    var u := Pow2(i - j - 1);
    assert Used(b3, i) == Used(b2, i) + 2 * u && Upto(b3, m) == Upto(b2, m) + 2 by {
      UsedAdd(b2, j + 1, 2, i);
      UptoAdd(b2, j + 1, 2, m);
    }
    assert Used(b4, i) == Used(b3, i) - 2 * u && Upto(b4, m) == Upto(b3, m) - 1 by {
      UsedAdd(b3, j, -1, i);
      UptoAdd(b3, j, -1, m);
    }
  }

  lemma AdjustedFull(b: seq<nat>, i: nat, j: nat)
    requires Full(b, i) && 1 <= j && j + 2 <= i && b[i] >= 2 && b[j] >= 1
    ensures Full(Adjusted(b, i, j), i)
    ensures Upto(Adjusted(b, i, j), MAX_CLEN) == Upto(b, MAX_CLEN)
  {
    AdjustedUsed(b, i, j, MAX_CLEN);
  }

  // The longest words come in pairs.
  lemma FullEven(b: seq<nat>, i: nat)
    requires Full(b, i) && i > 0 && b[i] > 0
    ensures b[i] >= 2
  {
  }

  lemma FullBelow(b: seq<nat>, i: nat)
    requires Full(b, i) && i > 0 && b[i] == 0
    ensures Full(b, i - 1)
  {
  }

  lemma TopOnly(b: seq<nat>, i: nat)
    requires 2 <= i < |b| && forall l | 1 <= l <= i - 2 :: b[l] == 0
    ensures Used(b, i) == 2 * b[i - 1] + b[i]
  {
    UsedZero(b, i - 2);
  }

  // With at most 255 words some word is at least two bits shorter than the longest.
  lemma DonorExists(b: seq<nat>, i: nat)
    requires Full(b, i) && i > 16 && Upto(b, MAX_CLEN) <= 255
    ensures exists j :: 1 <= j <= i - 2 && b[j] > 0
  {
    UptoBounds(b, i, MAX_CLEN);
    UptoBounds(b, i - 1, MAX_CLEN);
    Pow2Mono(10, i);
    assert Pow2(10) == 1024;
    if forall j | 1 <= j <= i - 2 :: b[j] == 0 {
      TopOnly(b, i);
    }
  }

  // The donor for the words of length i: the greatest length in use below i - 1.
  ghost predicate DonorOf(b: seq<nat>, i: nat, j: nat) {
    1 <= j && j + 2 <= i < |b| && b[j] >= 1 && forall l | j < l <= i - 2 :: b[l] == 0
  }

  // One adjustment: search for the donor length, then move the words. What is
  // shorter than the donor stays.
  method AdjustOnce(bits: array<nat>, i: nat) returns (ghost j: nat)
    requires Full(bits[..], i) && 16 < i && bits[i] > 0 && Upto(bits[..], MAX_CLEN) <= 255
    modifies bits
    ensures old(bits[i] >= 2 && DonorOf(bits[..], i, j)) && bits[..] == Adjusted(old(bits[..]), i, j)
    ensures bits[j] == old(bits[j]) - 1 && forall l | 0 <= l < j :: bits[l] == old(bits[l])
    ensures Full(bits[..], i) && bits[i] < old(bits[i])
    ensures Upto(bits[..], MAX_CLEN) == old(Upto(bits[..], MAX_CLEN))
  {
    ghost var b := bits[..];
    DonorExists(b, i);
    FullEven(b, i);
    var k := i - 2;
    while bits[k] == 0
      invariant 1 <= k <= i - 2
      invariant exists d :: 1 <= d <= k && b[d] > 0
      invariant forall l | k < l <= i - 2 :: b[l] == 0
      decreases k
    {
      k := k - 1;
    }
    j := k;
    AdjustedFull(b, i, k);
    bits[i] := bits[i] - 2;
    bits[i - 1] := bits[i - 1] + 1;
    bits[k + 1] := bits[k + 1] + 2;
    bits[k] := bits[k] - 1;
    assert bits[..] == Adjusted(b, i, k);
  }

  // ----- all adjustments -----

  datatype Move = Move(from: nat, donor: nat)

  // From counts b the adjustments lead to counts b': each takes words of the
  // greatest length, one over 16, and the donor for it.
  ghost predicate Leads(b: seq<nat>, moves: seq<Move>, b': seq<nat>)
    decreases |moves|
  {
    if moves == [] then b == b'
    else
      && MayMove(b, moves[0])
      && Leads(Adjusted(b, moves[0].from, moves[0].donor), moves[1..], b')
  }

  ghost predicate MayMove(b: seq<nat>, m: Move) {
    && 16 < m.from < |b| && b[m.from] >= 2 && (forall l | m.from < l < |b| :: b[l] == 0)
    && DonorOf(b, m.from, m.donor)
  }

  lemma {:induction false} LeadsOn(b: seq<nat>, moves: seq<Move>, b': seq<nat>, m: Move)
    requires Leads(b, moves, b') && MayMove(b', m)
    ensures Leads(b, moves + [m], Adjusted(b', m.from, m.donor))
    decreases |moves|
  {
    hide Adjusted;
    var all := moves + [m];
    if moves == [] {
      assert all[1..] == [];
    } else {
      LeadsOn(Adjusted(b, moves[0].from, moves[0].donor), moves[1..], b', m);
      assert all[1..] == moves[1..] + [m];
    }
  }

  // Words shorter than all donors stay.
  lemma {:induction false} ShorterStay(b: seq<nat>, moves: seq<Move>, b': seq<nat>, l: nat)
    requires Leads(b, moves, b') && l < |b| && forall i | 0 <= i < |moves| :: l < moves[i].donor
    ensures |b'| == |b| && b'[l] == b[l]
    decreases |moves|
  {
    if moves != [] {
      ShorterStay(Adjusted(b, moves[0].from, moves[0].donor), moves[1..], b', l);
    }
  }

  ghost predicate WithinLimit(b: seq<nat>) {
    forall l | 16 < l < |b| :: b[l] == 0
  }

  // The last of the adjustments leaves words of 16 bits.
  lemma {:induction false} SixteenUsed(b: seq<nat>, moves: seq<Move>, b': seq<nat>)
    requires Leads(b, moves, b') && moves != [] && WithinLimit(b')
    ensures |b'| == |b| && 16 < |b| && b'[16] > 0
    decreases |moves|
  {
    var b1 := Adjusted(b, moves[0].from, moves[0].donor);
    assert b1[moves[0].from - 1] > 0;
    if moves[1..] != [] {
      SixteenUsed(b1, moves[1..], b');
    }
  }

  // There is only one way to get rid of words over 16 bits.
  lemma {:induction false} OneWay(b: seq<nat>, moves: seq<Move>, c: seq<nat>, moves': seq<Move>, c': seq<nat>)
    requires Leads(b, moves, c) && Leads(b, moves', c')
    requires WithinLimit(c) && WithinLimit(c')
    ensures moves == moves' && c == c'
    decreases |moves|
  {
    hide Adjusted;
    if moves != [] && moves' != [] {
      var m, m' := moves[0], moves'[0];
      assert m.from == m'.from;
      assert m.donor == m'.donor;
      OneWay(Adjusted(b, m.from, m.donor), moves[1..], c, moves'[1..], c');
      assert moves == [m] + moves[1..] && moves' == [m] + moves'[1..];
    }
  }

  // One word each of 1 to 17 bits, and two of 18.
  function Steep(): (b: seq<nat>)
    ensures |b| == MAX_CLEN + 1
    ensures forall l | 0 <= l < |b| :: b[l] == if l == 0 || l > 18 then 0 else if l == 18 then 2 else 1
  {
    seq(MAX_CLEN + 1, l => if l == 0 || l > 18 then 0 else if l == 18 then 2 else 1)
  }

  // They end as one word each of 1 to 13 bits, two of 15 and four of 16.
  lemma SteepLimited(moves: seq<Move>, b': seq<nat>)
    requires Leads(Steep(), moves, b') && WithinLimit(b')
    ensures |b'| == MAX_CLEN + 1 && b'[15] == 2 && b'[16] == 4
    ensures forall l | 0 <= l < |b'| && l != 15 && l != 16 :: b'[l] == if 1 <= l <= 13 then 1 else 0
  {
    hide Steep;
    var b := Steep();
    var b1 := Adjusted(b, 18, 16);
    var b2 := Adjusted(b1, 17, 15);
    var b3 := Adjusted(b2, 17, 14);
    assert Leads(b3, [], b3);
    assert Leads(b2, [Move(17, 14)], b3);
    assert [Move(17, 15), Move(17, 14)][1..] == [Move(17, 14)];
    assert Leads(b1, [Move(17, 15), Move(17, 14)], b3);
    var all := [Move(18, 16), Move(17, 15), Move(17, 14)];
    assert all[1..] == [Move(17, 15), Move(17, 14)];
    assert Leads(b, all, b3);
    OneWay(b, moves, b', all, b3);
  }

  lemma LeadsNowhere(b: seq<nat>)
    ensures Leads(b, [], b)
  {
  }

  method LimitLengths(bits: array<nat>) returns (ghost moves: seq<Move>)
    requires Full(bits[..], MAX_CLEN) && Upto(bits[..], MAX_CLEN) <= 255
    modifies bits
    ensures Full(bits[..], 16)
    ensures Upto(bits[..], MAX_CLEN) == old(Upto(bits[..], MAX_CLEN))
    ensures (forall l | 16 < l <= MAX_CLEN :: old(bits[..])[l] == 0) ==> bits[..] == old(bits[..])
    ensures Leads(old(bits[..]), moves, bits[..])
  {
    hide Leads, Adjusted, Upto, Used;
    ghost var before := bits[..];
    moves := [];
    LeadsNowhere(before);
    var i := MAX_CLEN;
    while i > 16
      invariant 16 <= i <= MAX_CLEN && Full(bits[..], i)
      invariant Upto(bits[..], MAX_CLEN) == Upto(before, MAX_CLEN)
      invariant (forall l | 16 < l <= MAX_CLEN :: before[l] == 0) ==> bits[..] == before
      invariant Leads(before, moves, bits[..])
    {
      while bits[i] > 0
        invariant Leads(before, moves, bits[..])
        invariant Full(bits[..], i)
        invariant Upto(bits[..], MAX_CLEN) == Upto(before, MAX_CLEN)
        invariant (forall l | 16 < l <= MAX_CLEN :: before[l] == 0) ==> bits[..] == before
        decreases bits[i]
      {
        assert bits[i] == bits[..][i];
        ghost var b := bits[..];
        ghost var j := AdjustOnce(bits, i);
        LeadsOn(before, moves, b, Move(i, j));
        moves := moves + [Move(i, j)];
      }
      FullBelow(bits[..], i);
      i := i - 1;
    }
  }

  // Largest length in use.
  ghost predicate Largest(b: seq<nat>, l: nat) {
    1 <= l < |b| && b[l] > 0 && forall k | l < k < |b| :: b[k] == 0
  }

  // Taking one word off the longest length leaves the all-ones word unused.
  lemma DropLegal(b: seq<nat>, l: nat)
    requires Full(b, 16) && Largest(b, l) && Upto(b, MAX_CLEN) <= 256
    ensures l <= 16 && Legal(AddAt(b, l, -1)[..17])
    ensures Upto(AddAt(b, l, -1)[..17], 16) == Upto(b, MAX_CLEN) - 1
  {
    var b' := AddAt(b, l, -1);
    UsedAdd(b, l, -1, 16);
    UptoAdd(b, l, -1, MAX_CLEN);
    UsedPrefix(b', 17, 16);
    UptoTail(b', 16, MAX_CLEN);
    LegalIffKraft(b'[..17]);
  }

  lemma {:induction false} UsedPrefix(b: seq<nat>, n: nat, m: nat)
    requires m < n <= |b|
    ensures Used(b[..n], m) == Used(b, m) && Upto(b[..n], m) == Upto(b, m)
  {
    if m > 0 {
      UsedPrefix(b, n, m - 1);
    }
  }

  lemma {:induction false} UptoTail(b: seq<nat>, l: nat, m: nat)
    requires l <= m < |b| && forall k | l < k <= m :: b[k] == 0
    ensures Upto(b, m) == Upto(b, l)
  {
    if l < m {
      UptoTail(b, l, m - 1);
    }
  }

  method DropPseudo(bits: array<nat>) returns (ghost l: nat)
    requires Full(bits[..], 16)
    modifies bits
    ensures Largest(old(bits[..]), l)
    ensures bits[..] == AddAt(old(bits[..]), l, -1)
  {
    var i := 16;
    assert exists k :: 1 <= k <= 16 && bits[k] > 0 by {
      if forall k | 1 <= k <= 16 :: bits[..][k] == 0 {
        UsedZero(bits[..], 16);
      }
    }
    while bits[i] == 0
      invariant 1 <= i <= 16
      invariant exists k :: 1 <= k <= i && bits[k] > 0
      invariant forall k | i < k <= 16 :: bits[k] == 0
      decreases i
    {
      i := i - 1;
    }
    assert forall k | 16 < k <= MAX_CLEN :: bits[..][k] == 0;
    l := i;
    bits[i] := bits[i] - 1;
  }

  // ----- listing -----

  // The symbols below n with code length l, in order.
  function SymbolsOf(size: seq<nat>, l: nat, n: nat): seq<nat>
    requires n <= |size|
  {
    if n == 0 then []
    else SymbolsOf(size, l, n - 1) + if size[n - 1] == l then [n - 1] else []
  }

  // The symbols 0..255 with code lengths 1..l, by code length and then by value.
  function Listed(size: seq<nat>, l: nat): seq<nat>
    requires |size| >= 256
  {
    if l == 0 then [] else Listed(size, l - 1) + SymbolsOf(size, l, 256)
  }

  lemma {:induction false} SymbolsOfSpec(size: seq<nat>, l: nat, n: nat)
    requires n <= |size|
    ensures Distinct(SymbolsOf(size, l, n))
    ensures forall i: nat :: i in SymbolsOf(size, l, n) <==> i < n && size[i] == l
  {
    if n > 0 {
      SymbolsOfSpec(size, l, n - 1);
      var s := SymbolsOf(size, l, n - 1);
      assert forall k | 0 <= k < |s| :: s[k] in s;
    }
  }

  lemma {:induction false} ListedSpec(size: seq<nat>, l: nat)
    requires |size| >= 256
    ensures Distinct(Listed(size, l))
    ensures forall i: nat :: i in Listed(size, l) <==> i < 256 && 1 <= size[i] <= l
  {
    if l > 0 {
      ListedSpec(size, l - 1);
      SymbolsOfSpec(size, l, 256);
      var a, b := Listed(size, l - 1), SymbolsOf(size, l, 256);
      forall i, j | 0 <= i < |a| && 0 <= j < |b|
        ensures a[i] != b[j]
      {
        assert a[i] in a && b[j] in b;
      }
    }
  }

  lemma {:induction false} SymbolsOfCount(size: seq<nat>, l: nat, n: nat)
    requires n <= |size| && Short(size) && 1 <= l <= MAX_CLEN
    ensures |SymbolsOf(size, l, n)| == Hist(size, n)[l]
  {
    if n > 0 {
      SymbolsOfCount(size, l, n - 1);
    }
  }

  lemma {:induction false} ListedCount(size: seq<nat>, l: nat)
    requires |size| >= 256 && Short(size) && l <= MAX_CLEN
    ensures |Listed(size, l)| == Upto(Hist(size, 256), l)
  {
    if l > 0 {
      ListedCount(size, l - 1);
      SymbolsOfCount(size, l, 256);
    }
  }

  lemma {:induction false} ListedPrefix(size: seq<nat>, l: nat, m: nat)
    requires |size| >= 256 && l <= m
    ensures Listed(size, l) <= Listed(size, m)
  {
    if l < m {
      ListedPrefix(size, l, m - 1);
    }
  }

  // The p'th symbol of the list has the p'th smallest code length.
  lemma ListedLength(size: seq<nat>, p: nat, l: nat)
    requires |size| >= 256 && Short(size) && 1 <= l <= MAX_CLEN
    requires Upto(Hist(size, 256), l - 1) <= p < Upto(Hist(size, 256), l)
    ensures p < |Listed(size, MAX_CLEN)| && Listed(size, MAX_CLEN)[p] < 256
    ensures size[Listed(size, MAX_CLEN)[p]] == l
  {
    ListedCount(size, l - 1);
    ListedCount(size, l);
    ListedPrefix(size, l, MAX_CLEN);
    SymbolsOfSpec(size, l, 256);
    var b := SymbolsOf(size, l, 256);
    assert Listed(size, l)[p] == b[p - |Listed(size, l - 1)|];
    assert b[p - |Listed(size, l - 1)|] in b;
  }

  method ListSymbols(codesize: array<nat>, huffval: array<nat>) returns (p: nat)
    requires codesize.Length == 257 && huffval.Length == 256 && codesize != huffval
    requires |Listed(codesize[..], MAX_CLEN)| <= 256
    modifies huffval
    ensures p == |Listed(codesize[..], MAX_CLEN)|
    ensures huffval[..] == Listed(codesize[..], MAX_CLEN) + old(huffval[..])[p..]
  {
    hide SymbolsOf, Listed;
    ghost var size, before := codesize[..], huffval[..];
    p := 0;
    NoneListed(size);
    for i := 1 to MAX_CLEN + 1
      invariant codesize[..] == size
      invariant p == |Listed(size, i - 1)| <= 256
      invariant huffval[..] == Listed(size, i - 1) + before[p..]
    {
      ListedPrefix(size, i, MAX_CLEN);
      ListedNext(size, i, before[p..]);
      for j := 0 to 256
        invariant codesize[..] == size
        invariant p == |Listed(size, i - 1) + SymbolsOf(size, i, j)| <= 256
        invariant huffval[..] == Listed(size, i - 1) + SymbolsOf(size, i, j) + before[p..]
      {
        SymbolsOfPrefix(size, i, j + 1, 256);
        SymbolsOfNext(size, i, j);
        if codesize[j] == i {
          Entered(huffval[..], Listed(size, i - 1), SymbolsOf(size, i, j), before, j);
          huffval[p] := j;
          p := p + 1;
        }
      }
    }
  }

  lemma NoneListed(size: seq<nat>)
    requires |size| >= 256
    ensures Listed(size, 0) == []
  {
  }

  lemma ListedNext(size: seq<nat>, l: nat, rest: seq<nat>)
    requires |size| >= 256 && l > 0
    ensures Listed(size, l) == Listed(size, l - 1) + SymbolsOf(size, l, 256)
    ensures SymbolsOf(size, l, 0) == [] && Listed(size, l - 1) + [] == Listed(size, l - 1)
  {
  }

  lemma SymbolsOfNext(size: seq<nat>, l: nat, n: nat)
    requires n < |size|
    ensures SymbolsOf(size, l, n + 1) == if size[n] == l then SymbolsOf(size, l, n) + [n] else SymbolsOf(size, l, n)
  {
  }

  // One more symbol at the end of what has been listed.
  lemma Entered(now: seq<nat>, a: seq<nat>, b: seq<nat>, before: seq<nat>, j: nat)
    requires |a + b| < |before| && now == a + b + before[|a + b|..]
    ensures now[|a + b| := j] == a + (b + [j]) + before[|a + (b + [j])|..]
  {
  }

  lemma {:induction false} SymbolsOfPrefix(size: seq<nat>, l: nat, m: nat, n: nat)
    requires m <= n <= |size|
    ensures SymbolsOf(size, l, m) <= SymbolsOf(size, l, n)
  {
    if m < n {
      SymbolsOfPrefix(size, l, m, n - 1);
    }
  }
}
