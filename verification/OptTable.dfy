// jpeg_gen_optimal_table (jchuff.c): the merge loop, the count of code
// lengths, the limit of 16 bits and the sorted symbol list.
module OptTable {
  import opened Arith
  import opened PrefixCodes
  import opened HuffmanForest
  import opened HuffTable
  import CL = CodeLengths
  import opened Errors

  const PSEUDO := 256
  // Counts above this value are not seen by the search loops.
  const TOO_BIG := 1_000_000_000

  // ----- the merge loop -----

  // c is the first branch, in the order of preference, other than skip; or -1
  // when every other branch is too big to be seen.
  ghost predicate Found(freq: seq<nat>, skip: int, c: int) {
    && -1 <= c < |freq|
    && if c < 0 then forall i: nat | i < |freq| && freq[i] != 0 && i != skip :: freq[i] > TOO_BIG
       else c != skip && 0 < freq[c] <= TOO_BIG
            && forall i: nat | i < |freq| && freq[i] != 0 && i != skip && i != c :: Before(freq, c, i)
  }

  lemma FoundTwo(freq: seq<nat>, c1: int, c2: int)
    requires Found(freq, -1, c1) && Found(freq, c1, c2) && c2 >= 0
    ensures c1 >= 0 && FirstTwo(freq, c1, c2) && TwoLeast(freq, c1, c2)
  {
  }

  // When the second search fails, at most one branch is still small enough to be seen.
  ghost predicate Exhausted(freq: seq<nat>) {
    forall i: nat, j: nat | i < |freq| && j < |freq| && 0 < freq[i] <= TOO_BIG && 0 < freq[j] <= TOO_BIG :: i == j
  }

  lemma FoundOne(freq: seq<nat>, c1: int, c2: int)
    requires Found(freq, -1, c1) && Found(freq, c1, c2) && c2 < 0
    ensures Exhausted(freq)
  {
  }

  // One search loop: the smallest nonzero count other than that of skip, the
  // larger symbol winning ties; -1 if there is none.
  method FindLeast(freq: array<nat>, skip: int) returns (c: int)
    requires freq.Length == 257
    ensures Found(freq[..], skip, c)
  {
    c := -1;
    var v := TOO_BIG;
    for i := 0 to 257
      invariant -1 <= c < i
      invariant c >= 0 ==> c != skip && v == freq[c] && 0 < v <= TOO_BIG
      invariant c < 0 ==> v == TOO_BIG
      invariant c >= 0 ==> forall j: nat | j < i && freq[j] != 0 && j != skip && j != c :: Before(freq[..], c, j)
      invariant c < 0 ==> forall j: nat | j < i && freq[j] != 0 && j != skip :: freq[j] > TOO_BIG
    {
      if freq[i] != 0 && freq[i] <= v && i != skip {
        v := freq[i];
        c := i;
      }
    }
  }

  // others[] threads every chain of the forest.
  ghost predicate Links(others: seq<int>, f: Forest) {
    && |others| == |f.chain|
    && forall c: nat | c < |f.chain| :: ChainLinks(others, f.chain[c])
  }

  ghost predicate ChainLinks(others: seq<int>, ch: seq<nat>) {
    && (forall k | 0 <= k < |ch| :: ch[k] < |others|)
    && forall k {:trigger others[ch[k]]} | 0 <= k < |ch| :: others[ch[k]] == if k + 1 < |ch| then ch[k + 1] else -1
  }

  // One bit more for every symbol in the branch that starts at c; returns its last symbol.
  method Lengthen(codesize: array<nat>, others: array<int>, c: nat, ghost ch: seq<nat>) returns (last: nat)
    requires codesize.Length == others.Length == 257 && codesize as object != others
    requires ch != [] && ch[0] == c && ChainLinks(others[..], ch)
    modifies codesize
    ensures codesize[..] == Bump(old(codesize[..]), ch)
    ensures last == ch[|ch| - 1]
  {
    last := c;
    codesize[last] := codesize[last] + 1;
    ghost var k := 1;
    assert ch[..1] == [c] && ch[..0] == [];
    ghost var before, links := old(codesize[..]), others[..];
    assert codesize[..] == Bump(before, ch[..1]) by {
      assert Bump(before, []) == before;
      assert ch[..1][..0] == [];
    }
    while others[last] >= 0
      invariant 1 <= k <= |ch| && last == ch[k - 1]
      invariant codesize[..] == Bump(before, ch[..k])
      invariant others[..] == links
      decreases |ch| - k
    {
      assert others[last] == links[ch[k - 1]];
      last := others[last];
      codesize[last] := codesize[last] + 1;
      assert ch[..k + 1][..k] == ch[..k];
      k := k + 1;
    }
    assert others[last] == links[ch[k - 1]];
    assert ch[..k] == ch;
  }

  // The counts with the pseudo-symbol that keeps the all-ones code word free.
  function WithPseudo(freq: seq<nat>): seq<nat>
    requires |freq| == 257
  {
    freq[PSEUDO := 1]
  }

  lemma LinksStart(orig: seq<nat>, others: seq<int>)
    requires |orig| == |others| && forall i | 0 <= i < |others| :: others[i] == -1
    ensures Links(others, Start(orig))
  {
  }

  lemma LinksMerge(orig: seq<nat>, f: Forest, others: seq<int>, a: nat, b: nat)
    requires Shape(orig, f) && TwoLeast(f.freq, a, b) && Links(others, f)
    ensures f.chain[a] != [] && f.chain[a][|f.chain[a]| - 1] < |others|
    ensures Links(others[f.chain[a][|f.chain[a]| - 1] := b], Merge(orig, f, a, b))
  {
    var ca, cb := f.chain[a], f.chain[b];
    assert Chain(orig, f, a) && Chain(orig, f, b);
    assert ChainLinks(others, ca) && ChainLinks(others, cb);
    var last := ca[|ca| - 1];
    assert last in ca;
    var others', g := others[last := b], Merge(orig, f, a, b);
    forall c: nat | c < |orig|
      ensures ChainLinks(others', g.chain[c])
    {
      assert Chain(orig, f, c) && ChainLinks(others, f.chain[c]);
      if c == a {
        JoinLinks(others, ca, cb);
      } else if c != b {
        assert forall k | 0 <= k < |f.chain[c]| :: f.chain[c][k] in f.chain[c];
      }
    }
  }

  // The last link of ca now leads to cb.
  lemma JoinLinks(others: seq<int>, ca: seq<nat>, cb: seq<nat>)
    requires ca != [] && cb != [] && Distinct(ca) && (forall i: nat :: !(i in ca && i in cb))
    requires ChainLinks(others, ca) && ChainLinks(others, cb)
    ensures ca[|ca| - 1] < |others| && ChainLinks(others[ca[|ca| - 1] := cb[0]], ca + cb)
  {
    var last, others' := ca[|ca| - 1], others[ca[|ca| - 1] := cb[0]];
    forall k | 0 <= k < |ca + cb|
      ensures (ca + cb)[k] < |others'| && others'[(ca + cb)[k]] == if k + 1 < |ca + cb| then (ca + cb)[k + 1] else -1
    {
      if k >= |ca| {
        assert cb[k - |ca|] in cb && last in ca;
        assert others[cb[k - |ca|]] == if k - |ca| + 1 < |cb| then cb[k - |ca| + 1] else -1;
      } else if k < |ca| - 1 {
        assert ca[k] != ca[|ca| - 1] && others[ca[k]] == ca[k + 1];
      }
    }
  }

  // One round of the merge loop: c2's branch joins c1's.
  method MergePair(freq: array<nat>, codesize: array<nat>, others: array<int>, c1: nat, c2: nat,
                   ghost orig: seq<nat>, ghost f: Forest)
    requires freq.Length == codesize.Length == others.Length == 257 == |orig|
    requires freq != codesize && codesize as object != others && freq as object != others
    requires Shape(orig, f) && TwoLeast(f.freq, c1, c2) && Links(others[..], f)
    requires codesize[..] == f.size && freq[..] == f.freq
    modifies freq, codesize, others
    ensures Shape(orig, Merge(orig, f, c1, c2)) && Links(others[..], Merge(orig, f, c1, c2))
    ensures codesize[..] == Merge(orig, f, c1, c2).size && freq[..] == Merge(orig, f, c1, c2).freq
  {
    LinksMerge(orig, f, others[..], c1, c2);
    ShapeMerge(orig, f, c1, c2);
    ghost var ca, cb, links := f.chain[c1], f.chain[c2], others[..];
    assert Chain(orig, f, c1) && Chain(orig, f, c2) && ChainLinks(links, ca) && ChainLinks(links, cb);
    freq[c1] := freq[c1] + freq[c2];
    freq[c2] := 0;
    assert freq[..] == Merged(f.freq, c1, c2);
    assert others[..] == links;
    var last := Lengthen(codesize, others, c1, ca);
    others[last] := c2;
    assert others[..] == links[last := c2];
    assert ChainLinks(others[..], cb) by {
      assert last in ca;
      assert forall i | 0 <= i < |cb| :: cb[i] in cb;
    }
    var _ := Lengthen(codesize, others, c2, cb);
  }

  ghost function Roots(freq: seq<nat>): set<nat> {
    set i: nat | i < |freq| && freq[i] != 0
  }

  lemma MergedRoots(freq: seq<nat>, a: nat, b: nat)
    requires TwoLeast(freq, a, b)
    ensures Roots(Merged(freq, a, b)) < Roots(freq)
  {
    assert b in Roots(freq) && b !in Roots(Merged(freq, a, b));
  }

  // One round: search twice, then merge unless the second search failed.
  method Round(freq: array<nat>, codesize: array<nat>, others: array<int>,
               ghost orig: seq<nat>, ghost f: Forest, ghost k: int)
    returns (more: bool, ghost f': Forest, ghost k': int)
    requires freq.Length == codesize.Length == others.Length == 257 == |orig|
    requires freq != codesize && codesize as object != others && freq as object != others
    requires Good(orig, f, k, PSEUDO) && Links(others[..], f)
    requires codesize[..] == f.size && freq[..] == f.freq
    modifies freq, codesize, others
    ensures Good(orig, f', k', PSEUDO) && Links(others[..], f')
    ensures codesize[..] == f'.size && freq[..] == f'.freq
    ensures if more then Roots(f'.freq) < Roots(f.freq) else Exhausted(f'.freq)
  {
    var c1 := FindLeast(freq, -1);
    var c2 := FindLeast(freq, c1);
    if c2 < 0 {
      FoundOne(f.freq, c1, c2);
      return false, f, k;
    }
    FoundTwo(f.freq, c1, c2);
    GoodMerge(orig, f, k, PSEUDO, c1, c2);
    MergedRoots(f.freq, c1, c2);
    MergePair(freq, codesize, others, c1, c2, orig, f);
    return true, Merge(orig, f, c1, c2), k + f.freq[c1] + f.freq[c2];
  }

  // Huffman's procedure. When it stops, at most one count is still small enough
  // to be found.
  method BuildCodeSizes(freq: array<nat>) returns (codesize: array<nat>, ghost f: Forest, ghost k: int)
    requires freq.Length == 257
    modifies freq
    ensures fresh(codesize) && codesize.Length == 257
    ensures Good(WithPseudo(old(freq[..])), f, k, PSEUDO)
    ensures codesize[..] == f.size
    ensures Exhausted(f.freq)
  {
    codesize := new nat[257](_ => 0);
    var others := new int[257](_ => -1);
    freq[PSEUDO] := 1;
    ghost var orig := freq[..];
    f, k := Start(orig), 0;
    GoodStart(orig, PSEUDO);
    LinksStart(orig, others[..]);
    var more := true;
    while more
      invariant Good(orig, f, k, PSEUDO) && Links(others[..], f)
      invariant codesize[..] == f.size && freq[..] == f.freq
      invariant more || Exhausted(f.freq)
      decreases more, Roots(f.freq)
    {
      more, f, k := Round(freq, codesize, others, orig, f, k);
    }
  }

  // ----- what the merge loop leaves behind -----

  // The lengths of an optimal prefix code for the counts w: Kraft sum exactly 1,
  // no cheaper code, no word longer than the total count permits, and none
  // longer than that of the pseudo-symbol.
  ghost predicate HuffmanLengths(w: seq<nat>, size: seq<nat>) {
    && |w| == |size| == 257
    && (forall i | 0 <= i < 257 :: w[i] == 0 <==> size[i] == 0)
    && (forall m {:trigger Fits(w, size, m)} | Fits(w, size, m) :: Kraft(w, size, m) == Pow2(m))
    && Optimal(w, size)
    && (forall i | 0 <= i < 257 && w[i] != 0 :: Fib(size[i] + 2) <= Sum(w))
    && (forall i | 0 <= i < 257 :: size[i] <= size[PSEUDO])
  }

  lemma SingleBranch(w: seq<nat>, f: Forest, k: int)
    requires |w| == 257 && Good(w, f, k, PSEUDO) && Exhausted(f.freq) && Sum(w) <= TOO_BIG + 1
    ensures Finished(f.freq, f.owner[PSEUDO])
  {
    var r := f.owner[PSEUDO];
    RootOfUsed(w, f, PSEUDO);
    forall c: nat | c < 257 && c != r
      ensures f.freq[c] == 0
    {
      SumAtLeastTwo(f.freq, c, r);
    }
  }

  lemma UsedHaveWords(w: seq<nat>, size: seq<nat>, i: nat, j: nat)
    requires |w| == |size| && i < |w| && j < |w| && i != j && w[i] != 0 && w[j] != 0
    requires forall m {:trigger Fits(w, size, m)} | Fits(w, size, m) :: Kraft(w, size, m) == Pow2(m)
    ensures size[i] > 0
  {
    var m := MaxOf(size);
    assert Fits(w, size, m);
    SumAtLeastTwo(KraftTerms(w, size, m), i, j);
  }

  lemma FinishedLengths(w: seq<nat>, f: Forest, k: int, s: nat)
    requires |w| == 257 && Good(w, f, k, PSEUDO) && Finished(f.freq, f.owner[PSEUDO])
    requires s < PSEUDO && w[s] != 0
    ensures HuffmanLengths(w, f.size)
  {
    var r := f.owner[PSEUDO];
    forall m | Fits(w, f.size, m)
      ensures Kraft(w, f.size, m) == Pow2(m)
    {
      FinishedKraft(w, f, r, m);
    }
    forall i | 0 <= i < 257 && w[i] != 0
      ensures f.size[i] > 0 && Fib(f.size[i] + 2) <= Sum(w)
    {
      UsedHaveWords(w, f.size, i, if i == s then PSEUDO else s);
      FinishedDepth(w, f, k, r, i);
    }
    WeighedOptimal(w, f, k);
  }

  // JERR_HUFF_CLEN_OVERFLOW needs a total count of at least Fib(35) = 9227465.
  lemma NoOverflow(w: seq<nat>, size: seq<nat>)
    requires HuffmanLengths(w, size) && Sum(w) < 9_227_465
    ensures CL.Short(size)
  {
    assert Fib(9) == 34 && Fib(10) == 55;
    assert Fib(15) == 610 && Fib(16) == 987;
    assert Fib(21) == 10_946 && Fib(22) == 17_711;
    assert Fib(27) == 196_418 && Fib(28) == 317_811;
    assert Fib(33) == 3_524_578 && Fib(34) == 5_702_887;
    forall i | 0 <= i < 257
      ensures size[i] <= CL.MAX_CLEN
    {
      if size[i] >= 33 {
        FibMono(35, size[i] + 2);
      }
    }
  }

  // ----- from the lengths to the table -----

  lemma {:induction false} SupportSame(a: seq<nat>, b: seq<nat>, n: nat)
    requires n <= |a| && n <= |b| && forall i | 0 <= i < n :: a[i] == 0 <==> b[i] == 0
    ensures CL.Support(a, n) == CL.Support(b, n)
  {
    if n > 0 {
      SupportSame(a, b, n - 1);
    }
  }

  // With fewer than 256 symbols no 8-bit counter wraps around.
  lemma CountsAreHist(w: seq<nat>, size: seq<nat>)
    requires HuffmanLengths(w, size) && CL.Short(size) && CL.Support(w, 257) <= 255
    ensures CL.Full(CL.Hist(size, 257), CL.MAX_CLEN)
    ensures Upto(CL.Hist(size, 257), CL.MAX_CLEN) == CL.Support(w, 257)
    ensures forall l | 0 <= l <= CL.MAX_CLEN :: CL.Hist(size, 257)[l] <= 255
  {
    var h := CL.Hist(size, 257);
    CL.HistSupport(size, 257);
    CL.HistKraft(w, size, 257);
    SupportSame(w, size, 257);
    var t := KraftTerms(w, size, CL.MAX_CLEN);
    assert t[..257] == t;
    assert Fits(w, size, CL.MAX_CLEN);
    forall l | 0 <= l <= CL.MAX_CLEN
      ensures h[l] <= 255
    {
      if l > 0 {
        CL.UptoBounds(h, l, CL.MAX_CLEN);
      }
    }
  }

  ghost predicate Dropped(full: seq<nat>, l: nat, bits: seq<nat>) {
    && |full| == CL.MAX_CLEN + 1 && CL.WithinLimit(full) && CL.Largest(full, l)
    && bits == CL.AddAt(full, l, -1)[..17]
  }

  lemma NoWrap(w: seq<nat>, size: seq<nat>, b: seq<nat>)
    requires HuffmanLengths(w, size) && CL.Short(size) && CL.Support(w, 257) <= 255 && |b| == CL.MAX_CLEN + 1
    requires forall l | 0 <= l <= CL.MAX_CLEN :: b[l] == CL.Hist(size, 257)[l] % 256
    ensures b == CL.Hist(size, 257)
  {
    hide CL.Hist, CL.Support, HuffmanLengths;
    CountsAreHist(w, size);
  }

  // The table t assigns words to exactly the real symbols that have a code length.
  ghost predicate TableFor(size: seq<nat>, t: HuffTbl) {
    && |size| == 257 && CL.Short(size) && WellTyped(t) && Legal(t.bits)
    // the numbers of words of each length come from the optimal ones by the
    // adjustments of section K.2, less one word of the greatest length
    && (exists moves, full, l :: CL.Leads(CL.Hist(size, 257), moves, full) && Dropped(full, l, t.bits))
    && var list := CL.Listed(size, CL.MAX_CLEN);
    && |list| == Upto(t.bits, 16)
    && list <= t.huffval
    // without words of more than 16 bits the table has the lengths of the optimal code
    && (size[PSEUDO] <= 16 ==> forall p | 0 <= p < |list| :: size[t.huffval[p]] == LenOf(t.bits, p))
  }

  lemma {:induction false} HistAbove(size: seq<nat>, n: nat, l: nat)
    requires n <= |size| && CL.Short(size) && l <= CL.MAX_CLEN && forall i | 0 <= i < n :: size[i] < l
    ensures CL.Hist(size, n)[l] == 0
  {
    if n > 0 {
      HistAbove(size, n - 1, l);
    }
  }

  // If no word is too long, dropping the pseudo-symbol leaves the counts of the real symbols.
  lemma DroppedCounts(size: seq<nat>, l: nat)
    requires |size| == 257 && CL.Short(size) && size[PSEUDO] > 0
    requires forall i | 0 <= i < 257 :: size[i] <= size[PSEUDO]
    requires CL.Largest(CL.Hist(size, 257), l)
    ensures CL.AddAt(CL.Hist(size, 257), l, -1) == CL.Hist(size, 256)
  {
    var g, h, top := CL.Hist(size, 256), CL.Hist(size, 257), size[PSEUDO];
    assert h == g[top := g[top] + 1] && h[top] > 0;
    if l > top {
      HistAbove(size, 257, l);
    }
    assert l == top;
  }

  lemma DroppedLengths(size: seq<nat>, bits: seq<nat>, p: nat)
    requires |size| == 257 && CL.Short(size) && (forall i | 0 <= i < 257 :: size[i] <= 16)
    requires bits == CL.Hist(size, 256)[..17] && p < Upto(bits, 16)
    ensures p < |CL.Listed(size, CL.MAX_CLEN)| && CL.Listed(size, CL.MAX_CLEN)[p] < 256
    ensures size[CL.Listed(size, CL.MAX_CLEN)[p]] == LenOf(bits, p)
  {
    var h, l := CL.Hist(size, 256), LenOf(bits, p);
    CL.UsedPrefix(h, 17, l - 1);
    CL.UsedPrefix(h, 17, l);
    CL.ListedLength(size, p, l);
  }

  lemma ListCovers(w: seq<nat>, size: seq<nat>)
    requires HuffmanLengths(w, size) && CL.Short(size)
    ensures |CL.Listed(size, CL.MAX_CLEN)| == CL.Support(w, 256)
  {
    CL.ListedCount(size, CL.MAX_CLEN);
    HistPrefix(size, 256);
    CL.HistSupport(size[..256], 256);
    SupportSame(w, size[..256], 256);
  }

  lemma {:induction false} HistPrefix(size: seq<nat>, n: nat)
    requires n <= 256 < |size| && CL.Short(size)
    ensures CL.Short(size[..256]) && CL.Hist(size[..256], n) == CL.Hist(size, n)
  {
    if n > 0 {
      HistPrefix(size, n - 1);
    }
  }

  lemma FullWithin(b: seq<nat>)
    requires CL.Full(b, 16)
    ensures |b| == CL.MAX_CLEN + 1 && b[0] == 0 && CL.WithinLimit(b)
  {
  }

  // Limiting and dropping, on the counters.
  method FinishBits(bits: array<nat>, ghost w: seq<nat>, ghost size: seq<nat>)
    returns (ghost moves: seq<CL.Move>, ghost full: seq<nat>, ghost l: nat)
    requires HuffmanLengths(w, size) && CL.Short(size) && w[PSEUDO] != 0
    requires CL.Support(w, 257) <= 255 && bits[..] == CL.Hist(size, 257)
    modifies bits
    ensures bits.Length == CL.MAX_CLEN + 1 && Legal(bits[..17])
    ensures Upto(bits[..17], 16) == CL.Support(w, 257) - 1
    ensures forall l | 0 <= l < 17 :: bits[l] < 256
    ensures size[PSEUDO] <= 16 ==> bits[..] == CL.Hist(size, 256)
    ensures CL.Leads(CL.Hist(size, 257), moves, full) && Dropped(full, l, bits[..17])
  {
    hide CL.Hist, CL.Support, Legal, Used, CL.Full, CL.Largest, CL.Leads;
    CountsAreHist(w, size);
    if size[PSEUDO] <= 16 {
      forall l | 16 < l <= CL.MAX_CLEN
        ensures bits[..][l] == 0
      {
        HistAbove(size, 257, l);
      }
    }
    moves := CL.LimitLengths(bits);
    full := bits[..];
    FullWithin(full);
    l := CL.DropPseudo(bits);
    CL.DropLegal(full, l);
    assert bits[..17] == bits[..][..17];
    forall l | 1 <= l < 17
      ensures bits[l] < 256
    {
      CL.UptoBounds(bits[..17], l, 16);
    }
    if size[PSEUDO] <= 16 {
      DroppedCounts(size, l);
    }
  }

  // The code lengths for the counts freq[0..255] and the pseudo-symbol.
  method OptimalSizes(freq: array<nat>) returns (codesize: array<nat>)
    requires freq.Length == 257
    requires 1 <= CL.Support(freq[..], 256) && Sum(WithPseudo(freq[..])) <= TOO_BIG + 1
    modifies freq
    ensures fresh(codesize) && HuffmanLengths(WithPseudo(old(freq[..])), codesize[..])
  {
    ghost var w := WithPseudo(freq[..]);
    ghost var s := SomeUsed(freq[..], 256);
    ghost var f, k;
    codesize, f, k := BuildCodeSizes(freq);
    SingleBranch(w, f, k);
    FinishedLengths(w, f, k, s);
  }

  // The table for given code lengths of at most 32 bits.
  method TableFromSizes(prior: HuffTbl, codesize: array<nat>, ghost w: seq<nat>) returns (r: Result<HuffTbl>)
    requires WellTyped(prior) && HuffmanLengths(w, codesize[..]) && w[PSEUDO] != 0
    requires CL.Support(w, 256) <= 254
    ensures if CL.Short(codesize[..]) then r.Ok? else r == Err(HuffClenOverflow)
    ensures r.Ok? ==> TableFor(codesize[..], r.value) && Upto(r.value.bits, 16) == CL.Support(w, 256)
  {
    hide CL.Hist, CL.Listed, Legal, Upto, TableFor, CL.Leads, Dropped;
    ghost var size := codesize[..];
    var ok, bits := CL.CountLengths(codesize);
    if !ok {
      return Err(HuffClenOverflow);
    }
    NoWrap(w, size, bits[..]);
    ghost var moves, full, l := FinishBits(bits, w, size);
    ListCovers(w, size);
    var huffval := new nat[256](i requires 0 <= i < 256 => prior.huffval[i]);
    var p := CL.ListSymbols(codesize, huffval);
    r := Ok(HuffTbl(bits[..17], huffval[..]));
    MakesTable(w, size, r.value, prior.huffval, moves, full, l);
  }

  // Builds the Huffman table for the counts freq[0..255]. The arguments: at
  // least one symbol and at most 254 occur, and their total is one the search
  // loops can see. (prior is the content that htbl had before the call.)
  method GenOptimalTable(prior: HuffTbl, freq: array<nat>) returns (r: Result<HuffTbl>, ghost size: seq<nat>)
    requires WellTyped(prior) && freq.Length == 257
    requires 1 <= CL.Support(freq[..], 256) <= 254 && Sum(WithPseudo(freq[..])) <= TOO_BIG + 1
    modifies freq
    ensures HuffmanLengths(WithPseudo(old(freq[..])), size)
    ensures if CL.Short(size) then r.Ok? else r == Err(HuffClenOverflow)
    ensures r.Ok? ==> TableFor(size, r.value) && Upto(r.value.bits, 16) == CL.Support(old(freq[..]), 256)
  {
    ghost var w := WithPseudo(freq[..]);
    SupportSame(freq[..], w, 256);
    var codesize := OptimalSizes(freq);
    size := codesize[..];
    r := TableFromSizes(prior, codesize, w);
  }

  lemma MakesTable(w: seq<nat>, size: seq<nat>, t: HuffTbl, prior: seq<nat>, moves: seq<CL.Move>, full: seq<nat>,
                   l: nat)
    requires HuffmanLengths(w, size) && CL.Short(size)
    requires |prior| == 256 && forall p | 0 <= p < 256 :: prior[p] < 256
    requires Legal(t.bits) && Upto(t.bits, 16) == |CL.Listed(size, CL.MAX_CLEN)| <= 254
    requires t.huffval == CL.Listed(size, CL.MAX_CLEN) + prior[|CL.Listed(size, CL.MAX_CLEN)|..]
    requires size[PSEUDO] <= 16 ==> t.bits == CL.Hist(size, 256)[..17]
    requires forall l | 0 <= l < 17 :: t.bits[l] < 256
    requires CL.Leads(CL.Hist(size, 257), moves, full) && Dropped(full, l, t.bits)
    ensures TableFor(size, t)
  {
    hide CL.Leads, CL.Hist, Dropped;
    var list := CL.Listed(size, CL.MAX_CLEN);
    CL.ListedSpec(size, CL.MAX_CLEN);
    forall p | 0 <= p < 256
      ensures t.huffval[p] < 256
    {
      if p < |list| {
        assert list[p] in list;
      }
    }
    if size[PSEUDO] <= 16 {
      forall p | 0 <= p < |list|
        ensures size[t.huffval[p]] == LenOf(t.bits, p)
      {
        DroppedLengths(size, t.bits, p);
      }
    }
  }

  lemma {:induction false} SomeUsed(s: seq<nat>, n: nat) returns (i: nat)
    requires n <= |s| && CL.Support(s, n) >= 1
    ensures i < n && s[i] != 0
  {
    if s[n - 1] != 0 {
      i := n - 1;
    } else {
      i := SomeUsed(s, n - 1);
    }
  }
}
