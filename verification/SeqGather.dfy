// The statistics pass of the sequential encoder (htest_one_block,
// encode_mcu_gather of jchuff.c): it must count what the output pass emits.
module SeqGather {
  import opened Arith
  import opened Tokens
  import opened Blocks
  import opened SeqCodec
  import opened McuCodec
  import opened SeqEncoder

  // ----- counting the symbols of a block -----

  // Counts of table ref grow by the symbols in toks.
  ghost predicate Grown(before: seq<nat>, after: seq<nat>, toks: seq<Token>, ref: TblRef) {
    && |before| == |after| == 257
    && forall s: nat | s < 257 :: after[s] == before[s] + Count(toks, ref, s)
  }

  // after and what is still to be counted make up the same totals as before and all of it.
  ghost predicate Remaining(before: seq<nat>, toks: seq<Token>, after: seq<nat>, more: seq<Token>, ref: TblRef) {
    && |before| == |after| == 257
    && forall s: nat | s < 257 :: after[s] + Count(more, ref, s) == before[s] + Count(toks, ref, s)
  }

  lemma RemainingStart(a: seq<nat>, toks: seq<Token>, ref: TblRef)
    requires |a| == 257
    ensures Remaining(a, toks, a, toks, ref)
  {
  }

  lemma RemainingEnd(before: seq<nat>, toks: seq<Token>, after: seq<nat>, ref: TblRef)
    requires Remaining(before, toks, after, [], ref)
    ensures Grown(before, after, toks, ref)
  {
  }

  // Counting the next symbol.
  lemma RemainingNext(before: seq<nat>, toks: seq<Token>, after: seq<nat>, s: nat, more: seq<Token>, ref: TblRef)
    requires Remaining(before, toks, after, [Sym(ref, s)] + more, ref) && s < 257
    ensures Remaining(before, toks, after[s := after[s] + 1], more, ref)
  {
    assert ([Sym(ref, s)] + more)[1..] == more;
    forall u: nat | u < 257
      ensures Count([Sym(ref, s)] + more, ref, u) == (if u == s then 1 else 0) + Count(more, ref, u)
    {
    }
  }

  // Raw bits are not counted.
  lemma RemainingRaw(before: seq<nat>, toks: seq<Token>, after: seq<nat>, v: int, n: nat, more: seq<Token>, ref: TblRef)
    requires Remaining(before, toks, after, [Raw(v, n)] + more, ref)
    ensures Remaining(before, toks, after, more, ref)
  {
    assert ([Raw(v, n)] + more)[1..] == more;
    forall u: nat | u < 257
      ensures Count([Raw(v, n)] + more, ref, u) == Count(more, ref, u)
    {
    }
  }

  // The DC part of htest_one_block.
  method CountDc(diff: int, tbl: nat, dc_counts: array<nat>) returns (ok: bool)
    requires dc_counts.Length == 257
    modifies dc_counts
    ensures ok <==> NBits(Abs(diff)) <= MAX_COEF_BITS + 1
    ensures ok ==> Grown(old(dc_counts[..]), dc_counts[..], DcTokens(diff, tbl), DC(tbl))
  {
    var nbits := CountBits(if diff < 0 then -diff else diff);
    if nbits > MAX_COEF_BITS + 1 {
      return false;
    }
    ghost var a, toks := dc_counts[..], DcTokens(diff, tbl);
    ghost var more := if nbits == 0 then [] else [Raw(Coded(diff), nbits)];
    RemainingStart(a, toks, DC(tbl));
    RemainingNext(a, toks, a, nbits, more, DC(tbl));
    dc_counts[nbits] := dc_counts[nbits] + 1;
    assert dc_counts[..] == a[nbits := a[nbits] + 1];
    if nbits != 0 {
      assert more == more + [];
      RemainingRaw(a, toks, dc_counts[..], Coded(diff), nbits, [], DC(tbl));
    }
    RemainingEnd(a, toks, dc_counts[..], DC(tbl));
    return true;
  }

  lemma ValueTokensSplit(v: int, r: nat, tbl: nat, more: seq<Token>)
    ensures r > 15 ==> ValueTokens(v, r, tbl) + more == [Sym(AC(tbl), 0xF0)] + (ValueTokens(v, r - 16, tbl) + more)
    ensures r <= 15 ==>
      ValueTokens(v, r, tbl) + more == [Sym(AC(tbl), 16 * r + NBits(Abs(v)))] + ([Raw(Coded(v), NBits(Abs(v)))] + more)
  {
  }

  // A nonzero coefficient after a run of r0 zeros. (before and toks: what is being counted in all.)
  method CountCoef(v: Coef, r0: nat, tbl: nat, ac_counts: array<nat>,
                   ghost before: seq<nat>, ghost toks: seq<Token>, ghost more: seq<Token>) returns (ok: bool)
    requires ac_counts.Length == 257 && v != 0
    requires Remaining(before, toks, ac_counts[..], ValueTokens(v, r0, tbl) + more, AC(tbl))
    modifies ac_counts
    ensures ok <==> NBits(Abs(v)) <= MAX_COEF_BITS
    ensures ok ==> Remaining(before, toks, ac_counts[..], more, AC(tbl))
  {
    hide *;
    Limits();
    var r: nat := r0;
    while r > 15
      invariant Remaining(before, toks, ac_counts[..], ValueTokens(v, r, tbl) + more, AC(tbl))
    {
      ValueTokensSplit(v, r, tbl, more);
      RemainingNext(before, toks, ac_counts[..], 0xF0, ValueTokens(v, r - 16, tbl) + more, AC(tbl));
      ghost var was := ac_counts[..];
      ac_counts[0xF0] := ac_counts[0xF0] + 1;
      assert ac_counts[..] == was[0xF0 := was[0xF0] + 1];
      r := r - 16;
    }
    var temp, temp2 := Magnitude(v);
    var nbits := CountBits(temp);
    if nbits > MAX_COEF_BITS {
      return false;
    }
    ValueTokensSplit(v, r, tbl, more);
    ghost var was := ac_counts[..];
    RemainingNext(before, toks, was, 16 * r + nbits, [Raw(Coded(v), nbits)] + more, AC(tbl));
    ac_counts[16 * r + nbits] := ac_counts[16 * r + nbits] + 1;
    assert ac_counts[..] == was[16 * r + nbits := was[16 * r + nbits] + 1];
    RemainingRaw(before, toks, ac_counts[..], Coded(v), nbits, more, AC(tbl));
    return true;
  }

  lemma AcTokensSplit(z: Block, k: nat, r: nat, tbl: nat)
    requires |z| == DCTSIZE2 && k <= DCTSIZE2
    ensures k == DCTSIZE2 ==> AcTokens(z, k, r, tbl) == if r > 0 then [Sym(AC(tbl), 0)] + [] else []
    ensures k < DCTSIZE2 && z[k] == 0 ==> AcTokens(z, k, r, tbl) == AcTokens(z, k + 1, r + 1, tbl)
    ensures k < DCTSIZE2 && z[k] != 0 ==>
      AcTokens(z, k, r, tbl) == ValueTokens(z[k], r, tbl) + AcTokens(z, k + 1, 0, tbl)
  {
    if k < DCTSIZE2 && z[k] != 0 {
      AcTokensValue(z, k, r, tbl);
    }
  }

  // The AC part of htest_one_block.
  method CountAc(block: Block, tbl: nat, ac_counts: array<nat>) returns (ok: bool)
    requires ac_counts.Length == 257 && |block| == DCTSIZE2
    modifies ac_counts
    ensures ok <==> AcInRange(Reorder(block))
    ensures ok ==> Grown(old(ac_counts[..]), ac_counts[..], AcTokens(Reorder(block), 1, 0, tbl), AC(tbl))
  {
    hide *;
    Limits();
    ghost var z, before := Reorder(block), ac_counts[..];
    ghost var toks := AcTokens(z, 1, 0, tbl);
    InRangeEnds(z);
    RemainingStart(before, toks, AC(tbl));
    var r := 0;
    for k := 1 to DCTSIZE2
      invariant Remaining(before, toks, ac_counts[..], AcTokens(z, k, r, tbl), AC(tbl))
      invariant InRangeBelow(z, k)
    {
      AcTokensSplit(z, k, r, tbl);
      InRangeNext(z, k);
      var temp := block[Natural(k)];
      if temp == 0 {
        r := r + 1;
      } else {
        ok := CountCoef(temp, r, tbl, ac_counts, before, toks, AcTokens(z, k + 1, 0, tbl));
        if !ok {
          return;
        }
        r := 0;
      }
    }
    AcTokensSplit(z, DCTSIZE2, r, tbl);
    ghost var was := ac_counts[..];
    if r > 0 {
      RemainingNext(before, toks, was, 0, [], AC(tbl));
      ac_counts[0] := ac_counts[0] + 1;
      assert ac_counts[..] == was[0 := was[0] + 1];
    }
    RemainingEnd(before, toks, ac_counts[..], AC(tbl));
    return true;
  }

  // htest_one_block
  method CountOneBlock(block: Block, last: int, dctbl: nat, actbl: nat, dc_counts: array<nat>, ac_counts: array<nat>)
    returns (ok: bool)
    requires dc_counts.Length == ac_counts.Length == 257 && dc_counts != ac_counts && |block| == DCTSIZE2
    modifies dc_counts, ac_counts
    ensures ok <==> InRange(Reorder(block), last)
    ensures ok ==> Grown(old(dc_counts[..]), dc_counts[..], DcTokens(Reorder(block)[0] - last, dctbl), DC(dctbl))
    ensures ok ==> Grown(old(ac_counts[..]), ac_counts[..], AcTokens(Reorder(block), 1, 0, actbl), AC(actbl))
  {
    hide *;
    Limits();
    FirstOfZigzag(block);
    BlockTokensAre(Reorder(block), last, dctbl, actbl, []);
    ok := CountDc(block[0] - last, dctbl, dc_counts);
    if ok {
      ok := CountAc(block, actbl, ac_counts);
    }
  }

  // ----- a whole pass -----

  // What a pass over MCUs has gone through: the DC predictions, the restart
  // counter and the tokens sent.
  datatype Gathered = Gathered(last: seq<int>, restarts_to_go: nat, toks: seq<Token>)

  predicate ValidMcus(scan: Scan, mcus: seq<Mcu>, n: nat)
    requires n <= |mcus|
  {
    ValidScan(scan) && forall i | 0 <= i < n :: ValidMcu(scan, mcus[i])
  }

  function AtRestart(scan: Scan, g: Gathered): Gathered {
    if scan.restart_interval != 0 && g.restarts_to_go == 0
    then Gathered(NoPredictions(scan), scan.restart_interval, g.toks) else g
  }

  predicate ValidGathered(scan: Scan, g: Gathered) {
    |g.last| == |scan.comps| && g.restarts_to_go <= scan.restart_interval
  }

  function AfterGather(scan: Scan, g: Gathered, mcu: Mcu): (r: Gathered)
    requires ValidScan(scan) && ValidMcu(scan, mcu) && ValidGathered(scan, g)
    ensures ValidGathered(scan, r)
  {
    var g1 := AtRestart(scan, g);
    Gathered(Predictions(scan, g1.last, mcu, |mcu|),
             if scan.restart_interval != 0 then g1.restarts_to_go - 1 else g1.restarts_to_go,
             g1.toks + McuTokens(scan, g1.last, mcu, |mcu|))
  }

  function GatherAt(scan: Scan, mcus: seq<Mcu>, n: nat): (r: Gathered)
    requires n <= |mcus| && ValidMcus(scan, mcus, n)
    ensures ValidGathered(scan, r)
  {
    if n == 0 then Gathered(NoPredictions(scan), scan.restart_interval, [])
    else AfterGather(scan, GatherAt(scan, mcus, n - 1), mcus[n - 1])
  }

  // The coefficients of the first n MCUs are all in range.
  predicate AllInRange(scan: Scan, mcus: seq<Mcu>, n: nat)
    requires n <= |mcus| && ValidMcus(scan, mcus, n)
  {
    n > 0 ==>
      && AllInRange(scan, mcus, n - 1)
      && McuInRange(scan, AtRestart(scan, GatherAt(scan, mcus, n - 1)).last, mcus[n - 1], |mcus[n - 1]|)
  }

  // The output pass sends exactly the tokens the statistics pass went through:
  // it succeeds if and only if these are in range and all have codes.
  lemma {:induction false} StatisticsAgree(scan: Scan, t: CTables, mcus: seq<Mcu>, n: nat)
    requires n <= |mcus| && ValidMcus(scan, mcus, n) && SaneTables(t)
    ensures AllEncodable(scan, t, mcus, n) <==>
      AllInRange(scan, mcus, n) && AllSendable(t, GatherAt(scan, mcus, n).toks)
    ensures AllEncodable(scan, t, mcus, n) ==>
      var s, g := StateAt(scan, t, mcus, n), GatherAt(scan, mcus, n);
      s.last == g.last && s.restarts_to_go == g.restarts_to_go
  {
    hide ValidScan, ValidMcu, SaneTables, McuTokens, McuInRange, Predictions, NoPredictions, TokensBits, AllSendable;
    if n > 0 {
      StatisticsAgree(scan, t, mcus, n - 1);
      var g1 := AtRestart(scan, GatherAt(scan, mcus, n - 1));
      AllSendableConcat(t, g1.toks, McuTokens(scan, g1.last, mcus[n - 1], |mcus[n - 1]|));
    } else {
      AllSendableNone(t);
    }
  }

  lemma AllSendableNone(t: CTables)
    requires SaneTables(t)
    ensures AllSendable(t, [])
  {
  }

  lemma AllSendableConcat(t: CTables, a: seq<Token>, b: seq<Token>)
    requires SaneTables(t)
    ensures AllSendable(t, a + b) <==> AllSendable(t, a) && AllSendable(t, b)
  {
    assert forall i | 0 <= i < |a| :: (a + b)[i] == a[i];
    assert forall i | 0 <= i < |b| :: (a + b)[|a| + i] == b[i];
  }

  // ----- the counting arrays -----

  ghost predicate Counted(a: seq<nat>, toks: seq<Token>, ref: TblRef) {
    |a| == 257 && forall s: nat | s < 257 :: a[s] == Count(toks, ref, s)
  }

  ghost predicate AllCounted(dc: seq<seq<nat>>, ac: seq<seq<nat>>, toks: seq<Token>) {
    && |dc| == |ac| == NUM_HUFF_TBLS
    && forall i | 0 <= i < NUM_HUFF_TBLS :: Counted(dc[i], toks, DC(i)) && Counted(ac[i], toks, AC(i))
  }

  lemma {:induction false} NoneCounted(toks: seq<Token>, ref: TblRef, s: nat)
    requires forall i | 0 <= i < |toks| :: toks[i] != Sym(ref, s)
    ensures Count(toks, ref, s) == 0
  {
    if toks != [] {
      NoneCounted(toks[1..], ref, s);
    }
  }

  lemma CountedMore(a: seq<nat>, b: seq<nat>, toks: seq<Token>, more: seq<Token>, ref: TblRef)
    requires Counted(a, toks, ref) && Grown(a, b, more, ref)
    ensures Counted(b, toks + more, ref)
  {
    forall s: nat | s < 257
      ensures b[s] == Count(toks + more, ref, s)
    {
      CountConcat(toks, more, ref, s);
    }
  }

  lemma CountedSame(a: seq<nat>, toks: seq<Token>, more: seq<Token>, ref: TblRef)
    requires Counted(a, toks, ref) && forall i | 0 <= i < |more| :: more[i].Sym? ==> more[i].tbl != ref
    ensures Counted(a, toks + more, ref)
  {
    forall s: nat | s < 257
      ensures a[s] == Count(toks + more, ref, s)
    {
      CountConcat(toks, more, ref, s);
      NoneCounted(more, ref, s);
    }
  }

  ghost predicate RefersOnly(toks: seq<Token>, ref: TblRef) {
    forall i | 0 <= i < |toks| :: toks[i].Sym? ==> toks[i].tbl == ref
  }

  lemma {:induction false} AcTokensRefs(z: Block, k: nat, r: nat, tbl: nat)
    requires |z| == DCTSIZE2 && k <= DCTSIZE2
    ensures RefersOnly(AcTokens(z, k, r, tbl), AC(tbl))
    decreases DCTSIZE2 - k, r
  {
    if k < DCTSIZE2 {
      if z[k] == 0 {
        assert AcTokens(z, k, r, tbl) == AcTokens(z, k + 1, r + 1, tbl);
        AcTokensRefs(z, k + 1, r + 1, tbl);
      } else if r > 15 {
        assert AcTokens(z, k, r, tbl) == [Sym(AC(tbl), 0xF0)] + AcTokens(z, k, r - 16, tbl);
        AcTokensRefs(z, k, r - 16, tbl);
      } else {
        var n := NBits(Abs(z[k]));
        assert AcTokens(z, k, r, tbl) == [Sym(AC(tbl), 16 * r + n)]
            + ([Raw(Coded(z[k]), n)] + AcTokens(z, k + 1, 0, tbl));
        AcTokensRefs(z, k + 1, 0, tbl);
      }
    }
  }

  lemma CountedBlock(dc: seq<seq<nat>>, ac: seq<seq<nat>>, toks: seq<Token>, a: seq<nat>, b: seq<nat>,
                     z: Block, last: int, dctbl: nat, actbl: nat)
    requires AllCounted(dc, ac, toks) && dctbl < NUM_HUFF_TBLS && actbl < NUM_HUFF_TBLS && |z| == DCTSIZE2
    requires Grown(dc[dctbl], a, DcTokens(z[0] - last, dctbl), DC(dctbl))
    requires Grown(ac[actbl], b, AcTokens(z, 1, 0, actbl), AC(actbl))
    ensures AllCounted(dc[dctbl := a], ac[actbl := b], toks + BlockTokens(z, last, dctbl, actbl))
  {
    hide AcTokens, DcTokens, Counted, Grown;
    var d, c := DcTokens(z[0] - last, dctbl), AcTokens(z, 1, 0, actbl);
    AcTokensRefs(z, 1, 0, actbl);
    DcTokensRefs(z[0] - last, dctbl);
    assert toks + BlockTokens(z, last, dctbl, actbl) == toks + d + c;
    forall i: nat | i < NUM_HUFF_TBLS
      ensures Counted(dc[dctbl := a][i], toks + d + c, DC(i)) && Counted(ac[actbl := b][i], toks + d + c, AC(i))
    {
      if i == dctbl {
        CountedMore(dc[i], a, toks, d, DC(i));
      } else {
        CountedSame(dc[i], toks, d, DC(i));
      }
      CountedSame(dc[dctbl := a][i], toks + d, c, DC(i));
      CountedSame(ac[i], toks, d, AC(i));
      if i == actbl {
        CountedMore(ac[i], b, toks + d, c, AC(i));
      } else {
        CountedSame(ac[i], toks + d, c, AC(i));
      }
    }
  }

  lemma DcTokensRefs(diff: int, tbl: nat)
    ensures RefersOnly(DcTokens(diff, tbl), DC(tbl))
  {
  }

  ghost function Contents(arrays: seq<array<nat>>): (r: seq<seq<nat>>)
    reads arrays
    ensures |r| == |arrays| && forall i | 0 <= i < |arrays| :: r[i] == arrays[i][..]
  {
    seq(|arrays|, i requires 0 <= i < |arrays| reads arrays => arrays[i][..])
  }

  // Four arrays of 257 counters for each kind of table, all different.
  predicate Separate(dc: seq<array<nat>>, ac: seq<array<nat>>) {
    && |dc| == |ac| == NUM_HUFF_TBLS
    && (forall i, j | 0 <= i < NUM_HUFF_TBLS && 0 <= j < NUM_HUFF_TBLS :: dc[i] != ac[j])
    && (forall i, j | 0 <= i < j < NUM_HUFF_TBLS :: dc[i] != dc[j] && ac[i] != ac[j])
    && (forall i | 0 <= i < NUM_HUFF_TBLS :: dc[i].Length == ac[i].Length == 257)
  }

  method ZeroedCounts() returns (arrays: seq<array<nat>>)
    ensures |arrays| == NUM_HUFF_TBLS && fresh(arrays)
    ensures forall i | 0 <= i < NUM_HUFF_TBLS :: arrays[i].Length == 257 && forall s | 0 <= s < 257 :: arrays[i][s] == 0
    ensures forall i, j | 0 <= i < j < NUM_HUFF_TBLS :: arrays[i] != arrays[j]
  {
    arrays := [];
    while |arrays| < NUM_HUFF_TBLS
      invariant |arrays| <= NUM_HUFF_TBLS && fresh(arrays)
      invariant forall i | 0 <= i < |arrays| :: arrays[i].Length == 257 && forall s | 0 <= s < 257 :: arrays[i][s] == 0
      invariant forall i, j | 0 <= i < j < |arrays| :: arrays[i] != arrays[j]
    {
      var a := new nat[257](_ => 0);
      arrays := arrays + [a];
    }
  }

  // The statistics pass.
  class Gatherer {
    const scan: Scan
    const dc_count_ptrs: seq<array<nat>>
    const ac_count_ptrs: seq<array<nat>>
    var last_dc_val: seq<int>
    var restarts_to_go: nat
    ghost var toks: seq<Token>

    ghost function Abstract(): Gathered
      reads this
    {
      Gathered(last_dc_val, restarts_to_go, toks)
    }

    ghost predicate Valid()
      reads this, dc_count_ptrs, ac_count_ptrs
    {
      && ValidScan(scan) && ValidGathered(scan, Abstract()) && Separate(dc_count_ptrs, ac_count_ptrs)
      && AllCounted(Contents(dc_count_ptrs), Contents(ac_count_ptrs), toks)
    }

    // start_pass_huff
    constructor (scan: Scan)
      requires ValidScan(scan)
      ensures Valid() && Abstract() == Gathered(NoPredictions(scan), scan.restart_interval, [])
      ensures this.scan == scan && fresh(dc_count_ptrs) && fresh(ac_count_ptrs)
    {
      var dc := ZeroedCounts();
      var ac := ZeroedCounts();
      this.scan := scan;
      dc_count_ptrs, ac_count_ptrs := dc, ac;
      last_dc_val := NoPredictions(scan);
      restarts_to_go := scan.restart_interval;
      toks := [];
    }

    // One block of an MCU.
    method GatherBlock(block: Block, last: int, dctbl: nat, actbl: nat) returns (ok: bool)
      requires Valid() && dctbl < NUM_HUFF_TBLS && actbl < NUM_HUFF_TBLS && |block| == DCTSIZE2
      modifies this`toks, dc_count_ptrs, ac_count_ptrs
      ensures ok <==> InRange(Reorder(block), last)
      ensures ok ==> Valid() && toks == old(toks) + BlockTokens(Reorder(block), last, dctbl, actbl)
    {
      hide Counted, Grown, AllCounted, DcTokens, AcTokens, BlockTokens, ValidScan, InRange, AcInRange, Reorder, NBits;
      ghost var dc, ac, z := Contents(dc_count_ptrs), Contents(ac_count_ptrs), Reorder(block);
      ok := CountOneBlock(block, last, dctbl, actbl, dc_count_ptrs[dctbl], ac_count_ptrs[actbl]);
      if ok {
        CountedBlock(dc, ac, toks, dc_count_ptrs[dctbl][..], ac_count_ptrs[actbl][..], z, last, dctbl, actbl);
        assert Contents(dc_count_ptrs) == dc[dctbl := dc_count_ptrs[dctbl][..]];
        assert Contents(ac_count_ptrs) == ac[actbl := ac_count_ptrs[actbl][..]];
        toks := toks + BlockTokens(z, last, dctbl, actbl);
      }
    }

    lemma BlockOf(last: seq<int>, mcu: Mcu, n: nat)
      requires Valid() && ValidMcu(scan, mcu) && |last| == |scan.comps| && n < |mcu|
      ensures n < |scan.membership| && scan.membership[n] < |scan.comps| && |mcu[n]| == DCTSIZE2
      ensures var c := scan.comps[scan.membership[n]];
              && c.dc_tbl_no < NUM_HUFF_TBLS && c.ac_tbl_no < NUM_HUFF_TBLS
              && McuTokens(scan, last, mcu, n + 1) == McuTokens(scan, last, mcu, n)
                   + BlockTokens(Reorder(mcu[n]), Predictions(scan, last, mcu, n)[scan.membership[n]], c.dc_tbl_no,
                                 c.ac_tbl_no)
      ensures Predictions(scan, last, mcu, n + 1)
          == Predictions(scan, last, mcu, n)[scan.membership[n] := mcu[n][0] as int]
      ensures McuInRange(scan, last, mcu, n + 1) <==>
        McuInRange(scan, last, mcu, n) && InRange(Reorder(mcu[n]), Predictions(scan, last, mcu, n)[scan.membership[n]])
    {
      hide BlockTokens, InRange;
    }

    lemma FirstBlock(last: seq<int>, mcu: Mcu)
      requires Valid() && ValidMcu(scan, mcu) && |last| == |scan.comps|
      ensures |mcu| == |scan.membership| && McuTokens(scan, last, mcu, 0) == []
      ensures Predictions(scan, last, mcu, 0) == last
      ensures McuInRange(scan, last, mcu, 0) && ValidScan(scan)
    {
    }

    // The blocks of an MCU.
    method GatherBlocks(mcu: Mcu) returns (ok: bool)
      requires Valid() && ValidMcu(scan, mcu)
      modifies this`toks, this`last_dc_val, dc_count_ptrs, ac_count_ptrs
      ensures ok <==> old(McuInRange(scan, last_dc_val, mcu, |mcu|))
      ensures ok ==> Valid() && last_dc_val == Predictions(scan, old(last_dc_val), mcu, |mcu|)
      ensures ok ==> toks == old(toks) + McuTokens(scan, old(last_dc_val), mcu, |mcu|)
    {
      hide AllCounted, BlockTokens, ValidScan, InRange, Reorder, Separate, McuTokens, McuInRange, Predictions,
        ValidMcu, Contents;
      ghost var last, before := last_dc_val, toks;
      Limits();
      FirstBlock(last, mcu);
      for blkn := 0 to |mcu|
        invariant Valid() && last_dc_val == Predictions(scan, last, mcu, blkn)
        invariant toks == before + McuTokens(scan, last, mcu, blkn) && McuInRange(scan, last, mcu, blkn)
      {
        BlockOf(last, mcu, blkn);
        var ci := scan.membership[blkn];
        ok := GatherBlock(mcu[blkn], last_dc_val[ci], scan.comps[ci].dc_tbl_no, scan.comps[ci].ac_tbl_no);
        if !ok {
          OutOfRange(last, mcu, blkn + 1);
          return;
        }
        Assoc(before, McuTokens(scan, last, mcu, blkn),
              BlockTokens(Reorder(mcu[blkn]), last_dc_val[ci], scan.comps[ci].dc_tbl_no, scan.comps[ci].ac_tbl_no));
        last_dc_val := last_dc_val[ci := mcu[blkn][0] as int];
      }
      return true;
    }

    lemma OutOfRange(last: seq<int>, mcu: Mcu, n: nat)
      requires ValidScan(scan) && ValidMcu(scan, mcu) && |last| == |scan.comps| && n <= |mcu|
      requires !McuInRange(scan, last, mcu, n)
      ensures !McuInRange(scan, last, mcu, |mcu|)
    {
      hide InRange;
    }

    // encode_mcu_gather; a false result is the error exit for a coefficient out of range.
    method EncodeMcuGather(mcu: Mcu) returns (ok: bool)
      requires Valid() && ValidMcu(scan, mcu)
      modifies this, dc_count_ptrs, ac_count_ptrs
      ensures ok <==> old(McuInRange(scan, AtRestart(scan, Abstract()).last, mcu, |mcu|))
      ensures ok ==> Valid() && Abstract() == AfterGather(scan, old(Abstract()), mcu)
    {
      hide AllCounted, ValidScan, Separate, McuTokens, McuInRange, Predictions, ValidMcu;
      if scan.restart_interval != 0 {
        if restarts_to_go == 0 {
          last_dc_val := NoPredictions(scan);
          restarts_to_go := scan.restart_interval;
        }
        restarts_to_go := restarts_to_go - 1;
      }
      ok := GatherBlocks(mcu);
    }
  }
}
