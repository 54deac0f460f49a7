// The end of the statistics pass (finish_pass_gather of jchuff.c): the tables
// made from the counts serve the output pass.
module SeqOptimize {
  import opened Arith
  import opened Errors
  import opened HuffTable
  import opened DerivedTables
  import opened Tokens
  import opened Blocks
  import opened SeqCodec
  import opened McuCodec
  import opened SeqGather
  import opened OptTable
  import OptTableUse
  import CL = CodeLengths

  // t is an optimal table for the counts.
  ghost predicate OptimalFor(counts: seq<nat>, t: HuffTbl)
    requires |counts| == 257
  {
    exists size :: HuffmanLengths(WithPseudo(counts), size) && CL.Short(size) && TableFor(size, t)
  }

  // ----- the symbols that occur -----

  predicate UsedRef(scan: Scan, ref: TblRef) {
    exists c :: 0 <= c < |scan.comps| && (ref == DC(scan.comps[c].dc_tbl_no) || ref == AC(scan.comps[c].ac_tbl_no))
  }

  const MAX_SYMBOL := 250

  predicate Proper(tok: Token) {
    match tok
    case Sym(ref, s) => s <= if ref.DC? then 15 else MAX_SYMBOL
    case Raw(_, n) => 0 < n <= 16
  }

  predicate AllProper(toks: seq<Token>) {
    forall i | 0 <= i < |toks| :: Proper(toks[i])
  }

  ghost predicate AllRefs(scan: Scan, toks: seq<Token>) {
    forall i | 0 <= i < |toks| :: toks[i].Sym? ==> UsedRef(scan, toks[i].tbl)
  }

  lemma {:induction false} AcTokensProper(z: Block, k: nat, r: nat, tbl: nat)
    requires |z| == DCTSIZE2 && 1 <= k <= DCTSIZE2 && AcInRange(z)
    ensures AllProper(AcTokens(z, k, r, tbl))
    decreases DCTSIZE2 - k, r
  {
    if k < DCTSIZE2 {
      if z[k] == 0 {
        AcTokensProper(z, k + 1, r + 1, tbl);
        assert AcTokens(z, k, r, tbl) == AcTokens(z, k + 1, r + 1, tbl);
      } else if r > 15 {
        AcTokensProper(z, k, r - 16, tbl);
        assert AcTokens(z, k, r, tbl) == [Sym(AC(tbl), 0xF0)] + AcTokens(z, k, r - 16, tbl);
      } else {
        AcTokensProper(z, k + 1, 0, tbl);
        var n := NBits(Abs(z[k]));
        assert AcTokens(z, k, r, tbl) == [Sym(AC(tbl), 16 * r + n)]
            + ([Raw(Coded(z[k]), n)] + AcTokens(z, k + 1, 0, tbl));
      }
    }
  }

  lemma BlockTokensProper(scan: Scan, z: Block, last: int, c: nat)
    requires |z| == DCTSIZE2 && InRange(z, last) && c < |scan.comps|
    ensures var comp := scan.comps[c];
            var toks := BlockTokens(z, last, comp.dc_tbl_no, comp.ac_tbl_no);
            AllProper(toks) && AllRefs(scan, toks)
  {
    hide AcTokens;
    var comp := scan.comps[c];
    AcTokensProper(z, 1, 0, comp.ac_tbl_no);
    AcTokensRefs(z, 1, 0, comp.ac_tbl_no);
    DcTokensRefs(z[0] - last, comp.dc_tbl_no);
    assert UsedRef(scan, DC(comp.dc_tbl_no)) && UsedRef(scan, AC(comp.ac_tbl_no));
    var d, a := DcTokens(z[0] - last, comp.dc_tbl_no), AcTokens(z, 1, 0, comp.ac_tbl_no);
    forall i | 0 <= i < |d + a|
      ensures Proper((d + a)[i]) && ((d + a)[i].Sym? ==> UsedRef(scan, (d + a)[i].tbl))
    {
      if i < |d| {
        assert (d + a)[i] == d[i] && Proper(d[i]);
      } else {
        assert (d + a)[i] == a[i - |d|] && Proper(a[i - |d|]);
      }
    }
  }

  lemma {:induction false} McuTokensProper(scan: Scan, last: seq<int>, mcu: Mcu, n: nat)
    requires ValidScan(scan) && ValidMcu(scan, mcu) && |last| == |scan.comps| && n <= |mcu|
    requires McuInRange(scan, last, mcu, n)
    ensures AllProper(McuTokens(scan, last, mcu, n)) && AllRefs(scan, McuTokens(scan, last, mcu, n))
  {
    hide BlockTokens, InRange, Reorder, UsedRef, Proper, Predictions;
    if n > 0 {
      McuTokensProper(scan, last, mcu, n - 1);
      BlockTokensProper(scan, Reorder(mcu[n - 1]), PredictionFor(scan, last, mcu, n - 1), scan.membership[n - 1]);
    }
  }

  lemma {:induction false} GatheredProper(scan: Scan, mcus: seq<Mcu>, n: nat)
    requires n <= |mcus| && ValidMcus(scan, mcus, n) && AllInRange(scan, mcus, n)
    ensures AllProper(GatherAt(scan, mcus, n).toks) && AllRefs(scan, GatherAt(scan, mcus, n).toks)
  {
    hide McuTokens, McuInRange;
    if n > 0 {
      GatheredProper(scan, mcus, n - 1);
      McuTokensProper(scan, AtRestart(scan, GatherAt(scan, mcus, n - 1)).last, mcus[n - 1], |mcus[n - 1]|);
    }
  }

  // ----- the tables serve the output pass -----

  // Every symbol that occurs has a code in an optimal table for the counts.
  lemma OptimalSendable(toks: seq<Token>, counts: seq<nat>, t: HuffTbl, d: CDerived, i: nat)
    requires i < |toks| && toks[i].Sym? && toks[i].s <= MAX_SYMBOL
    requires Counted(counts, toks, toks[i].tbl) && OptimalFor(counts, t) && Encodes(t, d)
    ensures d.ehufsi[toks[i].s] != 0
  {
    hide HuffmanLengths, TableFor, CL.Short;
    var s := toks[i].s;
    CountPositive(toks, i);
    assert s < 257;
    var size :| HuffmanLengths(WithPseudo(counts), size) && CL.Short(size) && TableFor(size, t);
    OptTableUse.CountedSymbolsHaveCodes(WithPseudo(counts), size, t, d, s);
  }

  // The tables of the scan's components are optimal for the counts and in use by the encoder.
  ghost predicate OptimalTables(scan: Scan, dc: seq<seq<nat>>, ac: seq<seq<nat>>, dctbls: seq<HuffTbl>,
                                actbls: seq<HuffTbl>, t: CTables) {
    && ValidScan(scan) && SaneTables(t) && |dc| == |ac| == |dctbls| == |actbls| == NUM_HUFF_TBLS
    && (forall i | 0 <= i < NUM_HUFF_TBLS :: |dc[i]| == |ac[i]| == 257)
    && forall c | 0 <= c < |scan.comps| ::
         var d, a := scan.comps[c].dc_tbl_no, scan.comps[c].ac_tbl_no;
         && OptimalFor(dc[d], dctbls[d]) && Encodes(dctbls[d], t.dc[d])
         && OptimalFor(ac[a], actbls[a]) && Encodes(actbls[a], t.ac[a])
  }

  // With the tables made from the statistics of the very same MCUs, the output
  // pass never lacks a code.
  lemma OptimizedTablesSuffice(scan: Scan, mcus: seq<Mcu>, n: nat, dc: seq<seq<nat>>, ac: seq<seq<nat>>,
                               dctbls: seq<HuffTbl>, actbls: seq<HuffTbl>, t: CTables)
    requires n <= |mcus| && ValidMcus(scan, mcus, n) && AllInRange(scan, mcus, n)
    requires AllCounted(dc, ac, GatherAt(scan, mcus, n).toks)
    requires OptimalTables(scan, dc, ac, dctbls, actbls, t)
    ensures AllEncodable(scan, t, mcus, n)
  {
    hide GatherAt, AllInRange, AllEncodable, Counted, OptimalFor, Encodes, ValidMcu;
    var toks := GatherAt(scan, mcus, n).toks;
    GatheredProper(scan, mcus, n);
    forall i | 0 <= i < |toks|
      ensures Sendable(t, toks[i])
    {
      if toks[i].Sym? {
        var ref := toks[i].tbl;
        assert Proper(toks[i]) && UsedRef(scan, ref);
        var c :| 0 <= c < |scan.comps| && (ref == DC(scan.comps[c].dc_tbl_no) || ref == AC(scan.comps[c].ac_tbl_no));
        if ref.DC? {
          OptimalSendable(toks, dc[ref.no], dctbls[ref.no], t.dc[ref.no], i);
        } else {
          OptimalSendable(toks, ac[ref.no], actbls[ref.no], t.ac[ref.no], i);
        }
      } else {
        assert Proper(toks[i]);
      }
    }
    StatisticsAgree(scan, t, mcus, n);
  }

  // ----- finish_pass_gather -----

  // Counts jpeg_gen_optimal_table can be used on.
  ghost predicate Usable(counts: seq<nat>) {
    |counts| == 257 && 1 <= CL.Support(counts, 256) <= 254 && Sum(WithPseudo(counts)) <= TOO_BIG + 1
  }

  ghost predicate Small(counts: seq<nat>) {
    |counts| == 257 && Sum(WithPseudo(counts)) < 9_227_465
  }

  method OptimizeTable(prior: HuffTbl, counts: array<nat>) returns (r: Result<HuffTbl>)
    requires WellTyped(prior) && Usable(counts[..])
    modifies counts
    ensures r.Ok? ==> OptimalFor(old(counts[..]), r.value)
    ensures r.Err? ==> r.error == HuffClenOverflow
    ensures Small(old(counts[..])) ==> r.Ok?
  {
    hide HuffmanLengths, TableFor, CL.Support, CL.Short;
    ghost var w, size := WithPseudo(counts[..]), [];
    r, size := GenOptimalTable(prior, counts);
    if Small(old(counts[..])) {
      NoOverflow(w, size);
    }
  }

  // The tables of one kind made so far: those of the first n components, each once.
  ghost predicate Made(was: seq<seq<nat>>, now: seq<seq<nat>>, did: seq<bool>, tbls: seq<HuffTbl>, nos: seq<nat>,
                       n: nat) {
    && |was| == |now| == |did| == |tbls| == NUM_HUFF_TBLS && n <= |nos|
    && (forall i | 0 <= i < NUM_HUFF_TBLS ::
        |was[i]| == 257 && if did[i] then OptimalFor(was[i], tbls[i]) else now[i] == was[i])
    && (forall c | 0 <= c < n :: nos[c] < NUM_HUFF_TBLS && did[nos[c]])
  }

  // Makes the table of the next component, unless it has been made: doing it
  // twice would work on counts that the first time has destroyed.
  method MakeOnce(counts: seq<array<nat>>, did: seq<bool>, tbls: seq<HuffTbl>, ghost was: seq<seq<nat>>, nos: seq<nat>,
                  n: nat)
    returns (r: Result<seq<HuffTbl>>)
    requires |counts| == NUM_HUFF_TBLS && (forall i, j | 0 <= i < j < NUM_HUFF_TBLS :: counts[i] != counts[j])
    requires n < |nos| && nos[n] < NUM_HUFF_TBLS && Made(was, Contents(counts), did, tbls, nos, n)
    requires Usable(was[nos[n]]) && WellTyped(tbls[nos[n]])
    modifies counts
    ensures r.Ok? ==> Made(was, Contents(counts), did[nos[n] := true], r.value, nos, n + 1)
    ensures r.Ok? ==> |r.value| == NUM_HUFF_TBLS
    ensures r.Ok? ==> forall i | 0 <= i < NUM_HUFF_TBLS && i != nos[n] :: r.value[i] == tbls[i]
    ensures r.Err? ==> r.error == HuffClenOverflow
    ensures Small(was[nos[n]]) ==> r.Ok?
  {
    hide Usable, Small, OptimalFor, WellTyped;
    var tbl := nos[n];
    if did[tbl] {
      return Ok(tbls);
    }
    var one := OptimizeTable(tbls[tbl], counts[tbl]);
    if one.Err? {
      return Err(one.error);
    }
    r := Ok(tbls[tbl := one.value]);
  }

  function DcTables(scan: Scan): (r: seq<nat>)
    ensures |r| == |scan.comps| && forall c | 0 <= c < |r| :: r[c] == scan.comps[c].dc_tbl_no
  {
    seq(|scan.comps|, c requires 0 <= c < |scan.comps| => scan.comps[c].dc_tbl_no)
  }

  function AcTables(scan: Scan): (r: seq<nat>)
    ensures |r| == |scan.comps| && forall c | 0 <= c < |r| :: r[c] == scan.comps[c].ac_tbl_no
  {
    seq(|scan.comps|, c requires 0 <= c < |scan.comps| => scan.comps[c].ac_tbl_no)
  }

  // The counts of the tables listed in nos all satisfy jpeg_gen_optimal_table.
  ghost predicate AllUsable(counts: seq<seq<nat>>, nos: seq<nat>) {
    && |counts| == NUM_HUFF_TBLS && (forall i | 0 <= i < NUM_HUFF_TBLS :: |counts[i]| == 257)
    && forall c | 0 <= c < |nos| :: nos[c] < NUM_HUFF_TBLS && Usable(counts[nos[c]])
  }

  ghost predicate AllSmall(counts: seq<seq<nat>>, nos: seq<nat>) {
    forall c | 0 <= c < |nos| :: nos[c] < |counts| && Small(counts[nos[c]])
  }

  predicate AllWellTyped(tbls: seq<HuffTbl>) {
    |tbls| == NUM_HUFF_TBLS && forall i | 0 <= i < NUM_HUFF_TBLS :: WellTyped(tbls[i])
  }

  lemma OptimalWellTyped(counts: seq<nat>, t: HuffTbl)
    requires |counts| == 257 && OptimalFor(counts, t)
    ensures WellTyped(t)
  {
  }

  datatype Tables = Tables(dc: seq<HuffTbl>, ac: seq<HuffTbl>)

  lemma MadeTables(was: seq<seq<nat>>, now: seq<seq<nat>>, did: seq<bool>, tbls: seq<HuffTbl>, nos: seq<nat>, n: nat,
                   prior: seq<HuffTbl>)
    requires Made(was, now, did, tbls, nos, n) && AllWellTyped(prior)
    requires forall i | 0 <= i < NUM_HUFF_TBLS :: !did[i] ==> tbls[i] == prior[i]
    ensures AllWellTyped(tbls) && |tbls| == NUM_HUFF_TBLS && forall i | 0 <= i < NUM_HUFF_TBLS :: WellTyped(tbls[i])
  {
    forall i | 0 <= i < NUM_HUFF_TBLS
      ensures WellTyped(tbls[i])
    {
      if did[i] {
        OptimalWellTyped(was[i], tbls[i]);
      }
    }
  }

  lemma MadeTypes(dc: seq<HuffTbl>, ac: seq<HuffTbl>)
    requires AllWellTyped(dc) && AllWellTyped(ac)
    ensures |dc| == |ac| == NUM_HUFF_TBLS
  {
  }

  lemma MadeNone(was: seq<seq<nat>>, tbls: seq<HuffTbl>, nos: seq<nat>)
    requires |was| == |tbls| == NUM_HUFF_TBLS && forall i | 0 <= i < NUM_HUFF_TBLS :: |was[i]| == 257
    ensures Made(was, was, seq(NUM_HUFF_TBLS, _ => false), tbls, nos, 0)
  {
  }

  lemma MadeAll(was: seq<seq<nat>>, now: seq<seq<nat>>, did: seq<bool>, tbls: seq<HuffTbl>, nos: seq<nat>)
    requires Made(was, now, did, tbls, nos, |nos|)
    ensures |was| == |tbls| == NUM_HUFF_TBLS && forall i | 0 <= i < NUM_HUFF_TBLS :: |was[i]| == 257
    ensures forall c | 0 <= c < |nos| :: nos[c] < NUM_HUFF_TBLS && OptimalFor(was[nos[c]], tbls[nos[c]])
  {
    hide OptimalFor;
  }

  // finish_pass_gather
  method FinishPassGather(g: Gatherer, dc: seq<HuffTbl>, ac: seq<HuffTbl>) returns (r: Result<Tables>)
    requires g.Valid() && AllWellTyped(dc) && AllWellTyped(ac)
    requires AllUsable(Contents(g.dc_count_ptrs), DcTables(g.scan))
    requires AllUsable(Contents(g.ac_count_ptrs), AcTables(g.scan))
    modifies g.dc_count_ptrs, g.ac_count_ptrs
    ensures r.Ok? ==> |r.value.dc| == |r.value.ac| == NUM_HUFF_TBLS && ValidScan(g.scan)
    ensures r.Ok? ==> forall c | 0 <= c < |g.scan.comps| ::
      var d, a := g.scan.comps[c].dc_tbl_no, g.scan.comps[c].ac_tbl_no;
      && OptimalFor(old(Contents(g.dc_count_ptrs)[d]), r.value.dc[d])
      && OptimalFor(old(Contents(g.ac_count_ptrs)[a]), r.value.ac[a])
    ensures r.Err? ==> r.error == HuffClenOverflow
    ensures old(AllSmall(Contents(g.dc_count_ptrs), DcTables(g.scan)) && AllSmall(Contents(g.ac_count_ptrs),
                                                                                  AcTables(g.scan)))
      ==> r.Ok?
  {
    hide Usable, Small, OptimalFor, WellTyped, Counted, Contents, ValidScan, AllCounted, Made, AllWellTyped;
    MadeTypes(dc, ac);
    ghost var wasDc, wasAc := Contents(g.dc_count_ptrs), Contents(g.ac_count_ptrs);
    var dcNos, acNos := DcTables(g.scan), AcTables(g.scan);
    var did_dc, did_ac := seq(NUM_HUFF_TBLS, _ => false), seq(NUM_HUFF_TBLS, _ => false);
    var dcs, acs := dc, ac;
    MadeNone(wasDc, dc, dcNos);
    MadeNone(wasAc, ac, acNos);
    for ci := 0 to |g.scan.comps|
      invariant |dcs| == |did_dc| == |acs| == |did_ac| == NUM_HUFF_TBLS
      invariant Made(wasDc, Contents(g.dc_count_ptrs), did_dc, dcs, dcNos, ci)
      invariant Made(wasAc, Contents(g.ac_count_ptrs), did_ac, acs, acNos, ci)
      invariant forall i | 0 <= i < NUM_HUFF_TBLS ::
        (!did_dc[i] ==> dcs[i] == dc[i]) && (!did_ac[i] ==> acs[i] == ac[i])
    {
      MadeTables(wasDc, Contents(g.dc_count_ptrs), did_dc, dcs, dcNos, ci, dc);
      MadeTables(wasAc, Contents(g.ac_count_ptrs), did_ac, acs, acNos, ci, ac);
      ghost var nowAc := Contents(g.ac_count_ptrs);
      var one := MakeOnce(g.dc_count_ptrs, did_dc, dcs, wasDc, dcNos, ci);
      if one.Err? {
        return Err(one.error);
      }
      dcs, did_dc := one.value, did_dc[dcNos[ci] := true];
      assert Contents(g.ac_count_ptrs) == nowAc;
      ghost var nowDc := Contents(g.dc_count_ptrs);
      one := MakeOnce(g.ac_count_ptrs, did_ac, acs, wasAc, acNos, ci);
      if one.Err? {
        return Err(one.error);
      }
      acs, did_ac := one.value, did_ac[acNos[ci] := true];
      assert Contents(g.dc_count_ptrs) == nowDc;
    }
    MadeAll(wasDc, Contents(g.dc_count_ptrs), did_dc, dcs, dcNos);
    MadeAll(wasAc, Contents(g.ac_count_ptrs), did_ac, acs, acNos);
    r := Ok(Tables(dcs, acs));
    forall c | 0 <= c < |g.scan.comps|
      ensures OptimalFor(wasDc[g.scan.comps[c].dc_tbl_no], dcs[g.scan.comps[c].dc_tbl_no])
      ensures OptimalFor(wasAc[g.scan.comps[c].ac_tbl_no], acs[g.scan.comps[c].ac_tbl_no])
    {
      assert dcNos[c] == g.scan.comps[c].dc_tbl_no && acNos[c] == g.scan.comps[c].ac_tbl_no;
    }
  }

  // ----- every statistics pass leaves usable counts -----

  lemma {:induction false} SupportAtLeastOne(a: seq<nat>, n: nat, i: nat)
    requires i < n <= |a| && a[i] > 0
    ensures CL.Support(a, n) >= 1
  {
    if i < n - 1 {
      SupportAtLeastOne(a, n - 1, i);
    }
  }

  // A component with a block in the MCUs has symbols of both kinds among the tokens.
  lemma BlockHasSymbols(z: Block, last: int, dctbl: nat, actbl: nat)
    returns (i: nat, j: nat)
    requires |z| == DCTSIZE2
    ensures var toks := BlockTokens(z, last, dctbl, actbl);
            && i < |toks| && toks[i].Sym? && toks[i].tbl == DC(dctbl)
            && j < |toks| && toks[j].Sym? && toks[j].tbl == AC(actbl)
  {
    i := 0;
    var d, a := DcTokens(z[0] - last, dctbl), AcTokens(z, 1, 0, actbl);
    AcStartsWithSymbol(z, 1, 0, actbl);
    j := |d|;
    assert (d + a)[j] == a[0];
  }

  lemma {:induction false} AcStartsWithSymbol(z: Block, k: nat, r: nat, tbl: nat)
    requires |z| == DCTSIZE2 && k <= DCTSIZE2 && (k < DCTSIZE2 || r > 0)
    ensures AcTokens(z, k, r, tbl) != [] && AcTokens(z, k, r, tbl)[0].Sym? && AcTokens(z, k, r, tbl)[0].tbl == AC(tbl)
    decreases DCTSIZE2 - k
  {
    if k < DCTSIZE2 && z[k] == 0 {
      AcStartsWithSymbol(z, k + 1, r + 1, tbl);
    }
  }

  ghost predicate Has(toks: seq<Token>, ref: TblRef) {
    exists i :: 0 <= i < |toks| && toks[i].Sym? && toks[i].tbl == ref
  }

  lemma HasMore(a: seq<Token>, b: seq<Token>, ref: TblRef)
    requires Has(a, ref) || Has(b, ref)
    ensures Has(a + b, ref)
  {
    if Has(a, ref) {
      var i :| 0 <= i < |a| && a[i].Sym? && a[i].tbl == ref;
      assert (a + b)[i] == a[i];
    } else {
      var i :| 0 <= i < |b| && b[i].Sym? && b[i].tbl == ref;
      assert (a + b)[|a| + i] == b[i];
    }
  }

  lemma {:induction false} McuHas(scan: Scan, last: seq<int>, mcu: Mcu, n: nat, blkn: nat)
    requires ValidScan(scan) && ValidMcu(scan, mcu) && |last| == |scan.comps| && blkn < n <= |mcu|
    ensures var c := scan.comps[scan.membership[blkn]];
            Has(McuTokens(scan, last, mcu, n), DC(c.dc_tbl_no)) && Has(McuTokens(scan, last, mcu, n), AC(c.ac_tbl_no))
  {
    hide BlockTokens, Reorder;
    var c := scan.comps[scan.membership[blkn]];
    var before, block := McuTokens(scan, last, mcu, n - 1), TokensOf(scan, last, mcu, n - 1);
    if blkn < n - 1 {
      McuHas(scan, last, mcu, n - 1, blkn);
    } else {
      var i, j := BlockHasSymbols(Reorder(mcu[blkn]), PredictionFor(scan, last, mcu, blkn), c.dc_tbl_no, c.ac_tbl_no);
    }
    HasMore(before, block, DC(c.dc_tbl_no));
    HasMore(before, block, AC(c.ac_tbl_no));
  }

  lemma GatherHas(scan: Scan, mcus: seq<Mcu>, n: nat, blkn: nat)
    requires 0 < n <= |mcus| && ValidMcus(scan, mcus, n) && blkn < |scan.membership|
    ensures var c := scan.comps[scan.membership[blkn]];
            Has(GatherAt(scan, mcus, n).toks, DC(c.dc_tbl_no)) && Has(GatherAt(scan, mcus, n).toks, AC(c.ac_tbl_no))
  {
    hide McuTokens, Has, Predictions;
    var c, g := scan.comps[scan.membership[blkn]], AtRestart(scan, GatherAt(scan, mcus, n - 1));
    var mcu := mcus[n - 1];
    assert |mcu| == |scan.membership|;
    McuHas(scan, g.last, mcu, |mcu|, blkn);
    HasMore(g.toks, McuTokens(scan, g.last, mcu, |mcu|), DC(c.dc_tbl_no));
    HasMore(g.toks, McuTokens(scan, g.last, mcu, |mcu|), AC(c.ac_tbl_no));
  }

  function CountsOf(toks: seq<Token>, ref: TblRef): (r: seq<nat>)
    ensures |r| == 257 && forall s: nat | s < 257 :: r[s] == Count(toks, ref, s)
  {
    seq(257, s requires 0 <= s < 257 => Count(toks, ref, s))
  }

  // No more symbols are counted than tokens sent.
  lemma {:induction false} SumCounts(toks: seq<Token>, ref: TblRef)
    ensures Sum(CountsOf(toks, ref)) <= |toks|
  {
    var a := CountsOf(toks, ref);
    if toks == [] {
      SumZero(a);
    } else {
      SumCounts(toks[1..], ref);
      var b := CountsOf(toks[1..], ref);
      if toks[0].Sym? && toks[0].tbl == ref && toks[0].s < 257 {
        var s := toks[0].s;
        assert a == b[s := b[s] + 1];
        SumUpdate(b, s, b[s] + 1);
      } else {
        assert a == b;
      }
    }
  }

  // The counts of a pass over at least one MCU are usable for every component with blocks.
  lemma CountedUsable(toks: seq<Token>, counts: seq<nat>, ref: TblRef)
    requires Counted(counts, toks, ref) && Has(toks, ref) && AllProper(toks) && |toks| <= TOO_BIG
    ensures Usable(counts) && (|toks| < 9_227_464 ==> Small(counts))
  {
    var i :| 0 <= i < |toks| && toks[i].Sym? && toks[i].tbl == ref;
    assert Proper(toks[i]);
    CountPositive(toks, i);
    SupportAtLeastOne(counts, 256, toks[i].s);
    forall s: nat | MAX_SYMBOL < s < 257
      ensures counts[s] == 0
    {
      forall k | 0 <= k < |toks|
        ensures toks[k] != Sym(ref, s)
      {
        assert Proper(toks[k]);
      }
      NoneCounted(toks, ref, s);
    }
    assert counts[255] == 0 && counts[254] == 0;
    assert CL.Support(counts, 256) == CL.Support(counts, 254);
    assert counts == CountsOf(toks, ref);
    SumCounts(toks, ref);
    SumUpdate(counts, 256, 1);
  }

  // finish_pass_gather finds usable counts after any pass over at least one MCU,
  // if every component of the scan has blocks in it.
  lemma GatheredUsable(scan: Scan, mcus: seq<Mcu>, n: nat, dc: seq<seq<nat>>, ac: seq<seq<nat>>)
    requires 0 < n <= |mcus| && ValidMcus(scan, mcus, n) && AllInRange(scan, mcus, n)
    requires AllCounted(dc, ac, GatherAt(scan, mcus, n).toks) && |GatherAt(scan, mcus, n).toks| <= TOO_BIG
    requires forall c | 0 <= c < |scan.comps| :: c in scan.membership
    ensures AllUsable(dc, DcTables(scan)) && AllUsable(ac, AcTables(scan))
    ensures |GatherAt(scan, mcus, n).toks| < 9_227_464 ==> AllSmall(dc, DcTables(scan)) && AllSmall(ac, AcTables(scan))
  {
    hide GatherAt, AllInRange, Usable, Small, Has, AllProper, ValidMcu;
    var toks := GatherAt(scan, mcus, n).toks;
    GatheredProper(scan, mcus, n);
    forall c | 0 <= c < |scan.comps|
      ensures Usable(dc[scan.comps[c].dc_tbl_no]) && Usable(ac[scan.comps[c].ac_tbl_no])
      ensures |toks| < 9_227_464 ==> Small(dc[scan.comps[c].dc_tbl_no]) && Small(ac[scan.comps[c].ac_tbl_no])
    {
      assert c in scan.membership;
      var blkn :| 0 <= blkn < |scan.membership| && scan.membership[blkn] == c;
      GatherHas(scan, mcus, n, blkn);
      var comp := scan.comps[c];
      CountedUsable(toks, dc[comp.dc_tbl_no], DC(comp.dc_tbl_no));
      CountedUsable(toks, ac[comp.ac_tbl_no], AC(comp.ac_tbl_no));
    }
    forall i | 0 <= i < NUM_HUFF_TBLS
      ensures |dc[i]| == 257 && |ac[i]| == 257
    {
      assert Counted(dc[i], toks, DC(i)) && Counted(ac[i], toks, AC(i));
    }
  }
}
