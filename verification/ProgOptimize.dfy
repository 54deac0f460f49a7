// The end of a statistics pass of the progressive encoder
// (finish_pass_gather_phuff of jcphuff.c): the tables made from the counts
// serve the output pass.
module ProgOptimize {
  import opened Arith
  import opened Bits
  import opened Errors
  import opened HuffTable
  import opened DerivedTables
  import opened Tokens
  import opened Blocks
  import opened SeqCodec
  import opened McuCodec
  import opened SeqOptimize
  import opened ProgCodec
  import opened ProgRefine
  import opened ProgBands
  import opened ProgScan
  import opened ProgStream
  import opened ProgEmitter
  import opened ProgPass
  import SeqGather
  import OptTable

  // ----- the symbols of a scan -----

  predicate ScanRef(scan: Scan, b: Band, ref: TblRef) {
    if b.Ss == 0 then exists c :: 0 <= c < |scan.comps| && ref == DC(scan.comps[c].dc_tbl_no)
    else |scan.comps| == 1 && ref == AC(AcTable(scan))
  }

  ghost predicate Fit(scan: Scan, b: Band, toks: seq<Token>) {
    forall i | 0 <= i < |toks| :: Proper(toks[i]) && (toks[i].Sym? ==> ScanRef(scan, b, toks[i].tbl))
  }

  lemma FitConcat(scan: Scan, b: Band, x: seq<Token>, y: seq<Token>)
    requires Fit(scan, b, x) && Fit(scan, b, y)
    ensures Fit(scan, b, x + y)
  {
    hide ScanRef, Proper;
  }

  lemma FitAc(scan: Scan, b: Band, s: nat)
    requires ValidProg(scan, b) && b.Ss != 0 && s <= MAX_SYMBOL
    ensures Fit(scan, b, [Sym(AC(AcTable(scan)), s)])
  {
  }

  lemma FitRaw(scan: Scan, b: Band, bits: Bits)
    ensures Fit(scan, b, RawBits(bits))
  {
    hide ScanRef;
  }

  lemma FitEob(scan: Scan, b: Band, e: Held)
    requires ValidProg(scan, b) && b.Ss != 0 && e.run <= 0x7FFF
    ensures Fit(scan, b, Release(e, AcTable(scan)))
  {
    hide NBits, RawBits, ScanRef;
    if e.run > 0 {
      var nbits := NBits(e.run) - 1;
      EobValue(e.run, nbits);
      FitAc(scan, b, 16 * nbits);
      FitRaw(scan, b, e.bits);
      FitConcat(scan, b, EobTokens(e.run, AcTable(scan)), RawBits(e.bits));
    }
  }

  lemma {:induction false} FitValue(scan: Scan, b: Band, v: int, r: nat)
    requires ValidProg(scan, b) && b.Ss != 0 && v != 0 && NBits(Abs(v)) <= MAX_COEF_BITS
    ensures Fit(scan, b, ValueTokens(v, r, AcTable(scan)))
    decreases r
  {
    hide ScanRef, NBits;
    var tbl := AcTable(scan);
    if r > 15 {
      FitAc(scan, b, 0xF0);
      FitValue(scan, b, v, r - 16);
      FitConcat(scan, b, [Sym(AC(tbl), 0xF0)], ValueTokens(v, r - 16, tbl));
    } else {
      SeqEncoderSome(v);
      FitAc(scan, b, 16 * r + NBits(Abs(v)));
      FitConcat(scan, b, [Sym(AC(tbl), 16 * r + NBits(Abs(v)))], [Raw(Tokens.Coded(v), NBits(Abs(v)))]);
    }
  }

  lemma SeqEncoderSome(v: int)
    requires v != 0
    ensures NBits(Abs(v)) > 0
  {
  }

  lemma {:induction false} FitFirst(scan: Scan, b: Band, c: Block, k: nat, r: nat)
    requires ValidProg(scan, b) && b.Ss != 0 && |c| == DCTSIZE2 && FirstInRange(c, b) && b.Ss <= k
    ensures Fit(scan, b, FirstTokens(c, k, r, b, AcTable(scan)))
    decreases b.Se + 1 - k
  {
    hide Fit, NBits, PT;
    if k <= b.Se {
      if PT(c[k], b.Al) == 0 {
        FitFirst(scan, b, c, k + 1, r + 1);
      } else {
        FitFirst(scan, b, c, k + 1, 0);
        FitValue(scan, b, PT(c[k], b.Al), r);
        FitConcat(scan, b, ValueTokens(PT(c[k], b.Al), r, AcTable(scan)), FirstTokens(c, k + 1, 0, b, AcTable(scan)));
      }
    } else {
      FitNone(scan, b);
    }
  }

  lemma FitNone(scan: Scan, b: Band)
    ensures Fit(scan, b, [])
  {
  }

  // A symbol, one more bit, and correction bits.
  lemma FitCode(scan: Scan, b: Band, s: nat, sign: seq<Token>, br: Bits, more: seq<Token>)
    requires ValidProg(scan, b) && b.Ss != 0 && s <= MAX_SYMBOL && (sign == [] || exists v :: sign == [Raw(v, 1)])
    requires Fit(scan, b, more)
    ensures Fit(scan, b, [Sym(AC(AcTable(scan)), s)] + (sign + (RawBits(br) + more)))
  {
    hide ScanRef, RawBits;
    FitAc(scan, b, s);
    FitRaw(scan, b, br);
    FitConcat(scan, b, RawBits(br), more);
    FitConcat(scan, b, sign, RawBits(br) + more);
    FitConcat(scan, b, [Sym(AC(AcTable(scan)), s)], sign + (RawBits(br) + more));
  }

  lemma {:induction false} FitRefine(scan: Scan, b: Band, c: Block, k: nat, r: nat, br: Bits)
    requires ValidProg(scan, b) && b.Ss != 0 && |c| == DCTSIZE2 && b.Ss <= k
    ensures Fit(scan, b, RefineTokens(c, k, r, br, b, AcTable(scan)))
    decreases b.Se + 1 - k, r
  {
    hide Fit, Level, LastNew, RawBits;
    var tbl := AcTable(scan);
    RefineTokensParts(c, k, r, br, b, tbl, []);
    if k > b.Se {
      FitNone(scan, b);
    } else if Level(c[k], b.Al) == 0 {
      FitRefine(scan, b, c, k + 1, r + 1, br);
    } else if r > 15 && k <= LastNew(c, b.Se, b) {
      FitRefine(scan, b, c, k, r - 16, []);
      var more := RefineTokens(c, k, r - 16, [], b, tbl);
      FitCode(scan, b, 0xF0, [], br, more);
      assert [] + (RawBits(br) + more) == RawBits(br) + more;
    } else if Level(c[k], b.Al) > 1 {
      FitRefine(scan, b, c, k + 1, r, br + [Level(c[k], b.Al) % 2 == 1]);
    } else {
      LevelOne(c[k], b.Al);
      FitRefine(scan, b, c, k + 1, 0, []);
      FitCode(scan, b, 16 * r + 1, [Raw(if c[k] < 0 then 0 else 1, 1)], br, RefineTokens(c, k + 1, 0, [], b, tbl));
    }
  }

  lemma LevelOne(v: Coef, al: nat)
    requires Level(v, al) != 0 && !(Level(v, al) > 1)
    ensures Level(v, al) == 1
  {
  }

  lemma FitBand(scan: Scan, b: Band, e: Held, c: Block)
    requires ValidProg(scan, b) && b.Ss != 0 && |c| == DCTSIZE2 && BandInRange(c, b) && ValidHeld(e)
    ensures ValidAc(b) && Fit(scan, b, BandStep(e, CodeBand(c, b, AcTable(scan)), AcTable(scan)).0)
  {
    hide Fit, Release, FirstTokens, FirstRun, RefineTokens, RefineTail, FirstInRange;
    var tbl := AcTable(scan);
    var code := CodeBand(c, b, tbl);
    if b.Ah == 0 {
      FitFirst(scan, b, c, b.Ss, 0);
    } else {
      FitRefine(scan, b, c, b.Ss, 0, []);
    }
    FitEob(scan, b, e);
    FitNone(scan, b);
    FitConcat(scan, b, Release(e, tbl), code.toks);
    var sent := if code.toks != [] then Release(e, tbl) + code.toks else [];
    var e2 := Hold(HeldBefore(e, code), code.tail);
    FitEob(scan, b, e2);
    FitConcat(scan, b, sent, Release(e2, tbl));
  }

  lemma {:induction false} FitDcFirst(scan: Scan, b: Band, last: seq<int>, zs: Zigzags, n: nat)
    requires ValidProg(scan, b) && b.Ss == 0 && ValidZs(scan, zs) && |last| == |scan.comps| && n <= |zs|
    requires DcInRange(scan, last, zs, b.Al, n)
    ensures Fit(scan, b, DcFirstTokens(scan, last, zs, b.Al, n))
  {
    hide DcShift, DcLast, DcDiff, NBits;
    if n > 0 {
      FitDcFirst(scan, b, last, zs, n - 1);
      var d, c := DcDiff(scan, last, zs, b.Al, n - 1), scan.membership[n - 1];
      assert ScanRef(scan, b, DC(scan.comps[c].dc_tbl_no));
      assert Fit(scan, b, DcTokens(d, scan.comps[c].dc_tbl_no));
      FitConcat(scan, b, DcFirstTokens(scan, last, zs, b.Al, n - 1), DcTokens(d, scan.comps[c].dc_tbl_no));
    }
  }

  lemma {:induction false} FitDcRefine(scan: Scan, b: Band, zs: Zigzags, al: nat, n: nat)
    requires n <= |zs| && forall i | 0 <= i < |zs| :: |zs[i]| == DCTSIZE2
    ensures Fit(scan, b, DcRefineTokens(zs, al, n))
  {
    hide DcShift, ScanRef;
    if n > 0 {
      FitDcRefine(scan, b, zs, al, n - 1);
    }
  }

  lemma FitStep(scan: Scan, b: Band, s: SegState, zs: Zigzags)
    requires ValidProg(scan, b) && ValidZs(scan, zs) && |s.last| == |scan.comps| && StepInRange(scan, b, s, zs)
    requires ValidHeld(s.held)
    ensures Fit(scan, b, StepTokens(scan, b, s, zs)) && ValidHeld(StepState(scan, b, s, zs).held)
    ensures Fit(scan, b, ReleaseTokens(scan, b, s))
  {
    hide Fit, DcFirstTokens, DcLast, DcInRange, DcRefineTokens, BandStep, CodeBand, BandInRange, Release;
    FitNone(scan, b);
    if b.Ss != 0 {
      FitBand(scan, b, s.held, zs[0]);
      FitEob(scan, b, s.held);
      BandStepValid(s.held, zs[0], b, AcTable(scan));
    } else if b.Ah == 0 {
      FitDcFirst(scan, b, s.last, zs, |zs|);
    } else {
      FitDcRefine(scan, b, zs, b.Al, |zs|);
    }
  }

  ghost predicate FitPassed(scan: Scan, b: Band, g: Passed)
    requires ValidProg(scan, b)
  {
    ValidHeld(g.seg.held) && Fit(scan, b, g.toks) && Fit(scan, b, ReleaseTokens(scan, b, g.seg))
  }

  lemma FitMcu(scan: Scan, b: Band, g: Passed, zs: Zigzags)
    requires ValidProg(scan, b) && ValidPassed(scan, g) && ValidZs(scan, zs) && McuFits(scan, b, g, zs)
    requires FitPassed(scan, b, g)
    ensures FitPassed(scan, b, PassMcu(scan, b, g, zs))
  {
    hide Fit, StepTokens, StepState, StepInRange, ReleaseTokens, ValidHeld, ValidProg, ValidZs, Fresh;
    FreshHeld(scan, b);
    FitConcat(scan, b, g.toks, ReleaseTokens(scan, b, g.seg));
    var g1 := AtDue(scan, b, g);
    FitStep(scan, b, g1.seg, zs);
    FitConcat(scan, b, g1.toks, StepTokens(scan, b, g1.seg, zs));
    FitRelease(scan, b, StepState(scan, b, g1.seg, zs));
  }

  // All tokens of a pass can have codes, and all symbols are of the scan's tables.
  lemma {:induction false} FitPass(scan: Scan, b: Band, mcus: seq<Zigzags>, n: nat)
    requires ValidProg(scan, b) && AllValid(scan, mcus) && n <= |mcus| && PassInRange(scan, b, mcus, n)
    ensures FitPassed(scan, b, PassedAt(scan, b, mcus, n))
  {
    hide Fit, PassMcu, ReleaseTokens, ValidHeld, ValidProg, ValidZs, McuFits, FitPassed;
    if n > 0 {
      FitPass(scan, b, mcus, n - 1);
      assert ValidZs(scan, mcus[n - 1]) && McuFits(scan, b, PassedAt(scan, b, mcus, n - 1), mcus[n - 1]);
      FitMcu(scan, b, PassedAt(scan, b, mcus, n - 1), mcus[n - 1]);
    } else {
      FitStart(scan, b);
    }
  }

  lemma FitStart(scan: Scan, b: Band)
    requires ValidProg(scan, b)
    ensures FitPassed(scan, b, PassStart(scan))
  {
    FreshHeld(scan, b);
    FitNone(scan, b);
  }

  lemma FreshHeld(scan: Scan, b: Band)
    requires ValidProg(scan, b)
    ensures ValidHeld(Fresh(scan).held) && Fit(scan, b, ReleaseTokens(scan, b, Fresh(scan)))
  {
  }

  lemma FitRelease(scan: Scan, b: Band, s: SegState)
    requires ValidProg(scan, b) && ValidHeld(s.held)
    ensures Fit(scan, b, ReleaseTokens(scan, b, s))
  {
    if b.Ss != 0 {
      FitEob(scan, b, s.held);
    }
  }

  // ----- the tables serve the output pass -----

  // The tables the scan needs; a DC refinement needs none.
  function Needed(scan: Scan, b: Band): (r: seq<nat>)
    requires ValidProg(scan, b)
    ensures forall c | 0 <= c < |r| :: r[c] < NUM_HUFF_TBLS
  {
    if b.Ss != 0 then [AcTable(scan)] else if b.Ah == 0 then DcTables(scan) else []
  }

  function RefOf(b: Band, i: nat): TblRef {
    if b.Ss == 0 then DC(i) else AC(i)
  }

  // What a statistics pass counts.
  function FinalCounts(b: Band, toks: seq<Token>): (r: seq<seq<nat>>)
    ensures |r| == NUM_HUFF_TBLS
    ensures forall i | 0 <= i < NUM_HUFF_TBLS :: |r[i]| == 257 && SeqGather.Counted(r[i], toks, RefOf(b, i))
  {
    seq(NUM_HUFF_TBLS, i requires 0 <= i < NUM_HUFF_TBLS => CountsOf(toks, RefOf(b, i)))
  }

  // The encoder uses tables that are optimal for the counts.
  ghost predicate OptimalScan(scan: Scan, b: Band, counts: seq<seq<nat>>, tbls: seq<HuffTbl>, t: CTables) {
    && ValidProg(scan, b) && SaneTables(t) && |counts| == |tbls| == NUM_HUFF_TBLS
    && forall c | 0 <= c < |Needed(scan, b)| ::
         var i := Needed(scan, b)[c];
         |counts[i]| == 257 && OptimalFor(counts[i], tbls[i]) && Encodes(tbls[i], TableOf(t, RefOf(b, i)))
  }

  // Refinement of DC values sends no symbols.
  lemma {:induction false} NoSymbols(zs: Zigzags, al: nat, n: nat)
    requires n <= |zs| && forall i | 0 <= i < |zs| :: |zs[i]| == DCTSIZE2
    ensures forall i | 0 <= i < |DcRefineTokens(zs, al, n)| :: DcRefineTokens(zs, al, n)[i].Raw?
  {
    hide DcShift;
    if n > 0 {
      NoSymbols(zs, al, n - 1);
    }
  }

  ghost predicate Raws(toks: seq<Token>) {
    forall i | 0 <= i < |toks| :: toks[i].Raw?
  }

  lemma {:induction false} RefinePassRaw(scan: Scan, b: Band, mcus: seq<Zigzags>, n: nat)
    requires ValidProg(scan, b) && AllValid(scan, mcus) && n <= |mcus| && b.Ss == 0 && b.Ah != 0
    ensures Raws(PassedAt(scan, b, mcus, n).toks)
  {
    hide DcRefineTokens, StepState;
    if n > 0 {
      RefinePassRaw(scan, b, mcus, n - 1);
      assert ValidZs(scan, mcus[n - 1]);
      NoSymbols(mcus[n - 1], b.Al, |mcus[n - 1]|);
    }
  }

  // Tables of the symbols that occur are among those needed.
  lemma NeededRef(scan: Scan, b: Band, ref: TblRef) returns (c: nat)
    requires ValidProg(scan, b) && ScanRef(scan, b, ref) && !(b.Ss == 0 && b.Ah != 0)
    ensures c < |Needed(scan, b)| && ref == RefOf(b, Needed(scan, b)[c]) && ref.no == Needed(scan, b)[c] < NUM_HUFF_TBLS
  {
    if b.Ss != 0 {
      c := 0;
    } else {
      c :| 0 <= c < |scan.comps| && ref == DC(scan.comps[c].dc_tbl_no);
    }
  }

  // With the tables made from the statistics of the very same MCUs, the output
  // pass never lacks a code.
  lemma PassTablesSuffice(scan: Scan, b: Band, mcus: seq<Zigzags>, tbls: seq<HuffTbl>, t: CTables)
    requires ValidProg(scan, b) && AllValid(scan, mcus) && PassInRange(scan, b, mcus, |mcus|)
    requires OptimalScan(scan, b, FinalCounts(b, PassTokens(scan, b, mcus)), tbls, t)
    ensures PAllEncodable(scan, b, t, mcus)
  {
    hide PassTokens, PassInRange, PAllEncodable, OptimalFor, Encodes, ReleaseTokens, ScanRef, SeqGather.Counted,
      Proper, SaneTables, ValidProg;
    var toks := PassTokens(scan, b, mcus);
    FitTokens(scan, b, mcus);
    forall i | 0 <= i < |toks|
      ensures Sendable(t, toks[i])
    {
      TokenSendable(scan, b, mcus, tbls, t, i);
    }
    PassStatisticsAgree(scan, b, t, mcus);
  }

  lemma TokenSendable(scan: Scan, b: Band, mcus: seq<Zigzags>, tbls: seq<HuffTbl>, t: CTables, i: nat)
    requires ValidProg(scan, b) && AllValid(scan, mcus) && i < |PassTokens(scan, b, mcus)|
    requires Fit(scan, b, PassTokens(scan, b, mcus))
    requires OptimalScan(scan, b, FinalCounts(b, PassTokens(scan, b, mcus)), tbls, t)
    ensures SaneTables(t) && Sendable(t, PassTokens(scan, b, mcus)[i])
  {
    hide PassTokens, OptimalFor, Encodes, ScanRef, SeqGather.Counted;
    var toks := PassTokens(scan, b, mcus);
    var counts := FinalCounts(b, toks);
    assert Proper(toks[i]);
    if toks[i].Sym? {
      if b.Ss == 0 && b.Ah != 0 {
        RefinePassTokens(scan, b, mcus);
        assert false;
      } else {
        var c := NeededRef(scan, b, toks[i].tbl);
        var no := Needed(scan, b)[c];
        OptimalSendable(toks, counts[no], tbls[no], TableOf(t, toks[i].tbl), i);
      }
    }
  }

  lemma RefinePassTokens(scan: Scan, b: Band, mcus: seq<Zigzags>)
    requires ValidProg(scan, b) && AllValid(scan, mcus) && b.Ss == 0 && b.Ah != 0
    ensures Raws(PassTokens(scan, b, mcus))
  {
    RefinePassRaw(scan, b, mcus, |mcus|);
  }

  // ----- every statistics pass leaves usable counts -----

  lemma HasFirst(toks: seq<Token>, ref: TblRef)
    requires toks != [] && toks[0].Sym? && toks[0].tbl == ref
    ensures Has(toks, ref)
  {
  }

  lemma {:induction false} FirstStarts(c: Block, k: nat, r: nat, b: Band, tbl: nat)
    requires |c| == DCTSIZE2 && b.Se < DCTSIZE2
    ensures var toks := FirstTokens(c, k, r, b, tbl); toks != [] ==> toks[0].Sym? && toks[0].tbl == AC(tbl)
    decreases b.Se + 1 - k
  {
    hide PT, NBits;
    if k <= b.Se && PT(c[k], b.Al) == 0 {
      FirstStarts(c, k + 1, r + 1, b, tbl);
    }
  }

  lemma {:induction false} RefineStarts(c: Block, k: nat, r: nat, br: Bits, b: Band, tbl: nat)
    requires |c| == DCTSIZE2 && b.Se < DCTSIZE2
    ensures var toks := RefineTokens(c, k, r, br, b, tbl); toks != [] ==> toks[0].Sym? && toks[0].tbl == AC(tbl)
    decreases b.Se + 1 - k, r
  {
    hide Level, LastNew;
    if k <= b.Se {
      var a := Level(c[k], b.Al);
      if a == 0 {
        RefineStarts(c, k + 1, r + 1, br, b, tbl);
      } else if !(r > 15 && k <= LastNew(c, b.Se, b)) && a > 1 {
        RefineStarts(c, k + 1, r, br + [a % 2 == 1], b, tbl);
      }
    }
  }

  lemma ReleaseStarts(e: Held, tbl: nat)
    requires e.run > 0
    ensures Has(Release(e, tbl), AC(tbl))
  {
    hide NBits, RawBits;
    HasFirst(Release(e, tbl), AC(tbl));
  }

  // A band sends a symbol, or its EOB is held.
  lemma BandHas(e: Held, c: Block, b: Band, tbl: nat)
    requires ValidHeld(e) && |c| == DCTSIZE2 && ValidAc(b)
    ensures var s := BandStep(e, CodeBand(c, b, tbl), tbl); Has(s.0 + Release(s.1, tbl), AC(tbl))
  {
    hide FirstTokens, FirstRun, RefineTokens, RefineTail, Release, Has;
    BandStepValid(e, c, b, tbl);
    var code, s := CodeBand(c, b, tbl), BandStep(e, CodeBand(c, b, tbl), tbl);
    var e2 := Hold(HeldBefore(e, code), code.tail);
    if code.toks != [] {
      if b.Ah == 0 {
        FirstStarts(c, b.Ss, 0, b, tbl);
      } else {
        RefineStarts(c, b.Ss, 0, [], b, tbl);
      }
      HasFirst(code.toks, AC(tbl));
      HasMore(Release(e, tbl), code.toks, AC(tbl));
      HasMore(Release(e, tbl) + code.toks, Release(e2, tbl), AC(tbl));
    } else {
      ReleaseStarts(e2, tbl);
      HasMore([], Release(e2, tbl), AC(tbl));
    }
    HasMore(s.0, Release(s.1, tbl), AC(tbl));
  }

  lemma {:induction false} DcFirstHas(scan: Scan, last: seq<int>, zs: Zigzags, al: nat, n: nat, blkn: nat)
    requires ValidScan(scan) && ValidZs(scan, zs) && |last| == |scan.comps| && blkn < n <= |zs|
    ensures Has(DcFirstTokens(scan, last, zs, al, n), DC(scan.comps[scan.membership[blkn]].dc_tbl_no))
  {
    hide DcDiff, NBits, Has;
    var tbl, ref := scan.comps[scan.membership[n - 1]].dc_tbl_no, DC(scan.comps[scan.membership[blkn]].dc_tbl_no);
    var d := DcDiff(scan, last, zs, al, n - 1);
    if blkn < n - 1 {
      DcFirstHas(scan, last, zs, al, n - 1, blkn);
    } else {
      HasFirst(DcTokens(d, tbl), ref);
    }
    HasMore(DcFirstTokens(scan, last, zs, al, n - 1), DcTokens(d, tbl), ref);
  }

  // After an MCU, every table needed has a symbol sent or held.
  lemma StepHas(scan: Scan, b: Band, s: SegState, zs: Zigzags, c: nat)
    requires ValidProg(scan, b) && ValidZs(scan, zs) && |s.last| == |scan.comps| && ValidHeld(s.held)
    requires c < |Needed(scan, b)|
    requires forall k | 0 <= k < |scan.comps| :: k in scan.membership
    ensures var r := StepState(scan, b, s, zs);
            Has(StepTokens(scan, b, s, zs) + ReleaseTokens(scan, b, r), RefOf(b, Needed(scan, b)[c]))
  {
    hide Has, DcFirstTokens, BandStep, CodeBand, Release, DcLast;
    if b.Ss != 0 {
      BandHas(s.held, zs[0], b, AcTable(scan));
    } else {
      assert c in scan.membership;
      var blkn :| 0 <= blkn < |scan.membership| && scan.membership[blkn] == c;
      DcFirstHas(scan, s.last, zs, b.Al, |zs|, blkn);
      HasMore(StepTokens(scan, b, s, zs), [], RefOf(b, Needed(scan, b)[c]));
    }
  }

  lemma PassHas(scan: Scan, b: Band, mcus: seq<Zigzags>, c: nat)
    requires ValidProg(scan, b) && AllValid(scan, mcus) && mcus != [] && PassInRange(scan, b, mcus, |mcus|)
    requires c < |Needed(scan, b)|
    requires forall k | 0 <= k < |scan.comps| :: k in scan.membership
    ensures Has(PassTokens(scan, b, mcus), RefOf(b, Needed(scan, b)[c]))
  {
    hide Has, StepTokens, StepState, StepInRange, ReleaseTokens, ValidProg, ValidZs, ValidHeld, Needed, Fit, Fresh;
    var n, ref := |mcus| - 1, RefOf(b, Needed(scan, b)[c]);
    var g, zs := PassedAt(scan, b, mcus, n), mcus[n];
    assert ValidZs(scan, zs);
    FitPass(scan, b, mcus, n);
    FreshHeld(scan, b);
    var g1 := AtDue(scan, b, g);
    StepHas(scan, b, g1.seg, zs, c);
    var x, y := StepTokens(scan, b, g1.seg, zs), ReleaseTokens(scan, b, StepState(scan, b, g1.seg, zs));
    HasMore(g1.toks, x + y, ref);
    assert PassTokens(scan, b, mcus) == g1.toks + x + y;
    Assoc(g1.toks, x, y);
  }

  // finish_pass_gather_phuff finds usable counts after any pass over at least one MCU.
  lemma PassUsable(scan: Scan, b: Band, mcus: seq<Zigzags>)
    requires ValidProg(scan, b) && AllValid(scan, mcus) && mcus != [] && PassInRange(scan, b, mcus, |mcus|)
    requires (forall k | 0 <= k < |scan.comps| :: k in scan.membership)
    requires |PassTokens(scan, b, mcus)| <= OptTable.TOO_BIG
    ensures var counts := FinalCounts(b, PassTokens(scan, b, mcus));
            && AllUsable(counts, Needed(scan, b))
            && (|PassTokens(scan, b, mcus)| < 9_227_464 ==> AllSmall(counts, Needed(scan, b)))
  {
    hide Has, PassTokens, PassInRange, PassedAt, Usable, Small, ScanRef, ValidProg, ReleaseTokens, SeqGather.Counted,
      Proper;
    var toks := PassTokens(scan, b, mcus);
    var counts := FinalCounts(b, toks);
    FitTokens(scan, b, mcus);
    FitProper(scan, b, toks);
    forall c | 0 <= c < |Needed(scan, b)|
      ensures var i := Needed(scan, b)[c]; Usable(counts[i]) && (|toks| < 9_227_464 ==> Small(counts[i]))
    {
      PassHas(scan, b, mcus, c);
      CountedUsable(toks, counts[Needed(scan, b)[c]], RefOf(b, Needed(scan, b)[c]));
    }
  }

  lemma FitTokens(scan: Scan, b: Band, mcus: seq<Zigzags>)
    requires ValidProg(scan, b) && AllValid(scan, mcus) && PassInRange(scan, b, mcus, |mcus|)
    ensures Fit(scan, b, PassTokens(scan, b, mcus))
  {
    hide Fit, PassedAt, PassInRange, ReleaseTokens;
    FitPass(scan, b, mcus, |mcus|);
    var g := PassedAt(scan, b, mcus, |mcus|);
    FitConcat(scan, b, g.toks, ReleaseTokens(scan, b, g.seg));
  }

  lemma FitProper(scan: Scan, b: Band, toks: seq<Token>)
    requires Fit(scan, b, toks)
    ensures AllProper(toks)
  {
  }

  // ----- finish_pass_gather_phuff -----

  lemma CountsAre(e: PhuffEncoder, toks: seq<Token>)
    requires e.Valid() && e.em.gather_statistics && e.em.all == toks
    ensures |e.em.count_ptrs| == NUM_HUFF_TBLS
    ensures forall i, j | 0 <= i < j < NUM_HUFF_TBLS :: e.em.count_ptrs[i] != e.em.count_ptrs[j]
    ensures SeqGather.Contents(e.em.count_ptrs) == FinalCounts(e.b, toks)
  {
    hide Count;
    var now, counts := SeqGather.Contents(e.em.count_ptrs), FinalCounts(e.b, toks);
    forall i | 0 <= i < NUM_HUFF_TBLS
      ensures now[i] == counts[i]
    {
      assert SeqGather.Counted(now[i], toks, e.em.Ref(i));
      assert SeqGather.Counted(counts[i], toks, RefOf(e.b, i));
    }
  }

  method FinishPassGather(e: PhuffEncoder, tbls0: seq<HuffTbl>) returns (r: Result<seq<HuffTbl>>)
    requires e.Valid() && e.em.gather_statistics && AllWellTyped(tbls0) && ValidProg(e.scan, e.b)
    requires AllUsable(FinalCounts(e.b, e.em.all + ReleaseTokens(e.scan, e.b, e.Seg())), Needed(e.scan, e.b))
    modifies e, e.em, e.em.w, e.em.count_ptrs
    ensures var counts := FinalCounts(e.b, old(e.em.all + ReleaseTokens(e.scan, e.b, e.Seg())));
            && (r.Ok? ==> |r.value| == NUM_HUFF_TBLS && forall c | 0 <= c < |Needed(e.scan, e.b)| ::
                 var i := Needed(e.scan, e.b)[c]; OptimalFor(counts[i], r.value[i]))
            && (AllSmall(counts, Needed(e.scan, e.b)) ==> r.Ok?)
    ensures r.Ok? ==> forall i | 0 <= i < NUM_HUFF_TBLS && i !in Needed(e.scan, e.b) :: r.value[i] == tbls0[i]
    ensures r.Err? ==> r.error == HuffClenOverflow
  {
    hide Usable, Small, OptimalFor, WellTyped, SeqGather.Counted, ValidProg, Emitter.Valid, ReleaseTokens,
        SeqGather.Contents;
    ghost var toks := e.em.all + ReleaseTokens(e.scan, e.b, e.Seg());
    ghost var a0, s0 := e.em.all, e.em.seg;
    var st := e.ReleaseHeld();
    EmitMeans(e.em, s0, a0, ReleaseTokens(e.scan, e.b, old(e.Seg())), true, st);
    CountsAre(e, toks);
    r := MakeNeeded(e.em.count_ptrs, FinalCounts(e.b, toks), Needed(e.scan, e.b), tbls0);
  }

  // Every table needed is made once.
  method MakeNeeded(count_ptrs: seq<array<nat>>, ghost was: seq<seq<nat>>, nos: seq<nat>, tbls0: seq<HuffTbl>)
    returns (r: Result<seq<HuffTbl>>)
    requires |count_ptrs| == NUM_HUFF_TBLS && SeqGather.Contents(count_ptrs) == was && AllUsable(was, nos)
    requires forall i, j | 0 <= i < j < NUM_HUFF_TBLS :: count_ptrs[i] != count_ptrs[j]
    requires AllWellTyped(tbls0)
    modifies count_ptrs
    ensures r.Ok? ==> |r.value| == NUM_HUFF_TBLS && forall c | 0 <= c < |nos| :: OptimalFor(was[nos[c]],
                                                                                            r.value[nos[c]])
    ensures r.Ok? ==> forall i | 0 <= i < NUM_HUFF_TBLS && i !in nos :: r.value[i] == tbls0[i]
    ensures AllSmall(was, nos) ==> r.Ok?
    ensures r.Err? ==> r.error == HuffClenOverflow
  {
    hide Usable, Small, OptimalFor, WellTyped, SeqGather.Contents;
    var did, tbls := seq(NUM_HUFF_TBLS, _ => false), tbls0;
    for ci := 0 to |nos|
      invariant |did| == |tbls| == NUM_HUFF_TBLS && Made(was, SeqGather.Contents(count_ptrs), did, tbls, nos, ci)
      invariant forall i | 0 <= i < NUM_HUFF_TBLS :: (!did[i] ==> tbls[i] == tbls0[i]) && (did[i] ==> i in nos)
    {
      MadeTables(was, SeqGather.Contents(count_ptrs), did, tbls, nos, ci, tbls0);
      var one := MakeOnce(count_ptrs, did, tbls, was, nos, ci);
      if one.Err? {
        return Err(one.error);
      }
      tbls, did := one.value, did[nos[ci] := true];
    }
    r := Ok(tbls);
  }
}
