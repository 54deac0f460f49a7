// Which scans need Huffman tables (prepare_for_pass of jcmaster.c): those whose
// MCUs can send a symbol.
module PassTables {
  import opened Arith
  import opened Tokens
  import opened Blocks
  import opened McuCodec
  import opened ProgCodec
  import opened ProgRefine
  import opened ProgBands
  import opened ProgScan
  import opened Scripts
  import opened SeqCodec
  import PassMachine
  import ScriptRoundTrip

  predicate AllRaw(toks: seq<Token>) {
    forall i | 0 <= i < |toks| :: toks[i].Raw?
  }

  // In no state an MCU of the scan sends a symbol.
  ghost predicate NoSymbols(scan: Scan, b: Band)
    requires ValidProg(scan, b)
  {
    forall s: SegState, zs: Zigzags | ValidZs(scan, zs) && |s.last| == |scan.comps| ::
      AllRaw(StepTokens(scan, b, s, zs))
  }

  lemma {:induction false} RefinedRaw(zs: Zigzags, al: nat, n: nat)
    requires n <= |zs| && forall i | 0 <= i < |zs| :: |zs[i]| == DCTSIZE2
    ensures AllRaw(DcRefineTokens(zs, al, n))
  {
    if n > 0 {
      RefinedRaw(zs, al, n - 1);
    }
  }

  // A block with a coefficient at the start of the band that is new in this scan.
  function Newly(b: Band): (c: Block)
    requires ValidAc(b)
    ensures |c| == DCTSIZE2 && c[b.Ss] == Pow2(b.Al)
  {
    Pow2Mono(b.Al, 13);
    assert Pow2(13) == 0x2000;
    var v: Coef := Pow2(b.Al);
    seq(DCTSIZE2, k => if k == b.Ss then v else 0)
  }

  lemma OneUnit(p: nat)
    requires p > 0
    ensures p / p == 1
  {
  }

  lemma NewlySends(b: Band, tbl: nat)
    requires ValidAc(b)
    ensures !AllRaw(CodeBand(Newly(b), b, tbl).toks)
  {
    hide Newly, NBits, Pow2;
    OneUnit(Pow2(b.Al));
    var c := Newly(b);
    if b.Ah == 0 {
      assert PT(c[b.Ss], b.Al) == 1;
      ValueHasSymbol(1, 0, tbl);
      assert FirstTokens(c, b.Ss, 0, b, tbl) == ValueTokens(1, 0, tbl) + FirstTokens(c, b.Ss + 1, 0, b, tbl);
      SymbolIn(ValueTokens(1, 0, tbl), FirstTokens(c, b.Ss + 1, 0, b, tbl));
    } else {
      assert Level(c[b.Ss], b.Al) == 1;
      assert RefineTokens(c, b.Ss, 0, [], b, tbl)[0] == Sym(AC(tbl), 1);
    }
  }

  lemma ValueHasSymbol(v: int, r: nat, tbl: nat)
    requires r <= 15
    ensures !AllRaw(ValueTokens(v, r, tbl))
  {
    assert ValueTokens(v, r, tbl)[0].Sym?;
  }

  lemma SymbolIn(a: seq<Token>, b: seq<Token>)
    requires !AllRaw(a) || !AllRaw(b)
    ensures !AllRaw(a + b)
  {
    if !AllRaw(a) {
      var i :| 0 <= i < |a| && !a[i].Raw?;
      assert (a + b)[i] == a[i];
    } else {
      var i :| 0 <= i < |b| && !b[i].Raw?;
      assert (a + b)[|a| + i] == b[i];
    }
  }

  lemma DcSends(scan: Scan, zs: Zigzags, al: nat, n: nat)
    requires ValidScan(scan) && ValidZs(scan, zs) && 0 < n <= |zs|
    ensures !AllRaw(DcFirstTokens(scan, NoPredictions(scan), zs, al, n))
  {
    hide NBits, DcDiff;
    var d := DcDiff(scan, NoPredictions(scan), zs, al, n - 1);
    var tbl := scan.comps[scan.membership[n - 1]].dc_tbl_no;
    assert DcTokens(d, tbl)[0].Sym?;
    SymbolIn(DcFirstTokens(scan, NoPredictions(scan), zs, al, n - 1), DcTokens(d, tbl));
  }

  // A statistics pass and tables are left out for just those scans of a
  // progressive script that send no symbol.
  lemma TablesUnneeded(info: ScanInfo, scan: Scan)
    requires ParamsOk(info) && ValidProg(scan, ScriptRoundTrip.BandOf(info)) && scan.membership != []
    ensures PassMachine.NeedsNoTable(info) <==> NoSymbols(scan, ScriptRoundTrip.BandOf(info))
  {
    hide DcFirstTokens, DcRefineTokens, CodeBand, Newly, Release;
    var b := ScriptRoundTrip.BandOf(info);
    if PassMachine.NeedsNoTable(info) {
      forall s: SegState, zs: Zigzags | ValidZs(scan, zs) && |s.last| == |scan.comps|
        ensures AllRaw(StepTokens(scan, b, s, zs))
      {
        RefinedRaw(zs, b.Al, |zs|);
      }
    } else if b.Ss == 0 {
      var zs := seq(|scan.membership|, _ => ZeroBlock());
      DcSends(scan, zs, b.Al, |zs|);
      assert !AllRaw(StepTokens(scan, b, Fresh(scan), zs));
    } else {
      var zs := [Newly(b)];
      var tbl := AcTable(scan);
      NewlySends(b, tbl);
      BandSends(CodeBand(Newly(b), b, tbl), tbl);
      assert !AllRaw(StepTokens(scan, b, Fresh(scan), zs));
    }
  }

  lemma BandSends(code: Coded, tbl: nat)
    requires !AllRaw(code.toks)
    ensures !AllRaw(BandStep(NoneHeld(), code, tbl).0)
  {
    hide Release;
    SymbolIn(Release(NoneHeld(), tbl), code.toks);
    SymbolIn(Release(NoneHeld(), tbl) + code.toks, Release(Hold(NoneHeld(), code.tail), tbl));
  }
}
