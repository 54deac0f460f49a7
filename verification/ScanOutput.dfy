// A scan of an image from its blocks to its bytes: the coefficient controller,
// the entropy coder, and a destination that is emptied now and then.
module ScanOutput {
  import opened Arith
  import opened Errors
  import opened HuffTable
  import opened DerivedTables
  import opened Tokens
  import opened Blocks
  import opened BitWriter
  import opened McuCodec
  import opened McuReading
  import opened SeqEncoder
  import opened SeqGather
  import opened SeqOptimize
  import opened EntropyCoding
  import opened CoefBlocks
  import opened CoefOutput
  import OptTable
  import CL = CodeLengths
  import OptTableUse
  import CoefInput
  import SeqRoundTrip

  // ----- a pass that writes -----

  // The entropy coder has written all of the image, and flushed its last bits.
  ghost predicate Complete(e: SeqEncoder, mcus: seq<Mcu>)
    reads e
  {
    AllEncodable(e.scan, e.tables, mcus, |mcus|) && e.dest == Finished(StateAt(e.scan, e.tables, mcus, |mcus|))
  }

  // Why a pass over the image can fail: an MCU cannot be coded, or the last bits
  // find no room and cannot be tried again.
  ghost predicate Reason(c: CoefController, error: Error)
    requires c.Set()
    reads c
  {
    !c.coder.CanTake(c.Image()) || (error == CantSuspend && c.coder.huff != null && c.coder.huff.suspending)
  }

  // An output pass, from the image itself or from the coefficient arrays: whenever
  // it is suspended, the application takes the bytes and hands over the next portion of room.
  method WritePass(c: CoefController, rooms: seq<nat>) returns (st: Status)
    requires c.Valid() && c.iMCU_row_num == 0 && c.coder.huff != null
    requires c.whole_image == [] || c.Filled(c.f.total_iMCU_rows)
    requires forall i | 0 <= i < |rooms| :: rooms[i] > 0
    modifies c, c.MCU_buffer, c.coder, c.coder.Objects()
    ensures c.Set() && c.coder == old(c.coder)
    ensures st.Done? ==> Complete(c.coder.huff, c.Image())
    ensures st.Suspended? ==> Refused(c.coder, c.Image())
    ensures st.Failed? ==> Reason(c, st.error)
  {
    hide FullTo, EntropyCoder.Valid, EntropyCoder.CanTake, BlocksIn, ValidImage, ValidFrame, Refused, Complete;
    var i := 0;
    while c.iMCU_row_num < c.f.total_iMCU_rows
      invariant c.Valid() && c.iMCU_row_num <= c.f.total_iMCU_rows && c.coder == old(c.coder) && 0 <= i <= |rooms|
      invariant c.whole_image == [] || c.Filled(c.f.total_iMCU_rows)
      decreases c.f.total_iMCU_rows - c.iMCU_row_num, |rooms| - i
    {
      if c.whole_image == [] {
        st := c.CompressData();
      } else {
        Enough(c);
        st := c.CompressOutput();
      }
      if st.Failed? || (st.Suspended? && i == |rooms|) {
        return;
      }
      if st.Suspended? {
        c.coder.MakeRoom(rooms[i]);
        i := i + 1;
      }
    }
    AllTaken(c);
    st := FinishOutput(c);
  }

  lemma Enough(c: CoefController)
    requires c.Set() && c.Filled(c.f.total_iMCU_rows) && 0 <= c.iMCU_row_num < c.f.total_iMCU_rows
    ensures c.Filled(c.iMCU_row_num + 1)
  {
    if c.iMCU_row_num + 1 < c.f.total_iMCU_rows {
      c.FilledHolds(c.f.total_iMCU_rows, c.iMCU_row_num + 1);
    }
  }

  // finish_pass_huff, once the image has been taken
  method FinishOutput(c: CoefController) returns (st: Status)
    requires c.Set() && c.coder.Valid() && c.coder.huff != null && c.coder.taken == c.Image()
    modifies c.coder.huff
    ensures c.Set() && (st.Done? ==> Complete(c.coder.huff, c.Image())) && !st.Suspended?
    ensures st.Failed? ==> Reason(c, st.error)
  {
    hide AllEncodable, StateAt, BlocksIn, ValidImage, ValidFrame, Finished;
    st := c.coder.huff.FinishPass();
  }

  // ----- a pass that gathers statistics -----

  // The first pass over the image, with the statistics coder: it fills the
  // coefficient arrays, and never has to be suspended.
  method GatherPass(c: CoefController) returns (st: Status)
    requires c.Valid() && c.iMCU_row_num == 0 && c.coder.huff == null && c.Filled(0)
    modifies c, c.MCU_buffer, c.whole_image, c.coder, c.coder.Objects()
    ensures c.Set() && c.coder == old(c.coder)
    ensures if st.Done? then c.Valid() && c.iMCU_row_num == c.f.total_iMCU_rows && c.Filled(c.f.total_iMCU_rows)
            else st.Failed? && !c.coder.CanTake(c.Image())
  {
    hide FullTo, EntropyCoder.Valid, EntropyCoder.CanTake, BlocksIn, ValidImage, ValidFrame;
    st := Done;
    while c.iMCU_row_num < c.f.total_iMCU_rows
      invariant c.Valid() && c.iMCU_row_num <= c.f.total_iMCU_rows && c.coder == old(c.coder)
      invariant c.Filled(c.iMCU_row_num)
    {
      st := c.CompressFirstPass();
      if st.Failed? {
        return;
      }
    }
    st := Done;
  }

  // The tables of the scan's components are there ...
  ghost predicate Present(scan: Scan, t: DTables) {
    && ValidScan(scan) && |t.dc| == |t.ac| == NUM_HUFF_TBLS
    && forall c | 0 <= c < |scan.comps| ::
      WellTyped(t.dc[scan.comps[c].dc_tbl_no]) && WellTyped(t.ac[scan.comps[c].ac_tbl_no])
  }

  // ... and are accepted.
  ghost predicate AllAccepted(scan: Scan, t: DTables)
    requires Present(scan, t)
  {
    forall c | 0 <= c < |scan.comps| ::
      EncoderAccepts(true, t.dc[scan.comps[c].dc_tbl_no]) && EncoderAccepts(false, t.ac[scan.comps[c].ac_tbl_no])
  }

  function NoCodes(): (d: CDerived)
    ensures SaneTable(d)
  {
    CDerived(seq(256, _ => 0), seq(256, _ => 0))
  }

  lemma EncodesSane(t: HuffTbl, d: CDerived)
    requires Encodes(t, d)
    ensures SaneTable(d)
  {
    forall s | 0 <= s < 256
      ensures d.ehufsi[s] <= 16 && (d.ehufsi[s] > 0 ==> d.ehufco[s] < Pow2(16))
    {
      if d.ehufsi[s] != 0 {
        var p :| 0 <= p < Upto(t.bits, 16) && t.huffval[..Upto(t.bits, 16)][p] == s;
        assert t.huffval[p] == s;
        Pow2Mono(LenOf(t.bits, p), 16);
      }
    }
  }

  // start_pass_huff: the derived tables of the components in the scan.
  method MakeTables(scan: Scan, t: DTables) returns (r: Result<CTables>)
    requires Present(scan, t)
    ensures if AllAccepted(scan, t) then r.Ok? else r == Err(BadHuffTable)
    ensures r.Ok? ==> SaneTables(r.value) && forall c | 0 <= c < |scan.comps| :: MadeFor(scan, t, r.value, c)
  {
    hide Encodes, EncoderAccepts, SaneTable, WellTyped;
    var dc, ac := seq(NUM_HUFF_TBLS, _ => NoCodes()), seq(NUM_HUFF_TBLS, _ => NoCodes());
    for ci := 0 to |scan.comps|
      invariant |dc| == |ac| == NUM_HUFF_TBLS && SaneTables(CTables(dc, ac))
      invariant forall c | 0 <= c < ci ::
        && EncoderAccepts(true, t.dc[scan.comps[c].dc_tbl_no]) && EncoderAccepts(false, t.ac[scan.comps[c].ac_tbl_no])
        && MadeFor(scan, t, CTables(dc, ac), c)
    {
      var d, a := scan.comps[ci].dc_tbl_no, scan.comps[ci].ac_tbl_no;
      var one := MakeCDerived(true, t.dc[d]);
      if one.Err? {
        return Err(one.error);
      }
      EncodesSane(t.dc[d], one.value);
      dc := dc[d := one.value];
      one := MakeCDerived(false, t.ac[a]);
      if one.Err? {
        return Err(one.error);
      }
      EncodesSane(t.ac[a], one.value);
      ac := ac[a := one.value];
    }
    r := Ok(CTables(dc, ac));
  }

  ghost predicate MadeFor(scan: Scan, t: DTables, made: CTables, c: int)
    requires 0 <= c < |scan.comps|
  {
    var d, a := scan.comps[c].dc_tbl_no, scan.comps[c].ac_tbl_no;
    && d < |t.dc| && d < |made.dc| && a < |t.ac| && a < |made.ac|
    && Encodes(t.dc[d], made.dc[d]) && Encodes(t.ac[a], made.ac[a])
  }

  // ----- two passes -----

  // What is sent for a DC difference has at most 15 bits.
  lemma DcCountsSmall(toks: seq<Token>, counts: seq<nat>, no: nat)
    requires Counted(counts, toks, DC(no)) && AllProper(toks)
    ensures |counts| == 257 && forall s | 16 <= s < 256 :: counts[s] == 0
  {
    forall s: nat | 16 <= s < 256
      ensures counts[s] == 0
    {
      forall k | 0 <= k < |toks|
        ensures toks[k] != Sym(DC(no), s)
      {
        assert Proper(toks[k]);
      }
      NoneCounted(toks, DC(no), s);
    }
  }

  lemma OptimalAccepted(isDC: bool, counts: seq<nat>, t: HuffTbl)
    requires |counts| == 257 && OptimalFor(counts, t) && (isDC ==> forall s | 16 <= s < 256 :: counts[s] == 0)
    ensures EncoderAccepts(isDC, t) && WellTyped(t) && Legal(t.bits)
    ensures isDC ==> SmallSymbols(t)
  {
    var size :| OptTable.HuffmanLengths(OptTable.WithPseudo(counts), size) && CL.Short(size) && OptTable.TableFor(size,
                                                                                                                  t);
    OptTableUse.OptimalTableAccepted(isDC, OptTable.WithPseudo(counts), size, t);
  }

  // Tables made from the statistics of some MCUs are accepted by both derived
  // table builders, and have codes for all that these MCUs need.
  lemma StatisticsSuffice(scan: Scan, mcus: seq<Mcu>, dc: seq<seq<nat>>, ac: seq<seq<nat>>, t: DTables)
    requires ValidMcus(scan, mcus, |mcus|) && AllInRange(scan, mcus, |mcus|)
    requires AllCounted(dc, ac, GatherAt(scan, mcus, |mcus|).toks) && |t.dc| == |t.ac| == NUM_HUFF_TBLS
    requires forall c | 0 <= c < |scan.comps| ::
      && OptimalFor(dc[scan.comps[c].dc_tbl_no], t.dc[scan.comps[c].dc_tbl_no])
      && OptimalFor(ac[scan.comps[c].ac_tbl_no], t.ac[scan.comps[c].ac_tbl_no])
    ensures ValidTables(scan, t) && Present(scan, t) && AllAccepted(scan, t)
  {
    hide GatherAt, AllInRange, OptimalFor, EncoderAccepts, AllProper, Counted;
    var toks := GatherAt(scan, mcus, |mcus|).toks;
    GatheredProper(scan, mcus, |mcus|);
    forall c | 0 <= c < |scan.comps|
      ensures EncoderAccepts(true, t.dc[scan.comps[c].dc_tbl_no])
      ensures EncoderAccepts(false, t.ac[scan.comps[c].ac_tbl_no])
      ensures SmallSymbols(t.dc[scan.comps[c].dc_tbl_no]) && WellTyped(t.ac[scan.comps[c].ac_tbl_no])
      ensures Legal(t.ac[scan.comps[c].ac_tbl_no].bits)
    {
      var d, a := scan.comps[c].dc_tbl_no, scan.comps[c].ac_tbl_no;
      DcCountsSmall(toks, dc[d], d);
      CountedLength(ac[a], toks, AC(a));
      OptimalAccepted(true, dc[d], t.dc[d]);
      OptimalAccepted(false, ac[a], t.ac[a]);
    }
  }

  lemma CountedLengths(dc: seq<seq<nat>>, ac: seq<seq<nat>>, toks: seq<Token>)
    requires AllCounted(dc, ac, toks)
    ensures |dc| == |ac| == NUM_HUFF_TBLS && forall i | 0 <= i < NUM_HUFF_TBLS :: |dc[i]| == |ac[i]| == 257
  {
  }

  lemma CountedLength(counts: seq<nat>, toks: seq<Token>, ref: TblRef)
    requires Counted(counts, toks, ref)
    ensures |counts| == 257
  {
  }

  // The MCUs of the image are all there, and each has blocks of every component.
  ghost predicate Countable(c: CoefController)
    requires c.Set()
    reads c
  {
    forall i | 0 <= i < |c.coder.scan.comps| :: i in c.coder.scan.membership
  }

  lemma ImageNotEmpty(c: CoefController)
    requires c.Set()
    ensures c.Image() != []
  {
    hide McuAt;
    RowsPositive(c.f, 0);
    WithinImage(c.f, c.img, 0, 0, 1);
    assert InRow(c.f, c.img, 0, 0, 1) != [];
  }

  // The tokens of the image.
  ghost function ImageTokens(c: CoefController): seq<Token>
    requires c.Set() && c.coder.CanTake(c.Image()) && c.coder.huff == null
    reads c
  {
    GatherAt(c.coder.scan, c.Image(), |c.Image()|).toks
  }

  // finish_pass_gather, and start_pass_huff for the output pass: the new tables
  // have codes for everything in the image. They can only be missing because a
  // code gets too long, for which the image has to be very large.
  method FinishStatistics(c: CoefController, dc: seq<HuffTbl>, ac: seq<HuffTbl>)
    returns (r: Result<CTables>, made: DTables)
    requires c.Set() && c.coder.Valid() && c.coder.huff == null && c.coder.taken == c.Image() && Countable(c)
    requires AllWellTyped(dc) && AllWellTyped(ac) && |ImageTokens(c)| <= OptTable.TOO_BIG
    requires c.Filled(c.f.total_iMCU_rows)
    modifies c.coder.gather.dc_count_ptrs, c.coder.gather.ac_count_ptrs
    ensures c.Set() && c.Filled(c.f.total_iMCU_rows)
    ensures r.Ok? ==> AllEncodable(c.coder.scan, r.value, c.Image(), |c.Image()|)
    ensures r.Ok? ==> SeqRoundTrip.Matching(c.coder.scan, r.value, made)
    ensures r.Err? ==> r.error == HuffClenOverflow && |ImageTokens(c)| >= 9_227_464
  {
    hide GatherAt, AllInRange, AllCounted, AllSmall, AllUsable, OptimalFor, AllEncodable, BlocksIn, ValidImage,
      ValidFrame, Separate,
      ValidMcus, EncoderAccepts, Encodes, Present, WellTyped, AllAccepted, SeqRoundTrip.Matching, ValidTables,
          SaneTables, MadeFor, FullTo;
    var g := c.coder.gather;
    ghost var dcs, acs, mcus := Contents(g.dc_count_ptrs), Contents(g.ac_count_ptrs), c.Image();
    made := DTables([], []);
    ImageNotEmpty(c);
    GatheredUsable(c.coder.scan, mcus, |mcus|, dcs, acs);
    var one := FinishPassGather(g, dc, ac);
    if one.Err? {
      return Err(one.error), made;
    }
    made := DTables(one.value.dc, one.value.ac);
    StatisticsSuffice(c.coder.scan, mcus, dcs, acs, made);
    r := MakeTables(c.coder.scan, made);
    OutputReady(c.coder.scan, mcus, dcs, acs, made, r.value);
  }

  lemma OutputReady(scan: Scan, mcus: seq<Mcu>, dc: seq<seq<nat>>, ac: seq<seq<nat>>, made: DTables, t: CTables)
    requires ValidMcus(scan, mcus, |mcus|) && AllInRange(scan, mcus, |mcus|)
    requires AllCounted(dc, ac, GatherAt(scan, mcus, |mcus|).toks) && ValidTables(scan, made) && SaneTables(t)
    requires forall c | 0 <= c < |scan.comps| ::
      && OptimalFor(dc[scan.comps[c].dc_tbl_no], made.dc[scan.comps[c].dc_tbl_no])
      && OptimalFor(ac[scan.comps[c].ac_tbl_no], made.ac[scan.comps[c].ac_tbl_no])
    requires forall c | 0 <= c < |scan.comps| :: MadeFor(scan, made, t, c)
    ensures AllEncodable(scan, t, mcus, |mcus|) && SeqRoundTrip.Matching(scan, t, made)
  {
    hide GatherAt, AllInRange, AllCounted, OptimalFor, AllEncodable, Encodes, ValidMcus, Legal, SmallSymbols, SaneTable;
    CountedLengths(dc, ac, GatherAt(scan, mcus, |mcus|).toks);
    forall c | 0 <= c < |scan.comps|
      ensures Encodes(made.dc[scan.comps[c].dc_tbl_no], t.dc[scan.comps[c].dc_tbl_no])
      ensures Encodes(made.ac[scan.comps[c].ac_tbl_no], t.ac[scan.comps[c].ac_tbl_no])
    {
      assert MadeFor(scan, made, t, c);
    }
    assert OptimalTables(scan, dc, ac, made.dc, made.ac, t);
    OptimizedTablesSuffice(scan, mcus, |mcus|, dc, ac, made.dc, made.ac, t);
  }

  // Not more symbols are sent for the image than jpeg_gen_optimal_table can count.
  ghost predicate FewTokens(f: Frame, img: seq<Plane>, scan: Scan)
    requires ValidFrame(f) && ValidImage(f, img)
  {
    var mcus := CoefBlocks.Through(f, img, f.total_iMCU_rows);
    ValidMcus(scan, mcus, |mcus|) ==> |GatherAt(scan, mcus, |mcus|).toks| <= OptTable.TOO_BIG
  }

  lemma TokensFit(c: CoefController)
    requires c.Set() && c.coder.Valid() && c.coder.taken == c.Image() && c.coder.huff == null
    requires FewTokens(c.f, c.img, c.coder.scan)
    ensures c.coder.CanTake(c.Image()) && |ImageTokens(c)| <= OptTable.TOO_BIG
  {
    hide GatherAt, AllInRange, BlocksIn, ValidImage, ValidFrame, ValidMcus, Gatherer.Valid;
  }

  // The coefficients of the image are in range.
  ghost predicate ImageInRange(scan: Scan, mcus: seq<Mcu>) {
    ValidMcus(scan, mcus, |mcus|) && AllInRange(scan, mcus, |mcus|)
  }

  // The statistics pass over an image, and the tables made from it.
  method StatisticsPass(f: Frame, img: seq<Plane>, scan: Scan, dc: seq<HuffTbl>, ac: seq<HuffTbl>)
    returns (r: Result<CTables>, made: DTables, c: CoefController)
    requires ValidFrame(f) && ValidImage(f, img) && BlocksIn(f, |f.comps|) <= C_MAX_BLOCKS_IN_MCU
    requires ValidScan(scan) && |scan.membership| == BlocksIn(f, |f.comps|)
    requires forall i | 0 <= i < |scan.comps| :: i in scan.membership
    requires AllWellTyped(dc) && AllWellTyped(ac) && FewTokens(f, img, scan)
    ensures fresh(c) && fresh(c.MCU_buffer) && fresh(c.whole_image) && c.Set() && c.f == f && c.img == img
    ensures c.coder.scan == scan
    ensures r.Ok? ==> c.Filled(f.total_iMCU_rows)
    ensures r.Ok? ==> AllEncodable(scan, r.value, c.Image(), |c.Image()|) && SeqRoundTrip.Matching(scan, r.value, made)
    ensures r.Err? ==> r.error == HuffClenOverflow || !ImageInRange(scan, c.Image())
  {
    hide GatherAt, AllInRange, AllEncodable, BlocksIn, ValidImage, ValidFrame, ValidMcus, ValidMcu, WellTyped,
      SeqRoundTrip.Matching,
      EntropyCoder.Valid, FullTo, StateAt, Separate, Gatherer.Valid, CountObjects;
    var g := new Gatherer(scan);
    var statistics := new EntropyCoder.Statistics(g);
    assert fresh(statistics.Objects());
    c := new CoefController(f, img, true, statistics);
    var st := GatherPass(c);
    if st.Failed? {
      return Err(st.error), DTables([], []), c;
    }
    AllTaken(c);
    TokensFit(c);
    r, made := FinishStatistics(c, dc, ac);
  }

  // A compression with optimized tables: the statistics pass, the tables, and the
  // output pass from the coefficient arrays. Once the coefficients are known to
  // be in range and the tables are made, nothing but a full destination can keep
  // the scan from being written: no code is ever missing, no table refused.
  method CompressOptimized(f: Frame, img: seq<Plane>, scan: Scan, dc: seq<HuffTbl>, ac: seq<HuffTbl>,
                           suspending: bool, bufferSize: nat, free: nat, rooms: seq<nat>)
    returns (st: Status, made: DTables, e: SeqEncoder?, c: CoefController)
    requires ValidFrame(f) && ValidImage(f, img) && BlocksIn(f, |f.comps|) <= C_MAX_BLOCKS_IN_MCU
    requires ValidScan(scan) && |scan.membership| == BlocksIn(f, |f.comps|)
    requires forall i | 0 <= i < |scan.comps| :: i in scan.membership
    requires AllWellTyped(dc) && AllWellTyped(ac) && FewTokens(f, img, scan) && bufferSize > 0 && free > 0
    requires forall i | 0 <= i < |rooms| :: rooms[i] > 0
    ensures c.Set() && c.f == f && c.img == img && (e != null ==> c.coder.huff == e && e.scan == scan)
    ensures st.Done? ==> e != null && Complete(e, c.Image()) && SeqRoundTrip.Matching(scan, e.tables, made)
    ensures st.Suspended? ==> suspending && Refused(c.coder, c.Image())
    ensures st.Failed? ==> if e == null then st.error == HuffClenOverflow || !ImageInRange(scan, c.Image())
                           else st.error == CantSuspend && suspending
  {
    hide AllEncodable, BlocksIn, ValidImage, ValidFrame, SeqRoundTrip.Matching, EntropyCoder.Valid, FullTo, FewTokens,
      Complete, Refused,
      ImageInRange, WellTyped, StateAt, ValidMcus;
    var r;
    r, made, c := StatisticsPass(f, img, scan, dc, ac);
    if r.Err? {
      return Failed(r.error), made, null, c;
    }
    EncodableSane(scan, r.value, c.Image());
    e := new SeqEncoder(scan, r.value, suspending, bufferSize, free);
    var output := new EntropyCoder.Output(e);
    c.StartPass(output);
    st := WritePass(c, rooms);
    if st.Suspended? {
      RefusedWhen(c.coder, c.Image());
    }
  }

  lemma RefusedWhen(coder: EntropyCoder, mcus: seq<Mcu>)
    requires coder.Installed() && Refused(coder, mcus)
    ensures coder.huff != null && coder.huff.suspending
  {
  }

  lemma EncodableSane(scan: Scan, t: CTables, mcus: seq<Mcu>)
    requires AllEncodable(scan, t, mcus, |mcus|)
    ensures ValidScan(scan) && SaneTables(t)
  {
  }

  // The bytes of the scan, wherever they stand and whatever marker follows them,
  // are decoded to the blocks of the image.
  lemma ImageBack(e: SeqEncoder, made: DTables, mcus: seq<Mcu>, front: seq<Byte>, code: Byte, more: seq<Byte>)
    requires Complete(e, mcus) && SeqRoundTrip.Matching(e.scan, e.tables, made) && 0 < code < 0xFF
    ensures var data := front + (e.dest + ([0xFF, code] + more));
            && ValidTables(e.scan, made) && ValidDec(e.scan, data, SeqRoundTrip.StartAt(e.scan, data, |front|))
            && var run := CoefInput.RunOf(e.scan, made, SeqRoundTrip.AllWanted(e.scan), data,
                                          SeqRoundTrip.StartAt(e.scan, data, |front|), |mcus|);
            run.Run? && |run.mcus| == |mcus| && forall i, k | 0 <= i < |mcus| && 0 <= k < |mcus[i]| ::
              |mcus[i][k]| == DCTSIZE2 && k < |run.mcus[i]| && run.mcus[i][k] == Reorder(mcus[i][k])
  {
    hide AllEncodable, StateAt, Finished, SeqRoundTrip.Matching, SeqRoundTrip.InStepAt, Reordered;
    var data := front + (e.dest + ([0xFF, code] + more));
    SeqRoundTrip.ScanRoundTrip(e.scan, e.tables, made, mcus, |mcus|, front, code, more, data);
  }
}
