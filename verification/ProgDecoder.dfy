// The progressive Huffman decoder (jdphuff.c): the four decode_mcu routines and
// process_restart, which may be suspended at any byte.
module ProgDecoder {
  import opened Arith
  import opened Bits
  import opened Words
  import opened HuffTable
  import opened DerivedTables
  import opened Tokens
  import opened BitSource
  import opened Blocks
  import opened SeqCodec
  import opened McuCodec
  import opened BitWriter
  import opened ByteStream
  import opened BitReader
  import opened Markers
  import opened McuReading
  import opened ProgCodec
  import opened ProgRefine
  import opened ProgBands
  import opened ProgScan
  import opened ProgReading
  import opened ProgInPlace
  import SeqDecoder

  // ----- blocks that can be tried again -----

  // What an attempt may leave of a block that was z and is to become f.
  ghost predicate Retry(a: Block, z: Block, f: Block, b: Band) {
    if b.Ss != 0 && b.Ah != 0 then Redo(a, z, f, b.Al) else Between(a, z, f)
  }

  lemma RetryFresh(z: Block, f: Block, b: Band)
    requires |z| == |f| == DCTSIZE2
    ensures Retry(z, z, f, b)
  {
  }

  lemma RetryIs(a: Block, z: Block, f: Block, b: Band)
    ensures Retry(a, z, f, b) == if b.Ss != 0 && b.Ah != 0 then Redo(a, z, f, b.Al) else Between(a, z, f)
  {
  }

  // ----- a band -----

  lemma ReadBandIs(src: Src, t: HuffTbl, z: Block, d: nat, b: Band)
    requires WellTyped(t) && Legal(t.bits) && |z| == DCTSIZE2 && ValidAc(b)
    ensures b.Al <= 13 && 1 <= b.Ss <= b.Se < DCTSIZE2
    ensures b.Ah == 0 && d > 0 ==> ReadBand(src, t, z, d, b) == BandRead(z, d - 1, src)
    ensures b.Ah == 0 && d == 0 ==> ReadBand(src, t, z, d, b) == ReadFirst(src, t, z, b.Ss, b)
    ensures b.Ah != 0 && d == 0 ==> ReadBand(src, t, z, d, b) == ReadRefine(src, t, z, b.Ss, b)
    ensures b.Ah != 0 && d > 0 ==>
      var e := CorrectRest(src, z, b.Ss, b); ReadBand(src, t, z, d, b) == BandRead(e.0, d - 1, e.1)
  {
    hide ReadFirst, ReadRefine, CorrectRest;
  }

  // decode_mcu_AC_first or decode_mcu_AC_refine, for the block of an MCU.
  method DecodeBand(br: BitReader, d: DDerived, block: array<Coef>, b: Band, EOBRUN: nat, ghost z: Block)
    returns (ok: bool, eobrun: nat)
    requires br.Valid() && br.Settled() && Decodes(d.pub, d) && WellTyped(d.pub) && Legal(d.pub.bits)
    requires block.Length == DCTSIZE2 && |z| == DCTSIZE2 && ValidAc(b)
    requires Retry(Reorder(block[..]), z, ReadBand(br.Remaining(), d.pub, z, EOBRUN, b).block, b)
    modifies br, br.cinfo`unread_marker, br.cinfo`insufficient_data, block
    ensures old(br.cinfo.unread_marker) != 0 ==> br.cinfo.unread_marker != 0
    ensures br.Fetched(ok, old(br.Ending()))
    ensures !ok ==> Retry(Reorder(block[..]), z, ReadBand(old(br.Remaining()), d.pub, z, EOBRUN, b).block, b)
    ensures ok ==>
      BandRead(Reorder(block[..]), eobrun, br.Remaining()) == ReadBand(old(br.Remaining()), d.pub, z, EOBRUN, b)
  {
    hide *;
    Limits();
    ghost var end, final := br.Ending(), ReadBand(br.Remaining(), d.pub, z, EOBRUN, b);
    ReadBandIs(br.Remaining(), d.pub, z, EOBRUN, b);
    RetryIs(Reorder(block[..]), z, final.block, b);
    eobrun := EOBRUN;
    if b.Ah == 0 {
      if eobrun > 0 {
        BetweenDone(Reorder(block[..]), final.block);
        br.FetchedOk(end);
        eobrun := eobrun - 1;
        ok := true;
      } else {
        ok, eobrun := DecodeAcFirst(br, d, block, b, z);
        br.FetchedParts(ok, end);
        RetryIs(Reorder(block[..]), z, final.block, b);
      }
      return;
    }
    var newnz_pos := new nat[DCTSIZE2];
    var num_newnz := 0;
    ghost var newnz: seq<nat> := [];
    if EOBRUN == 0 {
      ok, eobrun, num_newnz, newnz := RefineBody(br, d, block, b, newnz_pos, z);
    } else {
      RedoStart(Reorder(block[..]), z, final.block, b.Ss, b.Al);
      NoneListed(newnz_pos);
      ok := CorrectRemaining(br, block, b.Ss, b, z, z, final.block, []);
      eobrun := eobrun - 1;
    }
    br.FetchedParts(ok, end);
    if !ok {
      Undo(block, newnz_pos, num_newnz, newnz, z, final.block, b.Al);
    }
    RetryIs(Reorder(block[..]), z, final.block, b);
  }

  // ----- DC values -----

  ghost predicate AllRetry(contents: seq<seq<Coef>>, was: Zigzags, finals: Zigzags, b: Band) {
    && |contents| == |was| == |finals|
    && forall i | 0 <= i < |contents| :: |contents[i]| == DCTSIZE2 && Retry(Reorder(contents[i]), was[i], finals[i], b)
  }

  // The first n blocks are done.
  ghost predicate AllDone(contents: seq<seq<Coef>>, finals: Zigzags, n: nat) {
    && |contents| == |finals| && n <= |contents|
    && forall i | 0 <= i < n :: |contents[i]| == DCTSIZE2 && Reorder(contents[i]) == finals[i]
  }

  lemma RetryAt(contents: seq<seq<Coef>>, was: Zigzags, finals: Zigzags, b: Band, n: nat)
    requires AllRetry(contents, was, finals, b) && n < |contents|
    ensures n < |was| == |finals| && |contents[n]| == DCTSIZE2 && Retry(Reorder(contents[n]), was[n], finals[n], b)
  {
  }

  // Only the DC value of a block changes: once it is written, the block is done.
  lemma DcWritten(block: Block, z: Block, f: Block, b: Band, v: Coef)
    requires |block| == |z| == DCTSIZE2 && b.Ss == 0 && f == SetDc(z, v) && Retry(Reorder(block), z, f, b)
    ensures |block[0 := v]| == DCTSIZE2 && Reorder(block[0 := v]) == f && Retry(f, z, f, b)
  {
    hide Natural, Reorder;
    ReorderPut(block, 0, v);
    FirstNatural();
  }

  lemma FirstNatural()
    ensures Natural(0) == 0
  {
  }

  lemma DoneNext(before: seq<seq<Coef>>, after: seq<seq<Coef>>, was: Zigzags, finals: Zigzags, b: Band, n: nat)
    requires AllRetry(before, was, finals, b) && n < |before| == |after|
    requires forall i | 0 <= i < |before| && i != n :: after[i] == before[i]
    requires |after[n]| == DCTSIZE2 && Retry(Reorder(after[n]), was[n], finals[n], b)
    ensures AllRetry(after, was, finals, b)
    ensures AllDone(before, finals, n) && Reorder(after[n]) == finals[n] ==> AllDone(after, finals, n + 1)
  {
    hide Retry, Reorder;
  }

  lemma NoneDone(contents: seq<seq<Coef>>, was: Zigzags, finals: Zigzags, b: Band)
    requires AllRetry(contents, was, finals, b)
    ensures AllDone(contents, finals, 0)
  {
  }

  // The derived tables in use.
  ghost predicate DerivedProg(scan: Scan, b: Band, t: DTables, tbls: seq<DDerived>) {
    && ValidProg(scan, b) && |t.dc| == |t.ac| == |tbls| == NUM_HUFF_TBLS
    && (b.Ss == 0 && b.Ah == 0 ==> forall c | 0 <= c < |scan.comps| ::
          var no := scan.comps[c].dc_tbl_no; Decodes(t.dc[no], tbls[no]) && tbls[no].pub == t.dc[no])
    && (b.Ss != 0 ==> var no := AcTable(scan); Decodes(t.ac[no], tbls[no]) && tbls[no].pub == t.ac[no])
  }

  lemma DerivedDc(scan: Scan, b: Band, t: DTables, tbls: seq<DDerived>, c: nat)
    requires DerivedProg(scan, b, t, tbls) && ValidProgTables(scan, b, t) && b.Ss == 0 && b.Ah == 0 && c < |scan.comps|
    ensures var no := scan.comps[c].dc_tbl_no;
            && no < NUM_HUFF_TBLS == |t.dc| == |tbls|
            && Decodes(tbls[no].pub, tbls[no]) && tbls[no].pub == t.dc[no] && SmallSymbols(t.dc[no])
  {
  }

  // Block n of all that are read, and the state after it.
  lemma {:induction false} DcFirstAt(scan: Scan, b: Band, t: DTables, src: Src, last: seq<int>, was: Zigzags, n: nat,
                                     m: nat)
    requires ValidProgTables(scan, b, t) && b.Ss == 0 && b.Ah == 0
    requires ValidZs(scan, was) && |last| == |scan.comps| && n < m <= |was|
    ensures |was| == |scan.membership| && scan.membership[n] < |scan.comps| && |was[n]| == DCTSIZE2
    ensures var r, r' := ReadDcFirst(scan, b, t, src, last, was, n), ReadDcFirst(scan, b, t, src, last, was, n + 1);
            var ci := scan.membership[n];
            var no := scan.comps[ci].dc_tbl_no;
            && no < NUM_HUFF_TBLS == |t.dc| && WellTyped(t.dc[no]) && Legal(t.dc[no].bits)
            && var s, src1 := Symbol(t.dc[no], r.src), AfterSymbol(t.dc[no], r.src);
            && var v := r.last[ci] + Received(src1, s);
            && r'.last == r.last[ci := v] && r'.src == Skip(src1, s) && r'.eobrun == 0
            && ReadDcFirst(scan, b, t, src, last, was, m).blocks[n] == SetDc(was[n], Cast(v * Pow2(b.Al)))
    decreases m
  {
    hide Symbol, AfterSymbol, Received, Skip, WellTyped, Legal, Cast, Pow2, Upto;
    DcFirstBeyond(scan, b, t, src, last, was, n, n);
    if n < m - 1 {
      DcFirstAt(scan, b, t, src, last, was, n, m - 1);
    }
  }

  lemma {:induction false} DcFirstBeyond(scan: Scan, b: Band, t: DTables, src: Src, last: seq<int>, was: Zigzags,
                                         n: nat, i: nat)
    requires ValidProgTables(scan, b, t) && b.Ss == 0 && b.Ah == 0
    requires ValidZs(scan, was) && |last| == |scan.comps| && n <= i < |was|
    ensures ReadDcFirst(scan, b, t, src, last, was, n).blocks[i] == was[i]
  {
    hide Symbol, AfterSymbol, Received, Skip, WellTyped, Legal, Cast, Pow2, Upto;
    if n > 0 {
      DcFirstBeyond(scan, b, t, src, last, was, n - 1, i);
    }
  }

  lemma DcFirstNone(scan: Scan, b: Band, t: DTables, src: Src, last: seq<int>, was: Zigzags)
    requires ValidProgTables(scan, b, t) && b.Ss == 0 && b.Ah == 0 && ValidZs(scan, was) && |last| == |scan.comps|
    ensures ReadDcFirst(scan, b, t, src, last, was, 0) == ProgRead(was, last, 0, src)
  {
  }

  // decode_mcu_DC_first
  method DecodeDcFirst(br: BitReader, scan: Scan, b: Band, t: DTables, tbls: seq<DDerived>, last0: seq<int>,
                       blocks: seq<array<Coef>>,
                       ghost was: Zigzags)
    returns (ok: bool, last: seq<int>)
    requires br.Valid() && br.Settled() && DerivedProg(scan, b, t, tbls) && ValidProgTables(scan, b, t) && b.Ss == 0
    requires b.Ah == 0
    requires SeqDecoder.ValidBlocks(scan, blocks) && ValidZs(scan, was) && |was| == |scan.membership|
    requires |last0| == |scan.comps|
    requires AllRetry(SeqDecoder.Contents(blocks), was,
                      ReadDcFirst(scan, b, t, br.Remaining(), last0, was, |was|).blocks, b)
    modifies br, br.cinfo`unread_marker, br.cinfo`insufficient_data, blocks
    ensures old(br.cinfo.unread_marker) != 0 ==> br.cinfo.unread_marker != 0
    ensures br.Fetched(ok, old(br.Ending()))
    ensures var m := ReadDcFirst(scan, b, t, old(br.Remaining()), last0, was, |was|);
            && (!ok ==> AllRetry(SeqDecoder.Contents(blocks), was, m.blocks, b))
            && (ok ==> AllDone(SeqDecoder.Contents(blocks), m.blocks, |was|))
            && (ok ==> last == m.last && br.Remaining() == m.src)
  {
    hide *;
    ghost var src, end := br.Remaining(), br.Ending();
    ghost var finals := ReadDcFirst(scan, b, t, src, last0, was, |was|).blocks;
    NoneDone(SeqDecoder.Contents(blocks), was, finals, b);
    DcFirstNone(scan, b, t, src, last0, was);
    last := last0;
    for blkn := 0 to |scan.membership|
      invariant br.Valid() && br.Settled() && br.Ending() == end && |last| == |scan.comps|
      invariant old(br.cinfo.unread_marker) != 0 ==> br.cinfo.unread_marker != 0
      invariant var m := ReadDcFirst(scan, b, t, src, last0, was, blkn); last == m.last && br.Remaining() == m.src
      invariant AllRetry(SeqDecoder.Contents(blocks), was, finals, b)
      invariant AllDone(SeqDecoder.Contents(blocks), finals, blkn)
    {
      DcFirstAt(scan, b, t, src, last0, was, blkn, |was|);
      var ci := scan.membership[blkn];
      DerivedDc(scan, b, t, tbls, ci);
      SeqDecoder.BlockAt(scan, blocks, blkn);
      RetryAt(SeqDecoder.Contents(blocks), was, finals, b, blkn);
      var s;
      ok, s := SeqDecoder.DecodeDc(br, tbls[scan.comps[ci].dc_tbl_no]);
      br.FetchedParts(ok, end);
      if !ok {
        return;
      }
      s := s + last[ci];
      last := last[ci := s];
      ghost var before := SeqDecoder.Contents(blocks);
      var v := Cast(s * Pow2(b.Al));
      DcWritten(before[blkn], was[blkn], finals[blkn], b, v);
      LengthIs64();
      blocks[blkn][0] := v;
      assert blocks[blkn][..] == before[blkn][0 := v];
      DoneNext(before, SeqDecoder.Contents(blocks), was, finals, b, blkn);
    }
    br.FetchedOk(end);
    ok := true;
  }

  lemma LengthIs64()
    ensures DCTSIZE2 == 64
  {
  }

  // Setting a bit twice is setting it once.
  lemma SetBitAgain(v: Coef, al: nat)
    requires al <= 13
    ensures SetBit(SetBit(v, al), al) == SetBit(v, al)
  {
    hide *;
    var p := Pow2(al);
    Pow2Positive(al);
    Pow2Add(15 - al, al);
    Pow2Of15();
    SetBitIs(v, al);
    SetBitIs(SetBit(v, al), al);
    NextQuotient(v, p);
    CastParity(v + p, p, Pow2(15 - al));
  }

  lemma DcSet(block: Block, z: Block, f: Block, b: Band)
    requires |block| == |z| == DCTSIZE2 && b.Ss == 0 && b.Al <= 13 && f == SetDc(z, SetBit(z[0], b.Al))
    requires Retry(Reorder(block), z, f, b)
    ensures DCTSIZE2 == 64
    ensures var v := SetBit(block[0], b.Al);
            |block[0 := v]| == DCTSIZE2 && Reorder(block[0 := v]) == f && Retry(f, z, f, b)
  {
    hide Natural, Reorder, SetBit;
    FirstNatural();
    assert block[0] == Reorder(block)[0];
    SetBitAgain(z[0], b.Al);
    DcWritten(block, z, f, b, SetBit(z[0], b.Al));
  }

  lemma DcKept(block: Block, z: Block, b: Band)
    requires |block| == |z| == DCTSIZE2 && b.Ss == 0 && Retry(Reorder(block), z, z, b)
    ensures Reorder(block) == z
  {
    hide Reorder;
  }

  lemma {:induction false} DcRefineAt(b: Band, src: Src, was: Zigzags, n: nat, m: nat)
    requires (forall i | 0 <= i < |was| :: |was[i]| == DCTSIZE2) && n < m <= |was|
    ensures |was[n]| == DCTSIZE2
    ensures var bit := Peek(ReadDcRefine(b, src, was, n).1, 1) == 1;
            && ReadDcRefine(b, src, was, m).0[n] == (if bit then SetDc(was[n], SetBit(was[n][0], b.Al)) else was[n])
            && ReadDcRefine(b, src, was, n + 1).1 == Skip(ReadDcRefine(b, src, was, n).1, 1)
    decreases m
  {
    hide Peek, Skip, SetBit;
    DcRefineBeyond(b, src, was, n, n);
    if n < m - 1 {
      DcRefineAt(b, src, was, n, m - 1);
    }
  }

  lemma {:induction false} DcRefineBeyond(b: Band, src: Src, was: Zigzags, n: nat, i: nat)
    requires (forall i | 0 <= i < |was| :: |was[i]| == DCTSIZE2) && n <= i < |was|
    ensures ReadDcRefine(b, src, was, n).0[i] == was[i]
  {
    hide Peek, Skip, SetBit;
    if n > 0 {
      DcRefineBeyond(b, src, was, n - 1, i);
    }
  }

  // decode_mcu_DC_refine
  method DecodeDcRefine(br: BitReader, scan: Scan, b: Band, blocks: seq<array<Coef>>, ghost was: Zigzags)
    returns (ok: bool)
    requires br.Valid() && br.Settled() && b.Ss == 0 && b.Al <= 13 && SeqDecoder.ValidBlocks(scan, blocks)
    requires |was| == |scan.membership| && forall i | 0 <= i < |was| :: |was[i]| == DCTSIZE2
    requires AllRetry(SeqDecoder.Contents(blocks), was, ReadDcRefine(b, br.Remaining(), was, |was|).0, b)
    modifies br, br.cinfo`unread_marker, br.cinfo`insufficient_data, blocks
    ensures old(br.cinfo.unread_marker) != 0 ==> br.cinfo.unread_marker != 0
    ensures br.Fetched(ok, old(br.Ending()))
    ensures var m := ReadDcRefine(b, old(br.Remaining()), was, |was|);
            && (!ok ==> AllRetry(SeqDecoder.Contents(blocks), was, m.0, b))
            && (ok ==> AllDone(SeqDecoder.Contents(blocks), m.0, |was|) && br.Remaining() == m.1)
  {
    hide *;
    SeqDecoder.FetchLimit();
    ghost var src, end := br.Remaining(), br.Ending();
    ghost var finals := ReadDcRefine(b, src, was, |was|).0;
    NoneDone(SeqDecoder.Contents(blocks), was, finals, b);
    DcRefineNone(b, src, was);
    for blkn := 0 to |scan.membership|
      invariant br.Valid() && br.Settled() && br.Ending() == end
      invariant old(br.cinfo.unread_marker) != 0 ==> br.cinfo.unread_marker != 0
      invariant br.Remaining() == ReadDcRefine(b, src, was, blkn).1
      invariant AllRetry(SeqDecoder.Contents(blocks), was, finals, b)
      invariant AllDone(SeqDecoder.Contents(blocks), finals, blkn)
    {
      DcRefineAt(b, src, was, blkn, |was|);
      SeqDecoder.BlockAt(scan, blocks, blkn);
      RetryAt(SeqDecoder.Contents(blocks), was, finals, b, blkn);
      var bit;
      ok, bit := br.GetBits(1);
      br.FetchedParts(ok, end);
      if !ok {
        return;
      }
      ghost var before := SeqDecoder.Contents(blocks);
      if bit == 1 {
        DcSet(before[blkn], was[blkn], finals[blkn], b);
        var v := SetBit(blocks[blkn][0], b.Al);
        blocks[blkn][0] := v;
        assert blocks[blkn][..] == before[blkn][0 := v];
      } else {
        DcKept(before[blkn], was[blkn], b);
      }
      DoneNext(before, SeqDecoder.Contents(blocks), was, finals, b, blkn);
    }
    br.FetchedOk(end);
    ok := true;
  }

  lemma DcRefineNone(b: Band, src: Src, was: Zigzags)
    requires forall i | 0 <= i < |was| :: |was[i]| == DCTSIZE2
    ensures ReadDcRefine(b, src, was, 0) == (was, src)
  {
  }

  // ----- an MCU -----

  lemma StepIs(scan: Scan, b: Band, t: DTables, src: Src, last: seq<int>, eobrun: nat, was: Zigzags)
    requires ValidProgTables(scan, b, t) && ValidZs(scan, was) && |last| == |scan.comps|
    ensures |was| == |scan.membership| && (forall i | 0 <= i < |was| :: |was[i]| == DCTSIZE2)
    ensures b.Ss == 0 && b.Ah == 0 ==>
      var r := ReadDcFirst(scan, b, t, src, last, was, |was|);
      ReadStep(scan, b, t, src, last, eobrun, was) == ProgRead(r.blocks, r.last, eobrun, r.src)
    ensures b.Ss == 0 && b.Ah != 0 ==>
      b.Al <= 13 &&
      var r := ReadDcRefine(b, src, was, |was|);
      ReadStep(scan, b, t, src, last, eobrun, was) == ProgRead(r.0, last, eobrun, r.1)
    ensures b.Ss != 0 ==>
      && ValidAc(b) && |scan.comps| == 1 && AcTable(scan) < NUM_HUFF_TBLS == |t.ac| && |was| == 1
      && WellTyped(t.ac[AcTable(scan)]) && Legal(t.ac[AcTable(scan)].bits)
      && var r := ReadBand(src, t.ac[AcTable(scan)], was[0], eobrun, b);
      && ReadStep(scan, b, t, src, last, eobrun, was) == ProgRead([r.block], last, r.eobrun, r.src)
  {
    hide ReadDcFirst, ReadDcRefine, ReadBand, WellTyped, Legal;
  }

  lemma DerivedAc(scan: Scan, b: Band, t: DTables, tbls: seq<DDerived>)
    requires DerivedProg(scan, b, t, tbls) && b.Ss != 0
    ensures |scan.comps| == 1 && AcTable(scan) < NUM_HUFF_TBLS == |t.ac| == |tbls|
    ensures Decodes(tbls[AcTable(scan)].pub, tbls[AcTable(scan)]) && tbls[AcTable(scan)].pub == t.ac[AcTable(scan)]
  {
  }

  lemma OneBlock(contents: seq<seq<Coef>>, was: Zigzags, finals: Zigzags, b: Band)
    requires |contents| == |was| == |finals| == 1
    ensures AllRetry(contents, was, finals, b) <==>
      |contents[0]| == DCTSIZE2 && Retry(Reorder(contents[0]), was[0], finals[0], b)
    ensures AllDone(contents, finals, 1) <==> |contents[0]| == DCTSIZE2 && Reorder(contents[0]) == finals[0]
  {
  }

  // The blocks of an MCU.
  method DecodeStep(br: BitReader, scan: Scan, b: Band, t: DTables, tbls: seq<DDerived>, last0: seq<int>, EOBRUN: nat,
                    blocks: seq<array<Coef>>, ghost was: Zigzags)
    returns (ok: bool, last: seq<int>, eobrun: nat)
    requires br.Valid() && br.Settled() && DerivedProg(scan, b, t, tbls) && ValidProgTables(scan, b, t)
    requires SeqDecoder.ValidBlocks(scan, blocks) && ValidZs(scan, was) && |last0| == |scan.comps|
    requires AllRetry(SeqDecoder.Contents(blocks), was,
                      ReadStep(scan, b, t, br.Remaining(), last0, EOBRUN, was).blocks, b)
    modifies br, br.cinfo`unread_marker, br.cinfo`insufficient_data, blocks
    ensures old(br.cinfo.unread_marker) != 0 ==> br.cinfo.unread_marker != 0
    ensures br.Fetched(ok, old(br.Ending()))
    ensures var m := ReadStep(scan, b, t, old(br.Remaining()), last0, EOBRUN, was);
            && (!ok ==> AllRetry(SeqDecoder.Contents(blocks), was, m.blocks, b))
            && (ok ==> AllDone(SeqDecoder.Contents(blocks), m.blocks, |was|) && last == m.last && eobrun == m.eobrun
                       && br.Remaining() == m.src)
  {
    hide *;
    last, eobrun := last0, EOBRUN;
    StepIs(scan, b, t, br.Remaining(), last0, EOBRUN, was);
    if b.Ss == 0 {
      if b.Ah == 0 {
        ok, last := DecodeDcFirst(br, scan, b, t, tbls, last0, blocks, was);
      } else {
        ok := DecodeDcRefine(br, scan, b, blocks, was);
      }
    } else {
      DerivedAc(scan, b, t, tbls);
      SeqDecoder.BlockAt(scan, blocks, 0);
      ghost var finals := ReadStep(scan, b, t, br.Remaining(), last0, EOBRUN, was).blocks;
      OneBlock(SeqDecoder.Contents(blocks), was, finals, b);
      ok, eobrun := DecodeBand(br, tbls[AcTable(scan)], blocks[0], b, EOBRUN, was[0]);
      OneBlock(SeqDecoder.Contents(blocks), was, finals, b);
    }
  }

  // A dry segment leaves a DC refinement's blocks and state as they are.
  lemma {:induction false} DryRefine(b: Band, was: Zigzags, n: nat)
    requires n <= |was| && forall i | 0 <= i < |was| :: |was[i]| == DCTSIZE2
    ensures ReadDcRefine(b, Src([], true), was, n) == (was, Src([], true))
  {
    hide SetBit;
    if n > 0 {
      DryRefine(b, was, n - 1);
      ZeroPeek();
    }
  }

  lemma ZeroPeek()
    ensures Peek(Src([], true), 1) == 0 && Skip(Src([], true), 1) == Src([], true)
  {
    assert Ahead([], 1) == [false];
    assert [false][..0] == [];
  }

  // What the blocks hold on the way to an outcome.
  ghost predicate OnTheWay(contents: seq<seq<Coef>>, was: Zigzags, o: POutcome, b: Band) {
    o.POutcome? ==> AllRetry(contents, was, o.blocks, b)
  }

  ghost predicate Complete(contents: seq<seq<Coef>>, o: POutcome) {
    o.POutcome? && AllDone(contents, o.blocks, |o.blocks|)
  }

  // Blocks that have not been touched are on the way to any outcome.
  lemma UntouchedOnTheWay(scan: Scan, contents: seq<seq<Coef>>, was: Zigzags, o: POutcome, b: Band)
    requires |contents| == |was|
    requires forall i | 0 <= i < |was| :: |contents[i]| == DCTSIZE2 && Reorder(contents[i]) == was[i]
    requires ValidZs(scan, was) && (o.POutcome? ==> ValidZs(scan, o.blocks))
    ensures OnTheWay(contents, was, o, b)
  {
    hide Retry, Reorder;
    if o.POutcome? {
      forall i | 0 <= i < |was|
        ensures Retry(Reorder(contents[i]), was[i], o.blocks[i], b)
      {
        RetryFresh(was[i], o.blocks[i], b);
      }
    }
  }

  // When the segment has run dry, what is there stays.
  lemma DryDone(contents: seq<seq<Coef>>, was: Zigzags, b: Band)
    requires AllRetry(contents, was, was, b)
    ensures AllDone(contents, was, |was|)
  {
    hide Reorder, Correct;
  }

  // The entropy decoder.
  class PhuffDecoder {
    const cinfo: Source
    const scan: Scan
    const b: Band
    const tables: DTables
    const tbls: seq<DDerived>
    var get_buffer: Word32
    var bits_left: nat
    var last_dc_val: seq<int>
    var EOBRUN: nat
    var restarts_to_go: nat
    ghost var buf: Bits

    ghost predicate Valid()
      reads this, cinfo
    {
      && cinfo.Valid() && ValidProgTables(scan, b, tables) && DerivedProg(scan, b, tables, tbls)
      && bits_left == |buf| && Low(get_buffer, buf) && |last_dc_val| == |scan.comps|
      && (cinfo.insufficient_data ==> forall i | 0 <= i < |buf| :: !buf[i])
    }

    ghost function Abstract(): PDec
      requires Valid()
      reads this, cinfo
    {
      PDec(DecState(if cinfo.insufficient_data then Src([], true)
                    else Src(if cinfo.unread_marker != 0 then buf else buf + SegmentBits(cinfo.data, cinfo.pos), false),
                    cinfo.Ending(), last_dc_val, restarts_to_go, cinfo.next_restart_num),
           EOBRUN)
    }

    lemma ValidAbstract()
      requires Valid()
      ensures ValidDec(scan, cinfo.data, Abstract().core)
    {
    }

    // What the next MCU will be, whose blocks were was.
    ghost function Next(was: Zigzags): POutcome
      requires Valid() && ValidZs(scan, was)
      reads this, cinfo
    {
      ValidAbstract();
      PDecodeOne(scan, b, tables, cinfo.data, Abstract(), was)
    }

    // What has arrived does not suffice for the next MCU.
    ghost predicate Starved()
      requires Valid()
      reads this, cinfo
    {
      ValidAbstract();
      !SeqDecoder.Live(scan, cinfo.data, Abstract().core, cinfo.avail)
    }

    // start_pass_phuff_decoder
    constructor (cinfo: Source, scan: Scan, b: Band, tables: DTables, tbls: seq<DDerived>)
      requires cinfo.Valid() && !cinfo.insufficient_data && ValidProgTables(scan, b, tables)
      requires DerivedProg(scan, b, tables, tbls)
      ensures this.cinfo == cinfo && this.scan == scan && this.b == b && this.tables == tables && this.tbls == tbls
      ensures Valid() && last_dc_val == NoPredictions(scan) && restarts_to_go == scan.restart_interval && buf == []
      ensures EOBRUN == 0
    {
      this.cinfo, this.scan, this.b, this.tables, this.tbls := cinfo, scan, b, tables, tbls;
      get_buffer, bits_left, buf := 0, 0, [];
      last_dc_val, EOBRUN, restarts_to_go := NoPredictions(scan), 0, scan.restart_interval;
      LowNothing(0);
    }

    // process_restart
    method ProcessRestart() returns (ok: bool)
      requires Valid()
      modifies this, cinfo`pos, cinfo`unread_marker, cinfo`discarded_bytes, cinfo`next_restart_num,
        cinfo`insufficient_data
      ensures Valid()
      ensures ok <==> Reached(AfterEnd(cinfo.data, old(cinfo.Ending()), old(cinfo.next_restart_num)), cinfo.avail)
      ensures ok ==>
        var r := AfterEnd(cinfo.data, old(cinfo.Ending()), old(cinfo.next_restart_num));
        Abstract() == PDec(AtPlace(scan, cinfo.data, old(Abstract()).core, r.unread, r.pos), 0)
      ensures !ok ==> restarts_to_go == old(restarts_to_go) && cinfo.next_restart_num == old(cinfo.next_restart_num)
      ensures !ok ==>
        Abstract().core.last == old(Abstract().core.last) && cinfo.insufficient_data == old(cinfo.insufficient_data)
      ensures !ok ==> AfterEnd(cinfo.data, cinfo.Ending(), cinfo.next_restart_num) ==
                      AfterEnd(cinfo.data, old(cinfo.Ending()), cinfo.next_restart_num)
    {
      hide AfterEnd, SegmentBits, SegmentEnd, ValidProgTables, DerivedProg, Low;
      cinfo.discarded_bytes := cinfo.discarded_bytes + bits_left / 8;
      bits_left, buf := 0, [];
      LowNothing(get_buffer);
      ok := ReadRestartMarker(cinfo);
      if !ok {
        return;
      }
      last_dc_val := NoPredictions(scan);
      EOBRUN := 0;
      restarts_to_go := scan.restart_interval;
      if cinfo.unread_marker == 0 {
        cinfo.insufficient_data := false;
        assert [] + SegmentBits(cinfo.data, cinfo.pos) == SegmentBits(cinfo.data, cinfo.pos);
      }
    }

    lemma ReaderAgrees(br: BitReader)
      requires Valid() && br.Valid() && br.cinfo == cinfo && br.next_input_byte == cinfo.pos && br.buf == buf
      ensures br.Settled() && br.Remaining() == Abstract().core.src && br.Ending() == Abstract().core.end
    {
      hide SegmentBits, SegmentEnd, ValidProgTables, DerivedProg, Low;
    }

    // What a segment's blocks are read as: a dry segment changes nothing.
    lemma ReadMcuIs(s: PDec, was: Zigzags)
      requires Valid() && ValidZs(scan, was) && s == Abstract()
      ensures |s.core.last| == |scan.comps| && s.core.last == last_dc_val && s.eobrun == EOBRUN
      ensures s.core.restarts_to_go == restarts_to_go
      ensures ValidProgTables(scan, b, tables) && DerivedProg(scan, b, tables, tbls)
      ensures var o, m := PReadMcu(scan, b, tables, s, was),
          ReadStep(scan, b, tables, s.core.src, s.core.last, s.eobrun, was);
              var togo := CountDown(restarts_to_go);
              if cinfo.insufficient_data then
                && o == POutcome(was, s.(core := s.core.(restarts_to_go := togo)))
                && (b.Ss == 0 && b.Ah != 0 ==> m == ProgRead(was, s.core.last, s.eobrun, Src([], true)))
              else
                o == POutcome(m.blocks, PDec(s.core.(src := if m.src.dry then Src([], true) else m.src, last := m.last,
                                                     restarts_to_go := togo), m.eobrun))
    {
      hide SegmentBits, SegmentEnd, ReadDcFirst, ReadBand, Low;
      if b.Ss == 0 && b.Ah != 0 {
        DryRefine(b, was, |was|);
      }
    }

    // The state after an MCU has been read.
    ghost predicate After(s: PDec, m: ProgRead)
      requires Valid()
      reads this, cinfo
    {
      Abstract() == PDec(s.core.(src := if m.src.dry then Src([], true) else m.src, last := m.last), m.eobrun)
    }

    // The blocks of an MCU, from the bits.
    method ReadBlocks(blocks: seq<array<Coef>>, ghost was: Zigzags) returns (ok: bool)
      requires Valid() && SeqDecoder.ValidBlocks(scan, blocks) && ValidZs(scan, was) && |last_dc_val| == |scan.comps|
      requires ValidProgTables(scan, b, tables)
      requires AllRetry(SeqDecoder.Contents(blocks), was,
                        ReadStep(scan, b, tables, Abstract().core.src, last_dc_val, EOBRUN, was).blocks, b)
      modifies this, cinfo`pos, cinfo`unread_marker, cinfo`insufficient_data, blocks
      ensures Valid()
      ensures var m := ReadStep(scan, b, tables, old(Abstract().core.src), old(last_dc_val), old(EOBRUN), was);
              && (ok ==> AllDone(SeqDecoder.Contents(blocks), m.blocks, |was|) && After(old(Abstract()), m))
              && (!ok ==> AllRetry(SeqDecoder.Contents(blocks), was, m.blocks, b) && Abstract() == old(Abstract()))
      ensures Arrived(old(cinfo.Ending()), cinfo.avail) ==> ok
    {
      hide SegmentBits, SegmentEnd, ValidProgTables, DerivedProg, Low, ReadStep, AllRetry, AllDone, Arrived,
        SeqDecoder.ValidBlocks, ValidZs;
      ghost var s := Abstract();
      var br := new BitReader(cinfo, get_buffer, bits_left, buf);
      ReaderAgrees(br);
      var last, eobrun;
      ok, last, eobrun := DecodeStep(br, scan, b, tables, tbls, last_dc_val, EOBRUN, blocks, was);
      br.FetchedParts(ok, s.core.end);
      if !ok {
        return;
      }
      cinfo.pos := br.next_input_byte;
      get_buffer, bits_left, buf := br.get_buffer, br.bits_left, br.buf;
      last_dc_val := last;
      EOBRUN := eobrun;
    }

    // The blocks of an MCU, after any restart. (A DC refinement need not look
    // whether data is left: made-up zero bits change nothing.)
    method DecodeMcuBlocks(blocks: seq<array<Coef>>, ghost was: Zigzags) returns (ok: bool)
      requires Valid() && SeqDecoder.ValidBlocks(scan, blocks) && ValidZs(scan, was) && |last_dc_val| == |scan.comps|
      requires ValidProgTables(scan, b, tables)
      requires AllRetry(SeqDecoder.Contents(blocks), was, PReadMcu(scan, b, tables, Abstract(), was).blocks, b)
      modifies this, cinfo`pos, cinfo`unread_marker, cinfo`insufficient_data, blocks
      ensures Valid()
      ensures var o := PReadMcu(scan, b, tables, old(Abstract()), was);
              && (ok ==> AllDone(SeqDecoder.Contents(blocks), o.blocks, |was|) && Abstract() == o.state)
              && (!ok ==> AllRetry(SeqDecoder.Contents(blocks), was, o.blocks, b) && Abstract() == old(Abstract()))
      ensures Arrived(old(cinfo.Ending()), cinfo.avail) ==> ok
    {
      hide SegmentBits, SegmentEnd, ValidProgTables, DerivedProg, Low, ReadStep, AllRetry, AllDone, Arrived,
        SeqDecoder.ValidBlocks, ValidZs,
        PReadMcu;
      ReadMcuIs(Abstract(), was);
      if !cinfo.insufficient_data || (b.Ss == 0 && b.Ah != 0) {
        ok := ReadBlocks(blocks, was);
        if !ok {
          return;
        }
      } else {
        DryDone(SeqDecoder.Contents(blocks), was, b);
      }
      restarts_to_go := CountDown(restarts_to_go);
      ok := true;
    }

    // decode_mcu_DC_first, decode_mcu_AC_first, decode_mcu_DC_refine or
    // decode_mcu_AC_refine: the MCU is complete, or everything can be tried again.
    method DecodeMcu(blocks: seq<array<Coef>>, ghost was: Zigzags) returns (ok: bool)
      requires Valid() && SeqDecoder.ValidBlocks(scan, blocks) && ValidZs(scan, was)
      requires OnTheWay(SeqDecoder.Contents(blocks), was, Next(was), b)
      modifies this, blocks
      modifies cinfo`pos, cinfo`unread_marker, cinfo`discarded_bytes, cinfo`next_restart_num, cinfo`insufficient_data
      ensures Valid()
      ensures ok ==> Complete(SeqDecoder.Contents(blocks), old(Next(was))) && Abstract() == old(Next(was)).state
      ensures !ok ==> Next(was) == old(Next(was)) && OnTheWay(SeqDecoder.Contents(blocks), was, old(Next(was)), b)
      ensures ValidDec(scan, cinfo.data, old(Abstract()).core) ==>
        SeqDecoder.Live(scan, cinfo.data, old(Abstract()).core, cinfo.avail) ==> ok
      ensures !ok ==> Starved()
    {
      hide SegmentBits, SegmentEnd, ValidProgTables, DerivedProg, Low, PReadMcu, AllRetry, AllDone, Arrived,
        SeqDecoder.ValidBlocks,
        AfterEnd, ValidProg;
      TablesFit();
      if scan.restart_interval != 0 && restarts_to_go == 0 {
        ok := ProcessRestart();
        if !ok {
          return;
        }
      }
      ok := DecodeMcuBlocks(blocks, was);
    }

    // More bytes arrive, between calls: what is read next stays the same.
    method More(n: nat)
      requires Valid() && cinfo.avail + n <= |cinfo.data|
      modifies cinfo`avail
      ensures Valid() && Abstract() == old(Abstract()) && cinfo.avail == old(cinfo.avail) + n
      ensures forall was: Zigzags | ValidZs(scan, was) :: Next(was) == old(Next(was))
    {
      hide ValidProgTables, DerivedProg, PDecodeOne, SegmentBits, SegmentEnd, Low, ValidZs;
      cinfo.Arrive(n);
    }

    lemma TablesFit()
      requires Valid()
      ensures ValidProgTables(scan, b, tables) && |last_dc_val| == |scan.comps|
    {
    }
  }
}
