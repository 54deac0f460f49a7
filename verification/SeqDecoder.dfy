// The sequential Huffman decoder (jdhuff.c): decode_mcu with its block loop and
// process_restart, which may be suspended at any byte.
module SeqDecoder {
  import opened Bits
  import opened Words
  import opened HuffTable
  import opened DerivedTables
  import opened Tokens
  import opened BitSource
  import opened Blocks
  import opened SeqCodec
  import opened McuCodec
  import opened BitWriter
  import opened ByteStream
  import opened BitReader
  import opened Markers
  import opened McuReading

  // ----- blocks that are filled in place -----

  // A block, zeroed by the caller, into which some coefficients of final may
  // have been written already.
  ghost predicate Partial(b: Block, final: Block) {
    |b| == |final| == DCTSIZE2 && forall j | 0 <= j < DCTSIZE2 :: b[j] == 0 || b[j] == final[j]
  }

  // Everything that has been decoded has been written.
  ghost predicate Covers(b: Block, cur: Block) {
    |b| == |cur| == DCTSIZE2 && forall j | 0 <= j < DCTSIZE2 :: cur[j] != 0 ==> b[j] == cur[j]
  }

  lemma PartialCovers(b: Block, final: Block)
    requires Partial(b, final) && Covers(b, final)
    ensures b == final
  {
  }

  // Reading on does not change what lies before position k.
  lemma {:induction false} ReadAcKeeps(src: Src, t: HuffTbl, b: Block, k: nat, j: nat)
    requires WellTyped(t) && Legal(t.bits) && |b| == DCTSIZE2 && j < k && j < DCTSIZE2
    ensures ReadAc(src, t, b, k).0[j] == b[j]
    decreases DCTSIZE2 - k
  {
    hide SymbolAt, Received, Legal, WellTyped, Skip, Cast;
    if k < DCTSIZE2 {
      var sym, src1 := Symbol(t, src), AfterSymbol(t, src);
      var r, s := sym / 16, sym % 16;
      if s != 0 {
        ReadAcKeeps(Skip(src1, s), t, Put(b, k + r, Cast(Received(src1, s))), k + r + 1, j);
      } else if r == 15 {
        ReadAcKeeps(src1, t, b, k + 16, j);
      }
    }
  }

  // Writing a coefficient at position p when the rest of the block will not touch it.
  lemma WriteOne(block: Block, cur: Block, final: Block, p: nat, v: Coef)
    requires |block| == DCTSIZE2 && p < DCTSIZE2 + 16
    requires Partial(Reorder(block), final) && Covers(Reorder(block), cur)
    requires final[if p < DCTSIZE2 then p else DCTSIZE2 - 1] == v
    ensures Partial(Reorder(block[Natural(p) := v]), final) && Covers(Reorder(block[Natural(p) := v]), Put(cur, p, v))
  {
    hide Natural, Reorder;
    ReorderPut(block, p, v);
  }

  // ----- decode_mcu, one block -----

  // The value of s bits.
  method ReceiveValue(br: BitReader, s: nat) returns (ok: bool, v: int)
    requires br.Valid() && br.Settled() && 0 < s <= 15
    modifies br, br.cinfo`unread_marker, br.cinfo`insufficient_data
    ensures old(br.cinfo.unread_marker) != 0 ==> br.cinfo.unread_marker != 0
    ensures br.Fetched(ok, old(br.Ending()))
    ensures ok ==> v == Received(old(br.Remaining()), s) && br.Remaining() == Skip(old(br.Remaining()), s)
  {
    hide *;
    FetchLimit();
    var r;
    ok, r := br.GetBits(s);
    v := Extend(r, s);
    ReceivedIs(old(br.Remaining()), s);
  }

  lemma FetchLimit()
    ensures MIN_GET_BITS == 25
  {
  }

  lemma ReceivedIs(src: Src, s: nat)
    ensures Received(src, s) == if s == 0 then 0 else Extend(Peek(src, s), s)
  {
  }

  // One AC symbol in the block loop: what it says about the next step.
  lemma AcStep(src: Src, t: HuffTbl, b: Block, k: nat)
    requires WellTyped(t) && Legal(t.bits) && |b| == DCTSIZE2 && k < DCTSIZE2
    ensures var sym, src1 := Symbol(t, src), AfterSymbol(t, src);
            var r, s := sym / 16, sym % 16;
            && sym < 256
            && (s != 0 ==>
                 ReadAc(src, t, b, k) == ReadAc(Skip(src1, s), t, Put(b, k + r, Cast(Received(src1, s))), k + r + 1))
            && (s == 0 && r != 15 ==> ReadAc(src, t, b, k) == (b, src1))
            && (s == 0 && r == 15 ==> ReadAc(src, t, b, k) == ReadAc(src1, t, b, k + 16))
            && (s != 0 ==> SkipAc(src, t, k) == SkipAc(Skip(src1, s), t, k + r + 1))
            && (s == 0 && r != 15 ==> SkipAc(src, t, k) == src1)
            && (s == 0 && r == 15 ==> SkipAc(src, t, k) == SkipAc(src1, t, k + 16))
  {
    hide SymbolAt, Received, Legal, WellTyped, Skip, Cast;
  }

  lemma AcStop(src: Src, t: HuffTbl, b: Block, k: nat)
    requires WellTyped(t) && Legal(t.bits) && |b| == DCTSIZE2 && k >= DCTSIZE2
    ensures ReadAc(src, t, b, k) == (b, src) && SkipAc(src, t, k) == src
  {
  }

  // A block in place: partly written already, and as far as decoded now (cur).
  ghost predicate InPlace(block: seq<Coef>, cur: Block, final: Block) {
    |block| == DCTSIZE2 && Partial(Reorder(block), final) && Covers(Reorder(block), cur)
  }

  lemma InPlaceDone(block: seq<Coef>, final: Block)
    requires InPlace(block, final, final)
    ensures |block| == DCTSIZE2 && Partial(Reorder(block), final) && Reorder(block) == final
  {
    PartialCovers(Reorder(block), final);
  }

  lemma InPlacePartial(block: seq<Coef>, cur: Block, final: Block)
    requires InPlace(block, cur, final)
    ensures |block| == DCTSIZE2 && Partial(Reorder(block), final)
  {
  }

  // The coefficient just decoded is the final one.
  lemma InPlaceNext(block: seq<Coef>, cur: Block, t: HuffTbl, src: Src, k: nat, v: Coef, final: (Block, Src))
    requires WellTyped(t) && Legal(t.bits) && |cur| == DCTSIZE2 && k < DCTSIZE2 + 16 && InPlace(block, cur, final.0)
    requires ReadAc(src, t, Put(cur, k, v), k + 1) == final
    ensures InPlace(block[Natural(k) := v], Put(cur, k, v), final.0)
  {
    hide ReadAc, Reorder, Partial, Covers, Natural;
    var p := if k < DCTSIZE2 then k else DCTSIZE2 - 1;
    ReadAcKeeps(src, t, Put(cur, k, v), k + 1, p);
    WriteOne(block, cur, final.0, k, v);
  }

  // The AC coefficients, from position 1 on, into the block.
  method DecodeAc(br: BitReader, d: DDerived, block: array<Coef>, ghost start: Block)
    returns (ok: bool)
    requires br.Valid() && br.Settled() && Decodes(d.pub, d) && WellTyped(d.pub) && Legal(d.pub.bits)
    requires block.Length == DCTSIZE2 && |start| == DCTSIZE2
    requires InPlace(block[..], start, ReadAc(br.Remaining(), d.pub, start, 1).0)
    modifies br, br.cinfo`unread_marker, br.cinfo`insufficient_data, block
    ensures old(br.cinfo.unread_marker) != 0 ==> br.cinfo.unread_marker != 0
    ensures br.Fetched(ok, old(br.Ending()))
    ensures Partial(Reorder(block[..]), ReadAc(old(br.Remaining()), d.pub, start, 1).0)
    ensures ok ==> (Reorder(block[..]), br.Remaining()) == ReadAc(old(br.Remaining()), d.pub, start, 1)
  {
    hide *;
    Limits();
    ghost var src0, end := br.Remaining(), br.Ending();
    ghost var final := ReadAc(src0, d.pub, start, 1);
    ghost var cur := start;
    var k := 1;
    while k < DCTSIZE2
      invariant br.Valid() && br.Settled() && br.Ending() == end && |cur| == DCTSIZE2 && k >= 1
      invariant old(br.cinfo.unread_marker) != 0 ==> br.cinfo.unread_marker != 0
      invariant ReadAc(br.Remaining(), d.pub, cur, k) == final
      invariant InPlace(block[..], cur, final.0)
      decreases DCTSIZE2 - k
    {
      AcStep(br.Remaining(), d.pub, cur, k);
      var sym := br.DecodeSymbol(d);
      br.FetchedParts(sym >= 0, end);
      InPlacePartial(block[..], cur, final.0);
      if sym < 0 {
        return false;
      }
      var r, s := sym / 16, sym % 16;
      if s != 0 {
        k := k + r;
        ghost var src1 := br.Remaining();
        var value;
        ok, value := ReceiveValue(br, s);
        br.FetchedParts(ok, end);
        if !ok {
          return;
        }
        InPlaceNext(block[..], cur, d.pub, br.Remaining(), k, Cast(value), final);
        ghost var was := block[..];
        block[Natural(k)] := Cast(value);
        assert block[..] == was[Natural(k) := Cast(value)];
        cur := Put(cur, k, Cast(value));
      } else {
        if r != 15 {
          InPlaceDone(block[..], final.0);
          return true;
        }
        k := k + 15;
      }
      k := k + 1;
    }
    AcStop(br.Remaining(), d.pub, cur, k);
    InPlaceDone(block[..], final.0);
    br.FetchedOk(end);
    ok := true;
  }

  // Discards the AC coefficients of an unwanted block.
  method SkipOverAc(br: BitReader, d: DDerived) returns (ok: bool)
    requires br.Valid() && br.Settled() && Decodes(d.pub, d) && WellTyped(d.pub) && Legal(d.pub.bits)
    modifies br, br.cinfo`unread_marker, br.cinfo`insufficient_data
    ensures old(br.cinfo.unread_marker) != 0 ==> br.cinfo.unread_marker != 0
    ensures br.Fetched(ok, old(br.Ending()))
    ensures ok ==> br.Remaining() == SkipAc(old(br.Remaining()), d.pub, 1)
  {
    hide *;
    Limits();
    FetchLimit();
    ghost var end, final, any := br.Ending(), SkipAc(br.Remaining(), d.pub, 1), ZeroBlock();
    var k := 1;
    while k < DCTSIZE2
      invariant br.Valid() && br.Settled() && br.Ending() == end && k >= 1
      invariant old(br.cinfo.unread_marker) != 0 ==> br.cinfo.unread_marker != 0
      invariant SkipAc(br.Remaining(), d.pub, k) == final
      decreases DCTSIZE2 - k
    {
      AcStep(br.Remaining(), d.pub, any, k);
      var sym := br.DecodeSymbol(d);
      br.FetchedParts(sym >= 0, end);
      if sym < 0 {
        return false;
      }
      var r, s := sym / 16, sym % 16;
      if s != 0 {
        k := k + r;
        var dropped;
        ok, dropped := br.GetBits(s);
        br.FetchedParts(ok, end);
        if !ok {
          return;
        }
      } else {
        if r != 15 {
          br.FetchedOk(end);
          return true;
        }
        k := k + 15;
      }
      k := k + 1;
    }
    AcStop(br.Remaining(), d.pub, any, k);
    br.FetchedOk(end);
    ok := true;
  }

  // The DC symbol and its bits: the value they stand for.
  method DecodeDc(br: BitReader, d: DDerived) returns (ok: bool, value: int)
    requires br.Valid() && br.Settled() && Decodes(d.pub, d) && SmallSymbols(d.pub)
    modifies br, br.cinfo`unread_marker, br.cinfo`insufficient_data
    ensures old(br.cinfo.unread_marker) != 0 ==> br.cinfo.unread_marker != 0
    ensures br.Fetched(ok, old(br.Ending()))
    ensures WellTyped(d.pub) && Legal(d.pub.bits)
    ensures ok ==> var src := old(br.Remaining());
                   var s := Symbol(d.pub, src);
                   value == Received(AfterSymbol(d.pub, src), s) && br.Remaining() == Skip(AfterSymbol(d.pub, src), s)
  {
    hide *;
    ghost var src, end := br.Remaining(), br.Ending();
    SmallSymbol(d.pub, src);
    value := 0;
    var s := br.DecodeSymbol(d);
    br.FetchedParts(s >= 0, end);
    if s < 0 {
      return false, 0;
    }
    ReceivedIs(br.Remaining(), s);
    if s != 0 {
      ok, value := ReceiveValue(br, s);
      br.FetchedParts(ok, end);
    } else {
      SkipNone(br.Remaining());
      br.FetchedOk(end);
      ok := true;
    }
  }

  lemma SmallSymbol(t: HuffTbl, src: Src)
    requires SmallSymbols(t)
    ensures WellTyped(t) && Legal(t.bits) && Symbol(t, src) <= 15
  {
    if MatchLen(t.bits, src.bits) < 17 {
      assert t.huffval[MatchIndex(t.bits, src.bits)] <= 15;
    }
  }

  lemma SkipNone(src: Src)
    ensures Skip(src, 0) == src
  {
  }

  // The DC coefficient of a wanted block is written before the others.
  lemma StartBlock(block: seq<Coef>, src: Src, ac: HuffTbl, v: Coef, w: Wanted, final: Block)
    requires WellTyped(ac) && Legal(ac.bits) && |block| == DCTSIZE2 && Partial(Reorder(block), final)
    requires var start := if w.dc then ZeroBlock()[0 := v] else ZeroBlock();
             final == if w.ac then ReadAc(src, ac, start, 1).0 else start
    ensures w.dc ==> InPlace(block[0 := v], ZeroBlock()[0 := v], final)
    ensures !w.dc ==> InPlace(block, ZeroBlock(), final)
  {
    hide ReadAc, Reorder;
    var start := if w.dc then ZeroBlock()[0 := v] else ZeroBlock();
    if w.ac {
      ReadAcKeeps(src, ac, start, 1, 0);
    }
    if w.dc {
      ReorderPut(block, 0, v);
      assert Natural(0) == 0;
    }
  }

  lemma ReadWantedIs(src: Src, dc: HuffTbl, ac: HuffTbl, last: int, w: Wanted)
    requires WellTyped(dc) && Legal(dc.bits) && WellTyped(ac) && Legal(ac.bits)
    ensures var s := Symbol(dc, src);
            var value := last + Received(AfterSymbol(dc, src), s);
            var src1 := Skip(AfterSymbol(dc, src), s);
            var start := if w.dc then ZeroBlock()[0 := Cast(value)] else ZeroBlock();
            var r := ReadWanted(src, dc, ac, last, w);
            && r.1 == (if w.dc then value else last)
            && (w.ac ==> (r.0, r.2) == ReadAc(src1, ac, start, 1))
            && (!w.ac ==> r.0 == start && r.2 == SkipAc(src1, ac, 1))
    ensures |ZeroBlock()| == DCTSIZE2 == 64
  {
    hide Symbol, AfterSymbol, Received, Skip, ReadAc, SkipAc, Cast, ZeroBlock;
  }

  // One block of an MCU, into an area zeroed by the caller.
  method DecodeBlock(br: BitReader, dctbl: DDerived, actbl: DDerived, last: int, w: Wanted, block: array<Coef>)
    returns (ok: bool, value: int)
    requires br.Valid() && br.Settled() && Decodes(dctbl.pub, dctbl) && Decodes(actbl.pub, actbl)
    requires SmallSymbols(dctbl.pub) && WellTyped(dctbl.pub) && Legal(dctbl.pub.bits)
    requires WellTyped(actbl.pub) && Legal(actbl.pub.bits) && block.Length == DCTSIZE2
    requires Partial(Reorder(block[..]), ReadWanted(br.Remaining(), dctbl.pub, actbl.pub, last, w).0)
    modifies br, br.cinfo`unread_marker, br.cinfo`insufficient_data, block
    ensures old(br.cinfo.unread_marker) != 0 ==> br.cinfo.unread_marker != 0
    ensures br.Fetched(ok, old(br.Ending()))
    ensures Partial(Reorder(block[..]), ReadWanted(old(br.Remaining()), dctbl.pub, actbl.pub, last, w).0)
    ensures ok ==> (Reorder(block[..]), value, br.Remaining()) ==
                   ReadWanted(old(br.Remaining()), dctbl.pub, actbl.pub, last, w)
  {
    hide *;
    ghost var final, end := ReadWanted(br.Remaining(), dctbl.pub, actbl.pub, last, w), br.Ending();
    ReadWantedIs(br.Remaining(), dctbl.pub, actbl.pub, last, w);
    var s;
    value := last;
    ok, s := DecodeDc(br, dctbl);
    br.FetchedParts(ok, end);
    if !ok {
      return;
    }
    StartBlock(block[..], br.Remaining(), actbl.pub, Cast(s + last), w, final.0);
    ghost var start := if w.dc then ZeroBlock()[0 := Cast(s + last)] else ZeroBlock();
    if w.dc {
      s := s + last;
      value := s;
      ghost var was := block[..];
      block[0] := Cast(s);
      assert block[..] == was[0 := Cast(s)];
    }
    InPlacePartial(block[..], start, final.0);
    if w.ac {
      ok := DecodeAc(br, actbl, block, start);
    } else {
      InPlaceDone(block[..], final.0);
      ok := SkipOverAc(br, actbl);
    }
    br.FetchedParts(ok, end);
  }

  // ----- decode_mcu -----

  ghost function Contents(blocks: seq<array<Coef>>): (r: seq<seq<Coef>>)
    reads blocks
    ensures |r| == |blocks| && forall i | 0 <= i < |blocks| :: r[i] == blocks[i][..]
  {
    seq(|blocks|, i requires 0 <= i < |blocks| reads blocks => blocks[i][..])
  }

  // The areas of an MCU's blocks.
  predicate ValidBlocks(scan: Scan, blocks: seq<array<Coef>>) {
    && |blocks| == |scan.membership| && (forall i | 0 <= i < |blocks| :: blocks[i].Length == DCTSIZE2)
    && forall i, j | 0 <= i < j < |blocks| :: blocks[i] != blocks[j]
  }

  ghost predicate AllPartial(contents: seq<seq<Coef>>, finals: seq<Block>) {
    && |contents| == |finals|
    && forall i | 0 <= i < |contents| :: |contents[i]| == DCTSIZE2 && Partial(Reorder(contents[i]), finals[i])
  }

  // The first n blocks are done.
  ghost predicate AllDone(contents: seq<seq<Coef>>, finals: seq<Block>, n: nat) {
    && |contents| == |finals| && n <= |contents|
    && forall i | 0 <= i < n :: |contents[i]| == DCTSIZE2 && Reorder(contents[i]) == finals[i]
  }

  // Block n of all that are read, and the state after it.
  lemma {:induction false} ReadBlocksAt(scan: Scan, t: DTables, wanted: seq<Wanted>, src: Src, last: seq<int>, n: nat,
                                        m: nat)
    requires ValidTables(scan, t) && ValidWanted(scan, wanted) && |last| == |scan.comps| && n < m <= |scan.membership|
    ensures var ci := scan.membership[n];
            && ci < |scan.comps| && scan.comps[ci].dc_tbl_no < NUM_HUFF_TBLS && scan.comps[ci].ac_tbl_no < NUM_HUFF_TBLS
            && |t.dc| == |t.ac| == NUM_HUFF_TBLS && |wanted| == |scan.membership|
            && var dc, ac := t.dc[scan.comps[ci].dc_tbl_no], t.ac[scan.comps[ci].ac_tbl_no];
            && SmallSymbols(dc) && WellTyped(dc) && Legal(dc.bits) && WellTyped(ac) && Legal(ac.bits)
            && var r := ReadBlocks(scan, t, wanted, src, last, n);
            && var b := ReadWanted(r.src, dc, ac, r.last[ci], wanted[n]);
            && ReadBlocks(scan, t, wanted, src, last, m).blocks[n] == b.0
            && ReadBlocks(scan, t, wanted, src, last, n + 1) == McuRead(r.blocks + [b.0], r.last[ci := b.1], b.2)
    decreases m
  {
    hide ReadWanted, WellTyped, Legal;
    if n < m - 1 {
      ReadBlocksAt(scan, t, wanted, src, last, n, m - 1);
    }
  }

  // The derived tables in use.
  ghost predicate Derived(scan: Scan, t: DTables, dctbls: seq<DDerived>, actbls: seq<DDerived>) {
    && ValidScan(scan) && |t.dc| == |t.ac| == |dctbls| == |actbls| == NUM_HUFF_TBLS
    && forall c | 0 <= c < |scan.comps| ::
         var d, a := scan.comps[c].dc_tbl_no, scan.comps[c].ac_tbl_no;
         && Decodes(t.dc[d], dctbls[d]) && dctbls[d].pub == t.dc[d]
         && Decodes(t.ac[a], actbls[a]) && actbls[a].pub == t.ac[a]
  }

  lemma DerivedOf(scan: Scan, t: DTables, dctbls: seq<DDerived>, actbls: seq<DDerived>, c: nat)
    requires Derived(scan, t, dctbls, actbls) && c < |scan.comps|
    ensures var d, a := scan.comps[c].dc_tbl_no, scan.comps[c].ac_tbl_no;
            && |t.dc| == |t.ac| == |dctbls| == |actbls| == NUM_HUFF_TBLS && d < NUM_HUFF_TBLS && a < NUM_HUFF_TBLS
            && Decodes(dctbls[d].pub, dctbls[d]) && dctbls[d].pub == t.dc[d]
            && Decodes(actbls[a].pub, actbls[a]) && actbls[a].pub == t.ac[a]
  {
  }

  lemma DoneNext(before: seq<seq<Coef>>, after: seq<seq<Coef>>, finals: seq<Block>, n: nat)
    requires AllPartial(before, finals) && n < |before| == |after|
    requires forall i | 0 <= i < |before| && i != n :: after[i] == before[i]
    requires |after[n]| == DCTSIZE2 && Partial(Reorder(after[n]), finals[n])
    ensures AllPartial(after, finals)
    ensures AllDone(before, finals, n) && Reorder(after[n]) == finals[n] ==> AllDone(after, finals, n + 1)
  {
    hide Partial, Reorder;
  }

  lemma PartialAt(contents: seq<seq<Coef>>, finals: seq<Block>, n: nat)
    requires AllPartial(contents, finals) && n < |contents|
    ensures n < |finals| && |contents[n]| == DCTSIZE2 && Partial(Reorder(contents[n]), finals[n])
  {
  }

  lemma BlockAt(scan: Scan, blocks: seq<array<Coef>>, n: nat)
    requires ValidBlocks(scan, blocks) && n < |scan.membership|
    ensures |blocks| == |scan.membership| && blocks[n].Length == DCTSIZE2
    ensures forall i | 0 <= i < |blocks| && i != n :: blocks[i] != blocks[n]
  {
  }

  lemma NoneDone(scan: Scan, t: DTables, wanted: seq<Wanted>, src: Src, last: seq<int>, contents: seq<seq<Coef>>,
                 finals: seq<Block>)
    requires ValidTables(scan, t) && ValidWanted(scan, wanted) && |last| == |scan.comps| && AllPartial(contents, finals)
    ensures ReadBlocks(scan, t, wanted, src, last, 0) == McuRead([], last, src) && AllDone(contents, finals, 0)
  {
  }

  // The blocks of an MCU.
  method DecodeBlocks(br: BitReader, scan: Scan, t: DTables, wanted: seq<Wanted>, dctbls: seq<DDerived>,
                      actbls: seq<DDerived>,
                      last0: seq<int>, blocks: seq<array<Coef>>)
    returns (ok: bool, last: seq<int>)
    requires br.Valid() && br.Settled() && Derived(scan, t, dctbls, actbls) && ValidBlocks(scan, blocks)
    requires ValidTables(scan, t) && ValidWanted(scan, wanted) && |last0| == |scan.comps|
    requires AllPartial(Contents(blocks), ReadBlocks(scan, t, wanted, br.Remaining(), last0, |scan.membership|).blocks)
    modifies br, br.cinfo`unread_marker, br.cinfo`insufficient_data, blocks
    ensures old(br.cinfo.unread_marker) != 0 ==> br.cinfo.unread_marker != 0
    ensures br.Fetched(ok, old(br.Ending()))
    ensures var m := ReadBlocks(scan, t, wanted, old(br.Remaining()), last0, |scan.membership|);
            && AllPartial(Contents(blocks), m.blocks)
            && (ok ==> AllDone(Contents(blocks), m.blocks, |m.blocks|) && last == m.last && br.Remaining() == m.src)
  {
    hide *;
    ghost var src, end, N := br.Remaining(), br.Ending(), |scan.membership|;
    ghost var finals := ReadBlocks(scan, t, wanted, src, last0, N).blocks;
    NoneDone(scan, t, wanted, src, last0, Contents(blocks), finals);
    last := last0;
    for blkn := 0 to |scan.membership|
      invariant br.Valid() && br.Settled() && br.Ending() == end
      invariant old(br.cinfo.unread_marker) != 0 ==> br.cinfo.unread_marker != 0
      invariant var m := ReadBlocks(scan, t, wanted, src, last0, blkn); last == m.last && br.Remaining() == m.src
      invariant AllPartial(Contents(blocks), finals) && AllDone(Contents(blocks), finals, blkn)
    {
      ReadBlocksAt(scan, t, wanted, src, last0, blkn, N);
      var ci := scan.membership[blkn];
      DerivedOf(scan, t, dctbls, actbls, ci);
      BlockAt(scan, blocks, blkn);
      PartialAt(Contents(blocks), finals, blkn);
      ghost var before := Contents(blocks);
      var value;
      ok, value := DecodeBlock(br, dctbls[scan.comps[ci].dc_tbl_no], actbls[scan.comps[ci].ac_tbl_no],
                               last[ci], wanted[blkn], blocks[blkn]);
      br.FetchedParts(ok, end);
      DoneNext(before, Contents(blocks), finals, blkn);
      if !ok {
        return;
      }
      last := last[ci := value];
    }
    br.FetchedOk(end);
    ok := true;
  }

  // What the blocks hold on the way to an outcome.
  ghost predicate OnTheWay(contents: seq<seq<Coef>>, o: Outcome) {
    o.Outcome? ==> AllPartial(contents, o.blocks)
  }

  ghost predicate Complete(contents: seq<seq<Coef>>, o: Outcome) {
    o.Outcome? && AllDone(contents, o.blocks, |o.blocks|)
  }

  // The marker that ends the segment to be read has arrived, and so has any
  // restart marker before it.
  ghost predicate Live(scan: Scan, data: seq<Byte>, s: DecState, avail: nat)
    requires ValidDec(scan, data, s)
  {
    if RestartDue(scan, s) then
      var r := AfterEnd(data, s.end, s.next_restart_num);
      Reached(r, avail) && Arrived(AtPlace(scan, data, s, r.unread, r.pos).end, avail)
    else Arrived(s.end, avail)
  }

  // The entropy decoder.
  class SeqDecoder {
    const cinfo: Source
    const scan: Scan
    const tables: DTables
    const wanted: seq<Wanted>
    const dctbls: seq<DDerived>
    const actbls: seq<DDerived>
    var get_buffer: Word32
    var bits_left: nat
    var last_dc_val: seq<int>
    var restarts_to_go: nat
    ghost var buf: Bits

    ghost predicate Valid()
      reads this, cinfo
    {
      && cinfo.Valid()
      && ValidTables(scan, tables)
      && Derived(scan, tables, dctbls, actbls)
      && ValidWanted(scan, wanted)
      && bits_left == |buf| && Low(get_buffer, buf) && |last_dc_val| == |scan.comps|
      && (cinfo.insufficient_data ==> forall i | 0 <= i < |buf| :: !buf[i])
    }

    ghost function Abstract(): DecState
      requires Valid()
      reads this, cinfo
    {
      DecState(if cinfo.insufficient_data then Src([], true)
               else Src(if cinfo.unread_marker != 0 then buf else buf + SegmentBits(cinfo.data, cinfo.pos), false),
               cinfo.Ending(), last_dc_val, restarts_to_go, cinfo.next_restart_num)
    }

    ghost function Next(): Outcome
      requires Valid()
      reads this, cinfo
    {
      ValidAbstract();
      DecodeOne(scan, tables, wanted, cinfo.data, Abstract())
    }

    lemma ValidAbstract()
      requires Valid()
      ensures ValidDec(scan, cinfo.data, Abstract())
    {
    }

    // What has arrived does not suffice for the next MCU.
    ghost predicate Starved()
      requires Valid()
      reads this, cinfo
    {
      ValidAbstract();
      !Live(scan, cinfo.data, Abstract(), cinfo.avail)
    }

    // start_pass_huff_decoder
    constructor (cinfo: Source, scan: Scan, tables: DTables, wanted: seq<Wanted>, dctbls: seq<DDerived>,
                 actbls: seq<DDerived>)
      requires cinfo.Valid() && !cinfo.insufficient_data && ValidWanted(scan, wanted)
      requires ValidTables(scan, tables) && Derived(scan, tables, dctbls, actbls)
      ensures this.cinfo == cinfo && this.scan == scan && this.tables == tables && this.wanted == wanted
      ensures Valid() && last_dc_val == NoPredictions(scan) && restarts_to_go == scan.restart_interval && buf == []
    {
      this.cinfo, this.scan, this.tables, this.wanted := cinfo, scan, tables, wanted;
      this.dctbls, this.actbls := dctbls, actbls;
      get_buffer, bits_left, buf := 0, 0, [];
      last_dc_val, restarts_to_go := NoPredictions(scan), scan.restart_interval;
      LowNothing(0);
    }

    // process_restart. If it has to be suspended it can be repeated: what it
    // will lead to stays the same.
    method ProcessRestart() returns (ok: bool)
      requires Valid()
      modifies this, cinfo`pos, cinfo`unread_marker, cinfo`discarded_bytes, cinfo`next_restart_num,
        cinfo`insufficient_data
      ensures Valid()
      ensures ok <==> Reached(AfterEnd(cinfo.data, old(cinfo.Ending()), old(cinfo.next_restart_num)), cinfo.avail)
      ensures ok ==>
        var r := AfterEnd(cinfo.data, old(cinfo.Ending()), old(cinfo.next_restart_num));
        Abstract() == AtPlace(scan, cinfo.data, old(Abstract()), r.unread, r.pos)
      ensures !ok ==> restarts_to_go == old(restarts_to_go) && cinfo.next_restart_num == old(cinfo.next_restart_num)
      ensures !ok ==> Abstract().last == old(Abstract().last) && cinfo.insufficient_data == old(cinfo.insufficient_data)
      ensures !ok ==> AfterEnd(cinfo.data, cinfo.Ending(), cinfo.next_restart_num) ==
                      AfterEnd(cinfo.data, old(cinfo.Ending()), cinfo.next_restart_num)
    {
      hide AfterEnd, SegmentBits, SegmentEnd, ValidTables, Derived, ValidWanted, Low;
      cinfo.discarded_bytes := cinfo.discarded_bytes + bits_left / 8;
      bits_left, buf := 0, [];
      LowNothing(get_buffer);
      ok := ReadRestartMarker(cinfo);
      if !ok {
        return;
      }
      last_dc_val := NoPredictions(scan);
      restarts_to_go := scan.restart_interval;
      if cinfo.unread_marker == 0 {
        cinfo.insufficient_data := false;
        assert [] + SegmentBits(cinfo.data, cinfo.pos) == SegmentBits(cinfo.data, cinfo.pos);
      }
    }

    lemma ReaderAgrees(br: BitReader)
      requires Valid() && br.Valid() && br.cinfo == cinfo && br.next_input_byte == cinfo.pos && br.buf == buf
      ensures br.Settled() && br.Remaining() == Abstract().src && br.Ending() == Abstract().end
    {
      hide SegmentBits, SegmentEnd, ValidTables, Derived, Low;
    }

    // The blocks of an MCU, from the bits.
    method ReadMcuBlocks(blocks: seq<array<Coef>>) returns (ok: bool)
      requires Valid() && ValidBlocks(scan, blocks) && !cinfo.insufficient_data
      requires AllPartial(Contents(blocks), ReadBlocks(scan, tables, wanted, Abstract().src, last_dc_val,
                                                       |scan.membership|).blocks)
      modifies this, cinfo`pos, cinfo`unread_marker, cinfo`insufficient_data, blocks
      ensures Valid()
      ensures var m := ReadBlocks(scan, tables, wanted, old(Abstract().src), old(last_dc_val), |scan.membership|);
              && AllPartial(Contents(blocks), m.blocks)
              && (ok ==> AllDone(Contents(blocks), m.blocks, |m.blocks|))
              && (ok ==>
                  Abstract() == old(Abstract()).(src := if m.src.dry then Src([], true) else m.src, last := m.last))
      ensures !ok ==> Abstract() == old(Abstract())
      ensures Arrived(old(cinfo.Ending()), cinfo.avail) ==> ok
    {
      hide SegmentBits, SegmentEnd, ValidTables, ValidWanted, Derived, Low, ReadBlocks, AllPartial, AllDone, Arrived,
        ValidBlocks, Contents,
        ValidScan;
      ghost var s := Abstract();
      var br := new BitReader(cinfo, get_buffer, bits_left, buf);
      ReaderAgrees(br);
      ghost var m := ReadBlocks(scan, tables, wanted, s.src, last_dc_val, |scan.membership|);
      assert br.Remaining() == s.src;
      var last;
      ok, last := DecodeBlocks(br, scan, tables, wanted, dctbls, actbls, last_dc_val, blocks);
      br.FetchedParts(ok, s.end);
      if !ok {
        return;
      }
      ghost var now := Contents(blocks);
      assert AllDone(now, m.blocks, |m.blocks|) && AllPartial(now, m.blocks) && br.Remaining() == m.src;
      cinfo.pos := br.next_input_byte;
      get_buffer, bits_left, buf := br.get_buffer, br.bits_left, br.buf;
      last_dc_val := last;
    }

    // The blocks of an MCU, after any restart.
    method DecodeMcuBlocks(blocks: seq<array<Coef>>) returns (ok: bool)
      requires Valid() && ValidBlocks(scan, blocks)
      requires AllPartial(Contents(blocks), ReadMcu(scan, tables, wanted, Abstract()).blocks)
      modifies this, cinfo`pos, cinfo`unread_marker, cinfo`insufficient_data, blocks
      ensures Valid()
      ensures AllPartial(Contents(blocks), ReadMcu(scan, tables, wanted, old(Abstract())).blocks)
      ensures ok ==>
        var o := ReadMcu(scan, tables, wanted, old(Abstract()));
        AllDone(Contents(blocks), o.blocks, |o.blocks|) && Abstract() == o.state
      ensures !ok ==> Abstract() == old(Abstract())
      ensures Arrived(old(cinfo.Ending()), cinfo.avail) ==> ok
    {
      hide SegmentBits, SegmentEnd, ValidTables, ValidWanted, Derived, Low, ReadBlocks, ReadMcu, AllPartial, AllDone,
        Arrived, ValidBlocks;
      ReadMcuParts(scan, tables, wanted, Abstract());
      if !cinfo.insufficient_data {
        ok := ReadMcuBlocks(blocks);
        if !ok {
          return;
        }
      } else {
        AllZero(scan, Contents(blocks));
      }
      restarts_to_go := CountDown(restarts_to_go);
      ok := true;
    }

    // decode_mcu: the MCU is complete, or everything can be tried again.
    method DecodeMcu(blocks: seq<array<Coef>>) returns (ok: bool)
      requires Valid() && ValidBlocks(scan, blocks) && OnTheWay(Contents(blocks), Next())
      modifies this, blocks
      modifies cinfo`pos, cinfo`unread_marker, cinfo`discarded_bytes, cinfo`next_restart_num, cinfo`insufficient_data
      ensures Valid() && OnTheWay(Contents(blocks), old(Next()))
      ensures ok ==> Complete(Contents(blocks), old(Next())) && Abstract() == old(Next()).state
      ensures !ok ==> Next() == old(Next())
      ensures ValidDec(scan, cinfo.data, old(Abstract())) && Live(scan, cinfo.data, old(Abstract()), cinfo.avail) ==> ok
      ensures !ok ==> Starved()
    {
      hide SegmentBits, SegmentEnd, ValidTables, Derived, Low, ReadMcu, AllPartial, AllDone, Arrived, ValidBlocks,
        AfterEnd;
      if scan.restart_interval != 0 && restarts_to_go == 0 {
        ok := ProcessRestart();
        if !ok {
          return;
        }
      }
      ok := DecodeMcuBlocks(blocks);
    }
  }

  lemma ReadMcuParts(scan: Scan, t: DTables, wanted: seq<Wanted>, s: DecState)
    requires ValidTables(scan, t) && ValidWanted(scan, wanted) && |s.last| == |scan.comps|
    ensures var o, left := ReadMcu(scan, t, wanted, s), CountDown(s.restarts_to_go);
            if s.src.dry then o.blocks == ZeroMcu(scan) && o.state == s.(restarts_to_go := left)
            else
              var m := ReadBlocks(scan, t, wanted, s.src, s.last, |scan.membership|);
              o.blocks == m.blocks
              && o.state == s.(src := if m.src.dry then Src([], true) else m.src, last := m.last,
                                restarts_to_go := left)
  {
    hide ReadBlocks;
  }

  // Blocks zeroed by the caller stay zero if nothing is decoded.
  lemma AllZero(scan: Scan, contents: seq<seq<Coef>>)
    ensures AllPartial(contents, ZeroMcu(scan)) ==> AllDone(contents, ZeroMcu(scan), |scan.membership|)
  {
    if AllPartial(contents, ZeroMcu(scan)) {
      forall i | 0 <= i < |contents|
        ensures |contents[i]| == DCTSIZE2 && Reorder(contents[i]) == ZeroBlock()
      {
        assert Partial(Reorder(contents[i]), ZeroMcu(scan)[i]);
      }
    }
  }
}
