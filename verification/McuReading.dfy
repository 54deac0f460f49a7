// What a sequential decoder reads from a stream of bytes, independent of how
// the bytes arrive (jdhuff.c).
module McuReading {
  import opened HuffTable
  import opened Tokens
  import opened BitSource
  import opened Blocks
  import opened SeqCodec
  import opened McuCodec
  import opened BitWriter
  import opened ByteStream
  import opened Markers

  // The tables of a decoder.
  datatype DTables = DTables(dc: seq<HuffTbl>, ac: seq<HuffTbl>)

  ghost predicate SmallSymbols(t: HuffTbl) {
    WellTyped(t) && Legal(t.bits) && forall p | 0 <= p < Upto(t.bits, 16) :: t.huffval[p] <= 15
  }

  // The tables that start_pass_huff_decoder has accepted for the scan.
  ghost predicate ValidTables(scan: Scan, t: DTables) {
    && ValidScan(scan) && |t.dc| == |t.ac| == NUM_HUFF_TBLS
    && forall c | 0 <= c < |scan.comps| ::
         SmallSymbols(t.dc[scan.comps[c].dc_tbl_no]) && WellTyped(t.ac[scan.comps[c].ac_tbl_no])
         && Legal(t.ac[scan.comps[c].ac_tbl_no].bits)
  }

  // Which coefficients of a block are wanted.
  datatype Wanted = Wanted(dc: bool, ac: bool)

  predicate ValidWanted(scan: Scan, wanted: seq<Wanted>) {
    |wanted| == |scan.membership|
  }

  // ----- a block -----

  // Passes over AC coefficients from position k on.
  function SkipAc(src: Src, t: HuffTbl, k: nat): Src
    requires WellTyped(t) && Legal(t.bits)
    decreases DCTSIZE2 - k
  {
    if k >= DCTSIZE2 then src
    else
      var sym, src1 := Symbol(t, src), AfterSymbol(t, src);
      var r, s := sym / 16, sym % 16;
      if s != 0 then SkipAc(Skip(src1, s), t, k + r + 1)
      else if r != 15 then src1
      else SkipAc(src1, t, k + 16)
  }

  // Unwanted coefficients take the same bits.
  lemma {:induction false} SkipSameBits(src: Src, t: HuffTbl, b: Block, k: nat)
    requires WellTyped(t) && Legal(t.bits) && |b| == DCTSIZE2
    ensures SkipAc(src, t, k) == ReadAc(src, t, b, k).1
    decreases DCTSIZE2 - k
  {
    hide SymbolAt, Received, Legal, WellTyped, Skip, Cast;
    if k < DCTSIZE2 {
      var sym, src1 := Symbol(t, src), AfterSymbol(t, src);
      var r, s := sym / 16, sym % 16;
      if s != 0 {
        SkipSameBits(Skip(src1, s), t, Put(b, k + r, Cast(Received(src1, s))), k + r + 1);
      } else if r == 15 {
        SkipSameBits(src1, t, b, k + 16);
      }
    }
  }

  // A block of which only the wanted coefficients are kept: the block, the new
  // DC prediction, and what is left.
  function ReadWanted(src: Src, dc: HuffTbl, ac: HuffTbl, last: int, w: Wanted): (r: (Block, int, Src))
    requires WellTyped(dc) && Legal(dc.bits) && WellTyped(ac) && Legal(ac.bits)
    ensures |r.0| == DCTSIZE2
  {
    var s, src1 := Symbol(dc, src), AfterSymbol(dc, src);
    var value := last + Received(src1, s);
    var start := if w.dc then ZeroBlock()[0 := Cast(value)] else ZeroBlock();
    var last' := if w.dc then value else last;
    if w.ac then
      var (b, src2) := ReadAc(Skip(src1, s), ac, start, 1);
      (b, last', src2)
    else (start, last', SkipAc(Skip(src1, s), ac, 1))
  }

  // ----- an MCU -----

  // The state between MCUs: what is left of the segment, the marker that ends
  // it, the DC predictions and the restart counters.
  datatype DecState = DecState(src: Src, end: End, last: seq<int>, restarts_to_go: nat, next_restart_num: nat)

  ghost predicate ValidDec(scan: Scan, data: seq<Byte>, s: DecState) {
    && |s.last| == |scan.comps| && s.next_restart_num < 8
    && (s.end.End? ==> s.end.next <= |data| && 0 < s.end.code < 0xFF)
  }

  // The first n blocks of an MCU.
  datatype McuRead = McuRead(blocks: seq<Block>, last: seq<int>, src: Src)

  function ReadBlocks(scan: Scan, t: DTables, wanted: seq<Wanted>, src: Src, last: seq<int>, n: nat): (r: McuRead)
    requires ValidTables(scan, t) && ValidWanted(scan, wanted) && |last| == |scan.comps| && n <= |scan.membership|
    ensures |r.blocks| == n && |r.last| == |scan.comps|
    ensures forall i | 0 <= i < n :: |r.blocks[i]| == DCTSIZE2
  {
    if n == 0 then McuRead([], last, src)
    else
      var m := ReadBlocks(scan, t, wanted, src, last, n - 1);
      var ci := scan.membership[n - 1];
      var c := scan.comps[ci];
      var (b, value, src1) := ReadWanted(m.src, t.dc[c.dc_tbl_no], t.ac[c.ac_tbl_no], m.last[ci], wanted[n - 1]);
      McuRead(m.blocks + [b], m.last[ci := value], src1)
  }

  function ZeroMcu(scan: Scan): (r: seq<Block>)
    ensures |r| == |scan.membership| && forall i | 0 <= i < |r| :: r[i] == ZeroBlock()
  {
    seq(|scan.membership|, _ => ZeroBlock())
  }

  // ----- restarts -----

  function RestartDue(scan: Scan, s: DecState): bool {
    scan.restart_interval != 0 && s.restarts_to_go == 0
  }

  // The state after a restart that leads to a given place.
  function AtPlace(scan: Scan, data: seq<Byte>, s: DecState, unread: nat, pos: nat): DecState
    requires pos <= |data|
  {
    DecState(if unread == 0 then Src(SegmentBits(data, pos), false) else Src([], s.src.dry),
             if unread == 0 then SegmentEnd(data, pos) else End(unread, pos),
             NoPredictions(scan), scan.restart_interval, (s.next_restart_num + 1) % 8)
  }

  datatype Outcome = Never | Outcome(blocks: seq<Block>, state: DecState)

  // The blocks of an MCU once any restart has been dealt with. When the segment
  // has run dry, they are left zero.
  function ReadMcu(scan: Scan, t: DTables, wanted: seq<Wanted>, s: DecState): (r: Outcome)
    requires ValidTables(scan, t) && ValidWanted(scan, wanted) && |s.last| == |scan.comps|
    ensures r.Outcome? && |r.blocks| == |scan.membership| && forall i | 0 <= i < |r.blocks| :: |r.blocks[i]| == DCTSIZE2
    ensures |r.state.last| == |scan.comps| && r.state.end == s.end && r.state.next_restart_num == s.next_restart_num
  {
    if s.src.dry then Outcome(ZeroMcu(scan), s.(restarts_to_go := CountDown(s.restarts_to_go)))
    else
      var m := ReadBlocks(scan, t, wanted, s.src, s.last, |scan.membership|);
      var left := if m.src.dry then Src([], true) else m.src;
      Outcome(m.blocks, s.(src := left, last := m.last, restarts_to_go := CountDown(s.restarts_to_go)))
  }

  // --restarts_to_go, an unsigned int
  function CountDown(n: nat): nat {
    if n == 0 then 0xFFFF_FFFF else n - 1
  }

  // Decoding one MCU in state s; Never, if it cannot be done because the
  // stream ends before a restart marker.
  function DecodeOne(scan: Scan, t: DTables, wanted: seq<Wanted>, data: seq<Byte>, s: DecState): (r: Outcome)
    requires ValidTables(scan, t) && ValidWanted(scan, wanted) && ValidDec(scan, data, s)
    ensures r.Outcome? ==>
      |r.blocks| == |scan.membership| && forall i | 0 <= i < |r.blocks| :: |r.blocks[i]| == DCTSIZE2
    ensures r.Outcome? ==> ValidDec(scan, data, r.state)
  {
    if RestartDue(scan, s) then
      match AfterEnd(data, s.end, s.next_restart_num)
      case Lost => Never
      case At(unread, pos) => ReadMcu(scan, t, wanted, AtPlace(scan, data, s, unread, pos))
    else ReadMcu(scan, t, wanted, s)
  }
}
