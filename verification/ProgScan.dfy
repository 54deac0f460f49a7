// A progressive scan: what jcphuff.c sends of its MCUs, and what jdphuff.c reads.
// The blocks are in zigzag order.
module ProgScan {
  import opened Arith
  import opened Bits
  import opened HuffTable
  import opened DerivedTables
  import opened Tokens
  import opened BitSource
  import opened Blocks
  import opened SeqCodec
  import opened McuCodec
  import opened McuReading
  import opened ProgCodec
  import opened ProgRefine
  import opened ProgBands

  // A DC scan, possibly of several components, or an AC scan of one.
  predicate ValidProg(scan: Scan, b: Band) {
    && ValidScan(scan)
    && if b.Ss == 0 then b.Se == 0 && b.Al <= 13 && (b.Ah == 0 || b.Ah == b.Al + 1)
       else ValidAc(b) && |scan.comps| == 1 && scan.membership == [0]
  }

  type Zigzags = seq<Block>

  predicate ValidZs(scan: Scan, zs: Zigzags) {
    |zs| == |scan.membership| && forall i | 0 <= i < |zs| :: |zs[i]| == DCTSIZE2
  }

  predicate AllValid(scan: Scan, mcus: seq<Zigzags>) {
    forall i | 0 <= i < |mcus| :: ValidZs(scan, mcus[i])
  }

  function AcTable(scan: Scan): nat
    requires |scan.comps| == 1
  {
    scan.comps[0].ac_tbl_no
  }

  // ----- DC values -----

  // An arithmetic right shift.
  function DcShift(v: int, al: nat): int {
    v / Pow2(al)
  }

  // The point transform of DC coefficients drops low-order bits of the two's complement.
  lemma DcTransform(v: int, al: nat)
    ensures DcShift(v, al) * Pow2(al) <= v < (DcShift(v, al) + 1) * Pow2(al)
  {
    hide Pow2;
    DcShiftIs(v, al);
    var q, p := DcShift(v, al), Pow2(al);
    assert v == q * p + v % p && (q + 1) * p == q * p + p;
  }

  // What the decoder knows of a DC coefficient down to bit al.
  function DcTrunc(v: Coef, al: nat): (r: Coef)
    requires al <= 14
  {
    DcTruncBound(v, al);
    DcShift(v, al) * Pow2(al)
  }

  lemma DcTruncBound(v: Coef, al: nat)
    requires al <= 14
    ensures -0x8000 <= DcShift(v, al) * Pow2(al) <= v
  {
    hide *;
    var p, e := Pow2(al), Pow2(15 - al);
    Pow2Add(15 - al, al);
    Pow2Of15();
    Pow2Positive(al);
    FloorBound(v, p, e);
    DcShiftIs(v, al);
  }

  lemma DcShiftIs(v: int, al: nat)
    ensures Pow2(al) > 0 && DcShift(v, al) == v / Pow2(al)
  {
  }

  lemma FloorBound(v: int, p: int, e: int)
    requires p > 0 && e * p == 0x8000 && v >= -0x8000
    ensures -0x8000 <= v / p * p <= v
  {
    var q := v / p;
    assert v == q * p + v % p;
    if q < -e {
      MulMono(q + 1, -e, p);
      NegMul(e, p);
    }
    MulMono(-e, q, p);
    NegMul(e, p);
  }

  function SetDc(z: Block, v: Coef): (r: Block)
    requires |z| == DCTSIZE2
    ensures |r| == DCTSIZE2
  {
    z[0 := v]
  }

  // ----- sending -----

  // The state within a segment: DC predictions and held EOBs.
  datatype SegState = SegState(last: seq<int>, held: Held)

  function Fresh(scan: Scan): SegState {
    SegState(NoPredictions(scan), NoneHeld())
  }

  // DC, first pass: the predictions after n blocks, and what these send.
  function DcLast(scan: Scan, last: seq<int>, zs: Zigzags, al: nat, n: nat): (r: seq<int>)
    requires ValidScan(scan) && ValidZs(scan, zs) && |last| == |scan.comps| && n <= |zs|
    ensures |r| == |scan.comps|
  {
    if n == 0 then last
    else DcLast(scan, last, zs, al, n - 1)[scan.membership[n - 1] := DcShift(zs[n - 1][0], al)]
  }

  function DcDiff(scan: Scan, last: seq<int>, zs: Zigzags, al: nat, n: nat): int
    requires ValidScan(scan) && ValidZs(scan, zs) && |last| == |scan.comps| && n < |zs|
  {
    DcShift(zs[n][0], al) - DcLast(scan, last, zs, al, n)[scan.membership[n]]
  }

  function DcFirstTokens(scan: Scan, last: seq<int>, zs: Zigzags, al: nat, n: nat): seq<Token>
    requires ValidScan(scan) && ValidZs(scan, zs) && |last| == |scan.comps| && n <= |zs|
  {
    if n == 0 then []
    else
      DcFirstTokens(scan, last, zs, al, n - 1)
        + DcTokens(DcDiff(scan, last, zs, al, n - 1), scan.comps[scan.membership[n - 1]].dc_tbl_no)
  }

  predicate DcInRange(scan: Scan, last: seq<int>, zs: Zigzags, al: nat, n: nat)
    requires ValidScan(scan) && ValidZs(scan, zs) && |last| == |scan.comps| && n <= |zs|
  {
    forall i: nat | i < n :: NBits(Abs(DcDiff(scan, last, zs, al, i))) <= MAX_COEF_BITS + 1
  }

  // DC, refinement: bit al of every value.
  function DcRefineTokens(zs: Zigzags, al: nat, n: nat): seq<Token>
    requires n <= |zs| && forall i | 0 <= i < |zs| :: |zs[i]| == DCTSIZE2
  {
    if n == 0 then [] else DcRefineTokens(zs, al, n - 1) + [Raw(DcShift(zs[n - 1][0], al), 1)]
  }

  // What one MCU sends in state s, and the state after it.
  function StepTokens(scan: Scan, b: Band, s: SegState, zs: Zigzags): seq<Token>
    requires ValidProg(scan, b) && ValidZs(scan, zs) && |s.last| == |scan.comps|
  {
    if b.Ss == 0 then
      if b.Ah == 0 then DcFirstTokens(scan, s.last, zs, b.Al, |zs|) else DcRefineTokens(zs, b.Al, |zs|)
    else BandStep(s.held, CodeBand(zs[0], b, AcTable(scan)), AcTable(scan)).0
  }

  function StepState(scan: Scan, b: Band, s: SegState, zs: Zigzags): (r: SegState)
    requires ValidProg(scan, b) && ValidZs(scan, zs) && |s.last| == |scan.comps|
    ensures |r.last| == |scan.comps|
  {
    if b.Ss == 0 then
      if b.Ah == 0 then s.(last := DcLast(scan, s.last, zs, b.Al, |zs|)) else s
    else s.(held := BandStep(s.held, CodeBand(zs[0], b, AcTable(scan)), AcTable(scan)).1)
  }

  predicate StepInRange(scan: Scan, b: Band, s: SegState, zs: Zigzags)
    requires ValidProg(scan, b) && ValidZs(scan, zs) && |s.last| == |scan.comps|
  {
    if b.Ss == 0 then b.Ah == 0 ==> DcInRange(scan, s.last, zs, b.Al, |zs|)
    else BandInRange(zs[0], b)
  }

  // Held EOBs are sent at the end of a segment.
  function ReleaseTokens(scan: Scan, b: Band, s: SegState): seq<Token>
    requires ValidProg(scan, b)
  {
    if b.Ss == 0 then [] else Release(s.held, AcTable(scan))
  }

  // What is sent from state s on for the rest of a segment.
  function SegTokens(scan: Scan, b: Band, s: SegState, mcus: seq<Zigzags>): seq<Token>
    requires ValidProg(scan, b) && AllValid(scan, mcus) && |s.last| == |scan.comps|
    decreases |mcus|
  {
    if mcus == [] then ReleaseTokens(scan, b, s)
    else
      assert ValidZs(scan, mcus[0]);
      StepTokens(scan, b, s, mcus[0]) + SegTokens(scan, b, StepState(scan, b, s, mcus[0]), mcus[1..])
  }

  predicate SegInRange(scan: Scan, b: Band, s: SegState, mcus: seq<Zigzags>)
    requires ValidProg(scan, b) && AllValid(scan, mcus) && |s.last| == |scan.comps|
    decreases |mcus|
  {
    mcus != [] ==>
      && ValidZs(scan, mcus[0]) && StepInRange(scan, b, s, mcus[0])
      && SegInRange(scan, b, StepState(scan, b, s, mcus[0]), mcus[1..])
  }

  // ----- receiving -----

  // (*block)[0] |= 1 << al
  function SetBit(v: Coef, al: nat): Coef {
    if v / Pow2(al) % 2 == 0 then Cast(v + Pow2(al)) else v
  }

  // A scan takes a DC value v from z to this.
  function DcNext(z: Coef, v: Coef, b: Band): Coef
    requires b.Al <= 14
  {
    if b.Ah == 0 then DcTrunc(v, b.Al) else if DcShift(v, b.Al) % 2 == 1 then SetBit(z, b.Al) else z
  }

  // The MCU as earlier scans have left it ...
  ghost predicate McuBefore(scan: Scan, b: Band, was: Zigzags, zs: Zigzags) {
    && ValidZs(scan, was) && ValidZs(scan, zs)
    && (b.Ss != 0 ==> forall i | 0 <= i < |zs| :: Before(was[i], zs[i], b))
  }

  // ... and as this scan leaves it.
  function McuAfter(b: Band, was: Zigzags, zs: Zigzags): (r: Zigzags)
    requires |was| == |zs| && b.Al <= 14 && forall i | 0 <= i < |zs| :: |was[i]| == |zs[i]| == DCTSIZE2
    ensures |r| == |zs|
    ensures forall i | 0 <= i < |zs| ::
      r[i] == if b.Ss == 0 then SetDc(was[i], DcNext(was[i][0], zs[i][0], b)) else After(was[i], zs[i], b)
  {
    seq(|zs|, i requires 0 <= i < |zs| =>
      if b.Ss == 0 then SetDc(was[i], DcNext(was[i][0], zs[i][0], b)) else After(was[i], zs[i], b))
  }

  ghost predicate ValidProgTables(scan: Scan, b: Band, t: DTables) {
    && ValidProg(scan, b) && |t.dc| == |t.ac| == NUM_HUFF_TBLS
    && (b.Ss == 0 && b.Ah == 0 ==> forall c | 0 <= c < |scan.comps| :: SmallSymbols(t.dc[scan.comps[c].dc_tbl_no]))
    && (b.Ss != 0 ==> WellTyped(t.ac[AcTable(scan)]) && Legal(t.ac[AcTable(scan)].bits))
  }

  // What reading an MCU leaves: blocks, predictions, bands to be passed over, and
  // the rest of the segment.
  datatype ProgRead = ProgRead(blocks: Zigzags, last: seq<int>, eobrun: nat, src: Src)

  function ReadDcFirst(scan: Scan, b: Band, t: DTables, src: Src, last: seq<int>, was: Zigzags, n: nat): (r: ProgRead)
    requires ValidProgTables(scan, b, t) && b.Ss == 0 && b.Ah == 0
    requires ValidZs(scan, was) && |last| == |scan.comps| && n <= |was|
    ensures |r.blocks| == |was| && |r.last| == |scan.comps| && forall i | 0 <= i < |was| :: |r.blocks[i]| == DCTSIZE2
  {
    if n == 0 then ProgRead(was, last, 0, src)
    else
      var m := ReadDcFirst(scan, b, t, src, last, was, n - 1);
      var ci := scan.membership[n - 1];
      var h := t.dc[scan.comps[ci].dc_tbl_no];
      var s, src1 := Symbol(h, m.src), AfterSymbol(h, m.src);
      var v := m.last[ci] + Received(src1, s);
      ProgRead(m.blocks[n - 1 := SetDc(m.blocks[n - 1], Cast(v * Pow2(b.Al)))], m.last[ci := v], 0, Skip(src1, s))
  }

  function ReadDcRefine(b: Band, src: Src, was: Zigzags, n: nat): (r: (Zigzags, Src))
    requires n <= |was| && forall i | 0 <= i < |was| :: |was[i]| == DCTSIZE2
    ensures |r.0| == |was| && forall i | 0 <= i < |was| :: |r.0[i]| == DCTSIZE2
  {
    if n == 0 then (was, src)
    else
      var m := ReadDcRefine(b, src, was, n - 1);
      (if Peek(m.1, 1) == 1 then m.0[n - 1 := SetDc(m.0[n - 1], SetBit(m.0[n - 1][0], b.Al))] else m.0, Skip(m.1, 1))
  }

  function ReadStep(scan: Scan, b: Band, t: DTables, src: Src, last: seq<int>, eobrun: nat, was: Zigzags): (r: ProgRead)
    requires ValidProgTables(scan, b, t) && ValidZs(scan, was) && |last| == |scan.comps|
    ensures |r.blocks| == |was| && |r.last| == |scan.comps| && forall i | 0 <= i < |was| :: |r.blocks[i]| == DCTSIZE2
  {
    if b.Ss == 0 then
      if b.Ah == 0 then ReadDcFirst(scan, b, t, src, last, was, |was|).(eobrun := eobrun)
      else
        var r := ReadDcRefine(b, src, was, |was|);
        ProgRead(r.0, last, eobrun, r.1)
    else
      var r := ReadBand(src, t.ac[AcTable(scan)], was[0], eobrun, b);
      ProgRead([r.block], last, r.eobrun, r.src)
  }

  // ----- DC scans are read back -----

  lemma ShiftParts(v: int, p: int) returns (q: int)
    requires p > 0
    ensures q == v / p && v / (2 * p) == q / 2
    ensures q % 2 == 0 ==> q / 2 * (2 * p) == q * p
    ensures q % 2 == 1 ==> q / 2 * (2 * p) + p == q * p
  {
    q := v / p;
    var r, h := v - q * p, q / 2;
    assert 0 <= r < p;
    assert q == 2 * h + q % 2;
    assert q * p == h * (2 * p) + q % 2 * p;
    assert v == h * (2 * p) + (q % 2 * p + r) && 0 <= q % 2 * p + r < 2 * p;
    FloorUnique(v, 2 * p, h, q % 2 * p + r);
  }

  lemma FloorUnique(v: int, d: int, q: int, r: int)
    requires d > 0 && v == q * d + r && 0 <= r < d
    ensures v / d == q
  {
    var q', r' := v / d, v % d;
    assert v == q' * d + r';
    if q' < q {
      MulMono(q' + 1, q, d);
    } else if q < q' {
      MulMono(q + 1, q', d);
    }
  }

  // A DC value is taken from one scan to the next.
  lemma DcNextRight(v: Coef, b: Band)
    requires b.Al <= 13 && b.Ah == b.Al + 1
    ensures DcNext(DcTrunc(v, b.Ah), v, b) == DcTrunc(v, b.Al)
  {
    hide *;
    var al := b.Al;
    DcShiftIs(v, al);
    DcShiftIs(v, al + 1);
    Pow2Step(al);
    var p := Pow2(al);
    var q := ShiftParts(v, p);
    DcTruncIs(v, al);
    DcTruncIs(v, al + 1);
    BitClear(q / 2, p);
    SetBitIs(DcTrunc(v, al + 1), al);
    CastCoef(DcTrunc(v, al));
    DcNextIs(DcTrunc(v, b.Ah), v, b);
  }

  lemma DcNextIs(z: Coef, v: Coef, b: Band)
    requires b.Al <= 14
    ensures DcNext(z, v, b) ==
      if b.Ah == 0 then DcTrunc(v, b.Al)
      else if DcShift(v, b.Al) % 2 == 1 then SetBit(z, b.Al) else z
  {
  }

  lemma DcTruncIs(v: Coef, al: nat)
    requires al <= 14
    ensures DcTrunc(v, al) == DcShift(v, al) * Pow2(al)
  {
  }

  lemma SetBitIs(v: Coef, al: nat)
    ensures Pow2(al) > 0 && SetBit(v, al) == if v / Pow2(al) % 2 == 0 then Cast(v + Pow2(al)) else v
  {
  }

  // One bit of a value.
  lemma OneBit(v: int)
    ensures ToBits(Unsigned(v), 1) == [v % 2 == 1]
  {
    assert ToBits(Unsigned(v) / 2, 0) == [];
  }

  lemma RawBitBack(t: CTables, v: int, more: seq<Token>, rest: Bits)
    requires SaneTables(t) && AllSendable(t, [Raw(v, 1)] + more)
    ensures AllSendable(t, more)
    ensures var src := Sending(t, [Raw(v, 1)] + more, rest);
            (Peek(src, 1) == 1 <==> v % 2 == 1) && Skip(src, 1) == Sending(t, more, rest)
  {
    hide Sendable;
    TokensBitsHead(t, Raw(v, 1), more, rest);
    OneBit(v);
    assert [v % 2 == 1] + (TokensBits(t, more) + rest) == [v % 2 == 1] + TokensBits(t, more) + rest;
    PeekOne(v % 2 == 1, TokensBits(t, more), rest);
  }

  // The blocks with the first n DC values as the scan leaves them.
  ghost function DcDone(was: Zigzags, zs: Zigzags, b: Band, n: nat): (r: Zigzags)
    requires |was| == |zs| && b.Al <= 14 && (forall i | 0 <= i < |zs| :: |was[i]| == |zs[i]| == DCTSIZE2)
    ensures |r| == |zs| && forall i | 0 <= i < |zs| ::
      |r[i]| == DCTSIZE2 && r[i] == if i < n then SetDc(was[i], DcNext(was[i][0], zs[i][0], b)) else was[i]
  {
    seq(|zs|, i requires 0 <= i < |zs| => if i < n then SetDc(was[i], DcNext(was[i][0], zs[i][0], b)) else was[i])
  }

  lemma {:induction false} DcRefineBack(scan: Scan, b: Band, t: CTables, was: Zigzags, zs: Zigzags, n: nat,
                                        more: seq<Token>, rest: Bits)
    requires ValidProg(scan, b) && b.Ss == 0 && b.Ah == b.Al + 1 && McuBefore(scan, b, was, zs) && n <= |zs|
    requires SaneTables(t) && AllSendable(t, DcRefineTokens(zs, b.Al, n) + more)
    ensures |was| == |zs| && AllSendable(t, more)
    ensures ReadDcRefine(b, Sending(t, DcRefineTokens(zs, b.Al, n) + more, rest), was, n)
         == (DcDone(was, zs, b, n), Sending(t, more, rest))
    decreases n
  {
    hide AllSendable, Sending, DcTrunc, SetBit, DcShift, Peek, Skip, Sendable;
    if n == 0 {
      assert [] + more == more;
      assert DcDone(was, zs, b, 0) == was;
    } else {
      var v := DcShift(zs[n - 1][0], b.Al);
      var tail := [Raw(v, 1)] + more;
      assert DcRefineTokens(zs, b.Al, n) + more == DcRefineTokens(zs, b.Al, n - 1) + tail;
      DcRefineBack(scan, b, t, was, zs, n - 1, tail, rest);
      RawBitBack(t, v, more, rest);
      var m, next := DcDone(was, zs, b, n - 1), DcNext(was[n - 1][0], zs[n - 1][0], b);
      assert SetDc(was[n - 1], was[n - 1][0]) == was[n - 1];
      assert DcDone(was, zs, b, n) == m[n - 1 := SetDc(m[n - 1], next)];
      assert v % 2 != 1 ==> m[n - 1 := SetDc(m[n - 1], next)] == m;
    }
  }

  // The decoder's tables are those the encoder's were made from.
  ghost predicate MatchingProg(scan: Scan, b: Band, t: CTables, dt: DTables) {
    && SaneTables(t) && ValidProgTables(scan, b, dt)
    && (b.Ss == 0 && b.Ah == 0 ==> forall c | 0 <= c < |scan.comps| ::
          Encodes(dt.dc[scan.comps[c].dc_tbl_no], t.dc[scan.comps[c].dc_tbl_no]))
    && (b.Ss != 0 ==> AcPair(t, dt.ac[AcTable(scan)], AcTable(scan)))
  }

  // One step of the DC reader.
  lemma ReadDcStep(scan: Scan, b: Band, t: DTables, src: Src, last: seq<int>, was: Zigzags, n: nat, s: nat, diff: int,
                   mid: Src, end: Src)
    requires ValidProgTables(scan, b, t) && b.Ss == 0 && b.Ah == 0 && ValidZs(scan, was) && |last| == |scan.comps|
    requires 0 < n <= |was|
    requires var m := ReadDcFirst(scan, b, t, src, last, was, n - 1);
             AtSymbol(t.dc[scan.comps[scan.membership[n - 1]].dc_tbl_no], m.src, s, mid)
    requires AtValue(mid, s, diff, end)
    ensures var m := ReadDcFirst(scan, b, t, src, last, was, n - 1);
            var ci := scan.membership[n - 1];
            var v := m.last[ci] + diff;
            ReadDcFirst(scan, b, t, src, last, was, n)
              == ProgRead(m.blocks[n - 1 := SetDc(m.blocks[n - 1], Cast(v * Pow2(b.Al)))], m.last[ci := v], 0, end)
  {
    hide Symbol, AfterSymbol, Received, Skip, WellTyped, Legal, Cast, Pow2;
  }

  lemma DcFirstParts(scan: Scan, b: Band, t: CTables, dt: DTables, last: seq<int>, zs: Zigzags, n: nat,
                     more: seq<Token>)
    requires MatchingProg(scan, b, t, dt) && b.Ss == 0 && b.Ah == 0 && ValidZs(scan, zs) && |last| == |scan.comps|
    requires 0 < n <= |zs|
    requires DcInRange(scan, last, zs, b.Al, n)
    ensures DcInRange(scan, last, zs, b.Al, n - 1) && scan.membership[n - 1] < |scan.comps|
    ensures var tbl := scan.comps[scan.membership[n - 1]].dc_tbl_no;
            var diff := DcDiff(scan, last, zs, b.Al, n - 1);
            && tbl < NUM_HUFF_TBLS
            && |dt.dc| == NUM_HUFF_TBLS
            && Encodes(dt.dc[tbl], t.dc[tbl])
            && NBits(Abs(diff)) <= 15
            && DcFirstTokens(scan, last, zs, b.Al, n) + more
                 == DcFirstTokens(scan, last, zs, b.Al, n - 1) + (DcTokens(diff, tbl) + more)
            && DcLast(scan, last, zs, b.Al, n)
                 == DcLast(scan, last, zs, b.Al, n - 1)[scan.membership[n - 1] := DcShift(zs[n - 1][0], b.Al)]
            && DcLast(scan, last, zs, b.Al, n - 1)[scan.membership[n - 1]] + diff == DcShift(zs[n - 1][0], b.Al)
  {
    hide DcTokens, Encodes, DcShift, NBits;
    var tbl := scan.comps[scan.membership[n - 1]].dc_tbl_no;
    Assoc(DcFirstTokens(scan, last, zs, b.Al, n - 1), DcTokens(DcDiff(scan, last, zs, b.Al, n - 1), tbl), more);
  }

  lemma {:induction false} DcFirstBack(scan: Scan, b: Band, t: CTables, dt: DTables, last: seq<int>, was: Zigzags,
                                       zs: Zigzags,
                                       n: nat, more: seq<Token>, rest: Bits)
    requires MatchingProg(scan, b, t, dt) && ValidProg(scan, b) && b.Ss == 0 && b.Ah == 0 && McuBefore(scan, b, was, zs)
    requires n <= |zs|
    requires |last| == |scan.comps| && ValidZs(scan, was) && ValidZs(scan, zs) && b.Al <= 14
    requires ValidProgTables(scan, b, dt)
    requires DcInRange(scan, last, zs, b.Al, n) && SaneTables(t)
    requires AllSendable(t, DcFirstTokens(scan, last, zs, b.Al, n) + more)
    ensures AllSendable(t, more)
    ensures ReadDcFirst(scan, b, dt, Sending(t, DcFirstTokens(scan, last, zs, b.Al, n) + more, rest), last, was, n)
         == ProgRead(DcDone(was, zs, b, n), DcLast(scan, last, zs, b.Al, n), 0, Sending(t, more, rest))
    decreases n
  {
    hide *;
    DcShape(scan, b, was, zs);
    if n == 0 {
      DcNone(scan, b, t, dt, last, was, zs, more, Sending(t, DcFirstTokens(scan, last, zs, b.Al, n) + more, rest));
    } else {
      DcFirstParts(scan, b, t, dt, last, zs, n, more);
      var tbl, diff := scan.comps[scan.membership[n - 1]].dc_tbl_no, DcDiff(scan, last, zs, b.Al, n - 1);
      DcFirstBack(scan, b, t, dt, last, was, zs, n - 1, DcTokens(diff, tbl) + more, rest);
      SendingIs(t, DcTokens(diff, tbl) + more, rest);
      var mid := DcRoundTrip(t, dt.dc[tbl], tbl, diff, more, rest, false);
      SendingIs(t, more, rest);
      ReadDcStep(scan, b, dt, Sending(t, DcFirstTokens(scan, last, zs, b.Al, n) + more, rest), last, was, n,
                 NBits(Abs(diff)), diff,
                 mid, Sending(t, more, rest));
      DcDoneNext(was, zs, b, n);
    }
  }

  lemma DcShape(scan: Scan, b: Band, was: Zigzags, zs: Zigzags)
    requires ValidProg(scan, b) && McuBefore(scan, b, was, zs)
    ensures ValidScan(scan) && |was| == |zs| == |scan.membership|
    ensures forall i | 0 <= i < |zs| :: |was[i]| == |zs[i]| == DCTSIZE2
  {
  }

  lemma SendingIs(t: CTables, toks: seq<Token>, rest: Bits)
    requires SaneTables(t) && AllSendable(t, toks)
    ensures Sending(t, toks, rest) == Src(TokensBits(t, toks) + rest, false)
  {
  }

  lemma DcNone(scan: Scan, b: Band, t: CTables, dt: DTables, last: seq<int>, was: Zigzags, zs: Zigzags,
               more: seq<Token>, src: Src)
    requires ValidProgTables(scan, b, dt) && b.Ss == 0 && b.Ah == 0 && McuBefore(scan, b, was, zs)
    requires |last| == |scan.comps| && b.Al <= 14
    ensures DcFirstTokens(scan, last, zs, b.Al, 0) + more == more && DcLast(scan, last, zs, b.Al, 0) == last
    ensures ReadDcFirst(scan, b, dt, src, last, was, 0) == ProgRead(DcDone(was, zs, b, 0), last, 0, src)
  {
    assert [] + more == more;
    assert DcDone(was, zs, b, 0) == was;
  }

  lemma DcDoneNext(was: Zigzags, zs: Zigzags, b: Band, n: nat)
    requires |was| == |zs| && b.Al <= 14 && b.Ah == 0 && (forall i | 0 <= i < |zs| :: |was[i]| == |zs[i]| == DCTSIZE2)
    requires 0 < n <= |zs|
    ensures var m := DcDone(was, zs, b, n - 1);
            && |m| == |zs| && |m[n - 1]| == DCTSIZE2
            && DcDone(was, zs, b, n) == m[n - 1 := SetDc(m[n - 1], Cast(DcShift(zs[n - 1][0], b.Al) * Pow2(b.Al)))]
  {
    hide DcShift, Pow2;
    DcTruncIs(zs[n - 1][0], b.Al);
    CastCoef(DcTrunc(zs[n - 1][0], b.Al));
  }

  // ----- any MCU is read back -----

  // The blocks of an AC scan.
  function Firsts(mcus: seq<Zigzags>): (r: seq<Block>)
    requires forall i | 0 <= i < |mcus| :: |mcus[i]| > 0
    ensures |r| == |mcus| && forall i | 0 <= i < |mcus| :: r[i] == mcus[i][0]
  {
    seq(|mcus|, i requires 0 <= i < |mcus| => mcus[i][0])
  }

  // The decoder is in step with the encoder, whose remaining MCUs of the segment are mcus.
  ghost predicate SegSync(scan: Scan, b: Band, t: CTables, s: SegState, mcus: seq<Zigzags>,
                          last: seq<int>, eobrun: nat, src: Src, pad: Bits) {
    && ValidProg(scan, b) && AllValid(scan, mcus) && SaneTables(t) && |s.last| == |scan.comps|
    && last == s.last && SegInRange(scan, b, s, mcus)
    && if b.Ss == 0 then
         eobrun == 0 && AllSendable(t, SegTokens(scan, b, s, mcus))
         && src == Sending(t, SegTokens(scan, b, s, mcus), pad)
       else
         (forall i | 0 <= i < |mcus| :: |mcus[i]| > 0) && InSync(t, s.held, Firsts(mcus), b, AcTable(scan), eobrun,
                                                                 src, pad)
  }

  // An AC scan sends what its blocks send.
  lemma {:induction false} AcSegTokens(scan: Scan, b: Band, s: SegState, mcus: seq<Zigzags>)
    requires ValidProg(scan, b) && AllValid(scan, mcus) && |s.last| == |scan.comps| && b.Ss != 0
    ensures ValidAc(b) && forall i | 0 <= i < |mcus| :: |mcus[i]| == 1 && |mcus[i][0]| == DCTSIZE2
    ensures SegTokens(scan, b, s, mcus) == BandTokens(s.held, Firsts(mcus), b, AcTable(scan))
    decreases |mcus|
  {
    hide CodeBand, BandStep;
    forall i | 0 <= i < |mcus|
      ensures |mcus[i]| == 1 && |mcus[i][0]| == DCTSIZE2
    {
      assert ValidZs(scan, mcus[i]);
    }
    if mcus != [] {
      AcSegTokens(scan, b, StepState(scan, b, s, mcus[0]), mcus[1..]);
      assert Firsts(mcus)[1..] == Firsts(mcus[1..]);
    }
  }

  // At the start of a segment.
  lemma FreshSync(scan: Scan, b: Band, t: CTables, mcus: seq<Zigzags>, pad: Bits)
    requires ValidProg(scan, b) && AllValid(scan, mcus) && SaneTables(t) && SegInRange(scan, b, Fresh(scan), mcus)
    requires AllSendable(t, SegTokens(scan, b, Fresh(scan), mcus))
    ensures SegSync(scan, b, t, Fresh(scan), mcus, NoPredictions(scan), 0,
                    Sending(t, SegTokens(scan, b, Fresh(scan), mcus), pad), pad)
  {
    hide SegTokens, BandTokens, SegInRange, Sending, AllSendable;
    if b.Ss != 0 {
      AcSegTokens(scan, b, Fresh(scan), mcus);
    }
  }

  lemma StepDc(scan: Scan, b: Band, t: CTables, dt: DTables, s: SegState, mcus: seq<Zigzags>, was: Zigzags, src: Src,
               pad: Bits)
    returns (src': Src)
    requires MatchingProg(scan, b, t, dt) && b.Ss == 0 && mcus != [] && McuBefore(scan, b, was, mcus[0])
    requires SegSync(scan, b, t, s, mcus, s.last, 0, src, pad)
    ensures ValidProgTables(scan, b, dt) && ValidZs(scan, was) && |was| == |mcus[0]| && AllValid(scan, mcus[1..])
    ensures b.Al <= 14
    ensures forall i | 0 <= i < |mcus[0]| :: |was[i]| == |mcus[0][i]| == DCTSIZE2
    ensures ReadStep(scan, b, dt, src, s.last, 0, was)
         == ProgRead(McuAfter(b, was, mcus[0]), StepState(scan, b, s, mcus[0]).last, 0, src')
    ensures SegSync(scan, b, t, StepState(scan, b, s, mcus[0]), mcus[1..], StepState(scan, b, s, mcus[0]).last, 0,
                    src', pad)
  {
    hide DcFirstTokens, DcRefineTokens, DcLast, DcInRange, ReadDcFirst, ReadDcRefine, Sending, AllSendable, DcTrunc,
      SetDc,
      SaneTables, Encodes;
    var zs, s' := mcus[0], StepState(scan, b, s, mcus[0]);
    assert AllValid(scan, mcus[1..]);
    var more := SegTokens(scan, b, s', mcus[1..]);
    if b.Ah == 0 {
      DcFirstBack(scan, b, t, dt, s.last, was, zs, |zs|, more, pad);
    } else {
      DcRefineBack(scan, b, t, was, zs, |zs|, more, pad);
    }
    assert DcDone(was, zs, b, |zs|) == McuAfter(b, was, zs);
    src' := Sending(t, more, pad);
  }

  // The next MCU of the segment is decoded, and the decoder stays in step.
  lemma StepBack(scan: Scan, b: Band, t: CTables, dt: DTables, s: SegState, mcus: seq<Zigzags>, was: Zigzags,
                 last: seq<int>, eobrun: nat, src: Src, pad: Bits)
    returns (eobrun': nat, src': Src)
    requires MatchingProg(scan, b, t, dt) && mcus != [] && McuBefore(scan, b, was, mcus[0])
    requires SegSync(scan, b, t, s, mcus, last, eobrun, src, pad)
    ensures ValidProgTables(scan, b, dt) && ValidZs(scan, was) && |was| == |mcus[0]| && AllValid(scan, mcus[1..])
    ensures b.Al <= 14
    ensures forall i | 0 <= i < |mcus[0]| :: |was[i]| == |mcus[0][i]| == DCTSIZE2
    ensures |last| == |scan.comps| && last == s.last
    ensures ReadStep(scan, b, dt, src, last, eobrun, was)
         == ProgRead(McuAfter(b, was, mcus[0]), StepState(scan, b, s, mcus[0]).last, eobrun', src')
    ensures SegSync(scan, b, t, StepState(scan, b, s, mcus[0]), mcus[1..], StepState(scan, b, s, mcus[0]).last,
                    eobrun', src', pad)
  {
    hide InSync, ReadBand, Before, SegTokens, Encodes, WellTyped, Legal, SaneTables, CodeBand, BandStep, BandInRange,
      Sending, AllSendable;
    if b.Ss == 0 {
      src' := StepDc(scan, b, t, dt, s, mcus, was, src, pad);
      eobrun' := 0;
    } else {
      var zs, cs := mcus[0], Firsts(mcus);
      assert ValidZs(scan, zs);
      eobrun', src' := BandBack(t, dt.ac[AcTable(scan)], AcTable(scan), s.held, cs, b, was[0], eobrun, src, pad);
      assert McuAfter(b, was, zs) == [After(was[0], zs[0], b)];
      assert Firsts(mcus[1..]) == cs[1..];
      assert AllValid(scan, mcus[1..]);
    }
  }
}
