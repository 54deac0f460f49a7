// Decoding a progressive scan returns what the encoder was given: the blocks as
// earlier scans have left them are taken one step further.
module ProgRoundTrip {
  import opened Bits
  import opened Tokens
  import opened BitSource
  import opened Blocks
  import opened BitWriter
  import opened McuCodec
  import opened ByteStream
  import opened Markers
  import opened McuReading
  import opened ProgCodec
  import opened ProgBands
  import opened ProgScan
  import opened ProgStream
  import opened ProgReading
  import opened Segments
  import opened SeqDecoder

  // ----- the decoder in step with the encoder -----

  // The parts of the decoder's state other than what is left of the segment.
  ghost predicate CoreInStep(scan: Scan, data: seq<Byte>, d: DecState, togo: nat, rst: nat, behind: seq<Byte>) {
    && ValidDec(scan, data, d) && d.next_restart_num == rst && (scan.restart_interval != 0 ==> d.restarts_to_go == togo)
    && Framed(data, d.end, behind)
  }

  ghost predicate PInStep(scan: Scan, b: Band, t: CTables, mcus: seq<Zigzags>, i: nat, data: seq<Byte>, d: PDec,
                          code: Byte, more: seq<Byte>) {
    && PAllEncodable(scan, b, t, mcus) && i <= |mcus|
    && var s := PStateAt(scan, b, t, mcus, i);
    && var open := Open(scan, mcus, i, s.restarts_to_go);
    && i + |open| <= |mcus|
    && CoreInStep(scan, data, d.core, s.restarts_to_go, s.next_restart_num,
                  TailAt(scan, b, t, mcus, i + |open|, s.next_restart_num) + ([0xFF, code] + more))
    && exists pad: Bits :: SegSync(scan, b, t, s.seg, open, d.core.last, d.eobrun, d.core.src, pad)
  }

  // The blocks of an MCU, once the decoder is in step with its segment.
  lemma ReadMcuBack(scan: Scan, b: Band, t: CTables, dt: DTables, data: seq<Byte>, d: PDec, seg: SegState,
                    open: seq<Zigzags>, was: Zigzags,
                    togo: nat, rst: nat, behind: seq<Byte>, pad: Bits) returns (d': PDec)
    requires MatchingProg(scan, b, t, dt) && open != [] && McuBefore(scan, b, was, open[0])
    requires SegSync(scan, b, t, seg, open, d.core.last, d.eobrun, d.core.src, pad)
    requires CoreInStep(scan, data, d.core, togo, rst, behind) && (scan.restart_interval != 0 ==> togo > 0)
    ensures ValidProgTables(scan, b, dt) && ValidZs(scan, was) && |was| == |open[0]| && b.Al <= 14
    ensures |d.core.last| == |scan.comps|
    ensures forall i | 0 <= i < |was| :: |was[i]| == |open[0][i]| == DCTSIZE2
    ensures PReadMcu(scan, b, dt, d, was) == POutcome(McuAfter(b, was, open[0]), d')
    ensures ValidProg(scan, b) && ValidZs(scan, open[0]) && |seg.last| == |scan.comps|
    ensures SegSync(scan, b, t, StepState(scan, b, seg, open[0]), open[1..], d'.core.last, d'.eobrun, d'.core.src, pad)
    ensures CoreInStep(scan, data, d'.core, if scan.restart_interval != 0 then togo - 1 else togo, rst, behind)
  {
    hide ReadStep, StepState, McuBefore, SegTokens, SegInRange, InSync, Framed, McuAfter, SaneTables, ValidProgTables;
    var eobrun', src' := StepBack(scan, b, t, dt, seg, open, was, d.core.last, d.eobrun, d.core.src, pad);
    SyncSource(scan, b, t, seg, open, d.core.last, d.eobrun, d.core.src, pad);
    SyncSource(scan, b, t, StepState(scan, b, seg, open[0]), open[1..], StepState(scan, b, seg, open[0]).last, eobrun',
               src', pad);
    d' := PReadMcu(scan, b, dt, d, was).state;
  }

  lemma SyncSource(scan: Scan, b: Band, t: CTables, s: SegState, mcus: seq<Zigzags>, last: seq<int>, eobrun: nat,
                   src: Src, pad: Bits)
    requires SegSync(scan, b, t, s, mcus, last, eobrun, src, pad)
    ensures !src.dry && ValidProg(scan, b) && |s.last| == |scan.comps| && AllValid(scan, mcus)
    ensures (mcus != [] ==> ValidZs(scan, mcus[0]))
  {
    hide SegTokens, SegInRange, BandTokens, BehindRun, RunLength, AllSendable, SaneTables;
  }

  // At a restart marker the decoder gets in step with the next segment.
  lemma RestartInStep(scan: Scan, b: Band, t: CTables, data: seq<Byte>, d: PDec, togo: nat, rst: nat,
                      open: seq<Zigzags>,
                      tail: seq<Byte>, code: Byte, more: seq<Byte>) returns (pad: Bits)
    requires Sendable1(scan, b, t, Fresh(scan), open) && rst < 8 && IsTail(tail) && 0 < code < 0xFF
    requires CoreInStep(scan, data, d.core, togo, rst,
                        [0xFF, RST0 + rst] + (Flushed(BitsOf(t, SegTokens(scan, b, Fresh(scan), open))) + tail)
                            + ([0xFF, code] + more))
    ensures d.core.end.End? && d.core.end.next <= |data| && AfterEnd(data, d.core.end, rst) == At(0, d.core.end.next)
    ensures var d1 := AtPlace(scan, data, d.core, 0, d.core.end.next);
            && CoreInStep(scan, data, d1, scan.restart_interval, (rst + 1) % 8, tail + ([0xFF, code] + more))
            && SegSync(scan, b, t, Fresh(scan), open, d1.last, 0, d1.src, pad)
  {
    hide Flushed, SegmentBits, SegmentEnd, AfterEnd, IsTail, SegTokens, SegInRange, BandTokens, TokensBits,
      AllSendable, SaneTables,
      NoPredictions, AllValid, Framed;
    var s := BitsOf(t, SegTokens(scan, b, Fresh(scan), open));
    pad := RestartFramed(data, d.core.end, rst, s, tail, code, more);
    FreshSync(scan, b, t, open, pad);
    FramedEnd(data, SegmentEnd(data, d.core.end.next), tail + ([0xFF, code] + more));
    assert AtPlace(scan, data, d.core, 0, d.core.end.next).src
        == Sending(t, SegTokens(scan, b, Fresh(scan), open), pad);
  }

  lemma FramedEnd(data: seq<Byte>, end: End, behind: seq<Byte>)
    requires Framed(data, end, behind)
    ensures end.End? && end.next <= |data| && Arrived(end, |data|)
  {
  }

  lemma InStepParts(scan: Scan, b: Band, t: CTables, mcus: seq<Zigzags>, i: nat, data: seq<Byte>, d: PDec, code: Byte,
                    more: seq<Byte>)
    returns (pad: Bits)
    requires PInStep(scan, b, t, mcus, i, data, d, code, more)
    ensures PAllEncodable(scan, b, t, mcus) && ValidProg(scan, b) && SaneTables(t) && AllValid(scan, mcus)
    ensures i <= |mcus|
    ensures var s := PStateAt(scan, b, t, mcus, i);
            var open := Open(scan, mcus, i, s.restarts_to_go);
            && i + |open| <= |mcus| && s.next_restart_num < 8
            && CoreInStep(scan, data, d.core, s.restarts_to_go, s.next_restart_num,
                          TailAt(scan, b, t, mcus, i + |open|, s.next_restart_num) + ([0xFF, code] + more))
            && SegSync(scan, b, t, s.seg, open, d.core.last, d.eobrun, d.core.src, pad)
            && ValidDec(scan, data, d.core) && (RestartDue(scan, d.core) <==> PDue(scan, s))
  {
    hide PAllEncodable, PStateAt, TailAt, SegSync, Open, Framed;
    assert ValidProg(scan, b) && SaneTables(t) && AllValid(scan, mcus) by {
      EncodableParts(scan, b, t, mcus);
    }
    var s := PStateAt(scan, b, t, mcus, i);
    pad :| SegSync(scan, b, t, s.seg, Open(scan, mcus, i, s.restarts_to_go), d.core.last, d.eobrun, d.core.src, pad);
  }

  lemma EncodableParts(scan: Scan, b: Band, t: CTables, mcus: seq<Zigzags>)
    requires PAllEncodable(scan, b, t, mcus)
    ensures ValidProg(scan, b) && SaneTables(t) && AllValid(scan, mcus)
  {
  }

  lemma InStepWhen(scan: Scan, b: Band, t: CTables, mcus: seq<Zigzags>, i: nat, data: seq<Byte>, d: PDec, code: Byte,
                   more: seq<Byte>, pad: Bits)
    requires PAllEncodable(scan, b, t, mcus) && i <= |mcus| && ValidProg(scan, b) && SaneTables(t)
    requires AllValid(scan, mcus)
    requires var s := PStateAt(scan, b, t, mcus, i);
             var open := Open(scan, mcus, i, s.restarts_to_go);
             && i + |open| <= |mcus|
             && CoreInStep(scan, data, d.core, s.restarts_to_go, s.next_restart_num,
                           TailAt(scan, b, t, mcus, i + |open|, s.next_restart_num) + ([0xFF, code] + more))
             && SegSync(scan, b, t, s.seg, open, d.core.last, d.eobrun, d.core.src, pad)
    ensures PInStep(scan, b, t, mcus, i, data, d, code, more)
  {
    hide PAllEncodable, PStateAt, TailAt, SegSync, Open, CoreInStep;
  }

  // In state d the decoder, with everything arrived, takes was one step further
  // and goes on in state d'.
  ghost predicate PDecoded(scan: Scan, b: Band, dt: DTables, data: seq<Byte>, d: PDec, was: Zigzags, zs: Zigzags,
                           d': PDec) {
    && ValidProgTables(scan, b, dt)
    && ValidDec(scan, data, d.core)
    && ValidZs(scan, was)
    && Live(scan, data, d.core, |data|)
    && |was| == |zs| && b.Al <= 14 && (forall i | 0 <= i < |was| :: |was[i]| == |zs[i]| == DCTSIZE2)
    && PDecodeOne(scan, b, dt, data, d, was) == POutcome(McuAfter(b, was, zs), d')
  }

  lemma PDecodeOneIs(scan: Scan, b: Band, dt: DTables, data: seq<Byte>, d: PDec, d1: PDec, was: Zigzags, zs: Zigzags,
                     d': PDec)
    requires ValidProgTables(scan, b, dt) && ValidDec(scan, data, d.core) && ValidZs(scan, was)
    requires |d1.core.last| == |scan.comps|
    requires Arrived(d1.core.end, |data|)
    requires if RestartDue(scan, d.core)
             then d.core.end.End? && AfterEnd(data, d.core.end, d.core.next_restart_num) == At(0, d.core.end.next)
                  && d1 == PDec(AtPlace(scan, data, d.core, 0, d.core.end.next), 0)
             else d1 == d
    requires |was| == |zs| && b.Al <= 14 && forall i | 0 <= i < |was| :: |was[i]| == |zs[i]| == DCTSIZE2
    requires PReadMcu(scan, b, dt, d1, was) == POutcome(McuAfter(b, was, zs), d')
    ensures PDecoded(scan, b, dt, data, d, was, zs, d')
  {
    hide PReadMcu, ValidProgTables, SegmentBits, SegmentEnd, McuAfter;
  }

  lemma PAfterMcuIs(scan: Scan, b: Band, t: CTables, s: PState, zs: Zigzags)
    requires ValidProg(scan, b) && SaneTables(t) && ValidPState(scan, s) && ValidZs(scan, zs)
    ensures var s' := PAfterMcu(scan, b, t, s, zs);
            if PDue(scan, s) then
              && scan.restart_interval > 0 && s'.seg == StepState(scan, b, Fresh(scan), zs) && s.restarts_to_go == 0
              && s'.restarts_to_go == scan.restart_interval - 1 && s'.next_restart_num == (s.next_restart_num + 1) % 8
            else
              && s'.seg == StepState(scan, b, s.seg, zs) && s'.next_restart_num == s.next_restart_num
              && s'.restarts_to_go == (if scan.restart_interval == 0 then s.restarts_to_go else s.restarts_to_go - 1)
              && (scan.restart_interval == 0 || s.restarts_to_go > 0)
  {
    hide StepState, StepTokens, Closing, Flushed;
  }

  lemma CoreArrived(scan: Scan, data: seq<Byte>, d: DecState, togo: nat, rst: nat, behind: seq<Byte>)
    requires CoreInStep(scan, data, d, togo, rst, behind)
    ensures Arrived(d.end, |data|) && ValidDec(scan, data, d) && d.next_restart_num == rst
  {
  }

  lemma TailPart(scan: Scan, b: Band, t: CTables, mcus: seq<Zigzags>, j: nat, rst: nat)
    requires ValidProg(scan, b) && SaneTables(t) && AllValid(scan, mcus) && j <= |mcus| && rst < 8
    ensures IsTail(TailAt(scan, b, t, mcus, j, rst))
  {
  }

  // MCU i is decoded, and the decoder is in step for the next one.
  lemma PStepBack(scan: Scan, b: Band, t: CTables, dt: DTables, mcus: seq<Zigzags>, i: nat, data: seq<Byte>, d: PDec,
                  was: Zigzags,
                  code: Byte, more: seq<Byte>) returns (d': PDec)
    requires MatchingProg(scan, b, t, dt) && 0 < code < 0xFF && PInStep(scan, b, t, mcus, i, data, d, code, more)
    requires i < |mcus| && McuBefore(scan, b, was, mcus[i])
    ensures PDecoded(scan, b, dt, data, d, was, mcus[i], d') && PInStep(scan, b, t, mcus, i + 1, data, d', code, more)
  {
    hide *;
    var pad := InStepParts(scan, b, t, mcus, i, data, d, code, more);
    PStateNext(scan, b, t, mcus, i);
    AlwaysForeseen(scan, b, t, mcus, i);
    var s := PStateAt(scan, b, t, mcus, i);
    PAfterMcuIs(scan, b, t, s, mcus[i]);
    var d1, seg, togo, rst := d, s.seg, s.restarts_to_go, s.next_restart_num;
    if PDue(scan, s) {
      togo, rst, seg := scan.restart_interval, (s.next_restart_num + 1) % 8, Fresh(scan);
      OpenValid(scan, mcus, i, 0);
      TailIs(scan, b, t, mcus, i, s.next_restart_num);
      var open := Open(scan, mcus, i, togo);
      TailPart(scan, b, t, mcus, i + |open|, rst);
      pad := RestartInStep(scan, b, t, data, d, s.restarts_to_go, s.next_restart_num, open,
                           TailAt(scan, b, t, mcus, i + |open|, rst), code, more);
      d1 := PDec(AtPlace(scan, data, d.core, 0, d.core.end.next), 0);
    }
    var open := Open(scan, mcus, i, togo);
    OpenNext(scan, mcus, i, togo);
    var behind := TailAt(scan, b, t, mcus, i + |open|, rst) + ([0xFF, code] + more);
    CoreArrived(scan, data, d1.core, togo, rst, behind);
    d' := ReadMcuBack(scan, b, t, dt, data, d1, seg, open, was, togo, rst, behind, pad);
    CoreArrived(scan, data, d.core, s.restarts_to_go, s.next_restart_num,
                TailAt(scan, b, t, mcus, i + |Open(scan, mcus, i, s.restarts_to_go)|, s.next_restart_num)
                    + ([0xFF, code] + more));
    PDecodeOneIs(scan, b, dt, data, d, d1, was, mcus[i], d');
    InStepWhen(scan, b, t, mcus, i + 1, data, d', code, more, pad);
  }

  // The decoder's state at the start of a scan.
  function PStartAt(scan: Scan, data: seq<Byte>, p: nat): PDec
    requires p <= |data|
  {
    PDec(DecState(Src(SegmentBits(data, p), false), SegmentEnd(data, p), NoPredictions(scan), scan.restart_interval,
                  0), 0)
  }

  // The bits of the first segment, and what comes behind it.
  lemma PStartAhead(scan: Scan, b: Band, t: CTables, mcus: seq<Zigzags>)
    requires PAllEncodable(scan, b, t, mcus)
    ensures ValidProg(scan, b) && SaneTables(t) && AllValid(scan, mcus) && PStateAt(scan, b, t, mcus, 0) == PStart(scan)
    ensures PStart(scan).seg == Fresh(scan) && PStart(scan).restarts_to_go == scan.restart_interval
    ensures PStart(scan).next_restart_num == 0
    ensures var open := Open(scan, mcus, 0, scan.restart_interval);
            && |open| <= |mcus| && AllValid(scan, open) && SegInRange(scan, b, Fresh(scan), open)
            && AllSendable(t, SegTokens(scan, b, Fresh(scan), open))
            && PFinished(scan, b, t, PStateAt(scan, b, t, mcus, |mcus|))
                 == Flushed(BitsOf(t, SegTokens(scan, b, Fresh(scan), open))) + TailAt(scan, b, t, mcus, |open|, 0)
  {
    hide PAllEncodable, PFinished, Flushed, TailAt, SegTokens, SegInRange, AllSendable, Open, SaneTables, ValidProg,
      BitsOf;
    AlwaysForeseen(scan, b, t, mcus, 0);
    var s := PStateAt(scan, b, t, mcus, 0);
    var open := Open(scan, mcus, 0, s.restarts_to_go);
    var bits, tail := BitsOf(t, SegTokens(scan, b, s.seg, open)), TailAt(scan, b, t, mcus, |open|, 0);
    assert [] + bits == bits && [] + (Flushed(bits) + tail) == Flushed(bits) + tail;
  }

  lemma FreshPart(scan: Scan)
    ensures |Fresh(scan).last| == |scan.comps|
  {
  }

  lemma BehindFront(data: seq<Byte>, front: seq<Byte>, flushed: seq<Byte>, tail: seq<Byte>, rest: seq<Byte>)
    requires data == front + (flushed + tail + rest)
    ensures data[|front|..] == flushed + (tail + rest)
  {
  }

  lemma PStartCore(scan: Scan, t: CTables, data: seq<Byte>, p: nat, tokens: seq<Token>, pad: Bits, behind: seq<Byte>)
    requires SaneTables(t) && AllSendable(t, tokens)
    requires p <= |data| && SegmentBits(data, p) == BitsOf(t, tokens) + pad && Framed(data, SegmentEnd(data, p), behind)
    ensures CoreInStep(scan, data, PStartAt(scan, data, p).core, scan.restart_interval, 0, behind)
    ensures PStartAt(scan, data, p).core.src == Sending(t, tokens, pad) && PStartAt(scan, data, p).eobrun == 0
    ensures PStartAt(scan, data, p).core.last == NoPredictions(scan) && |NoPredictions(scan)| == |scan.comps|
  {
    hide SegmentBits, SegmentEnd, Framed;
    FramedEnd(data, SegmentEnd(data, p), behind);
  }

  lemma PStartInStep(scan: Scan, b: Band, t: CTables, mcus: seq<Zigzags>, front: seq<Byte>, code: Byte,
                     more: seq<Byte>, data: seq<Byte>)
    requires PAllEncodable(scan, b, t, mcus) && 0 < code < 0xFF && ValidProg(scan, b) && SaneTables(t)
    requires AllValid(scan, mcus)
    requires data == front + (PFinished(scan, b, t, PStateAt(scan, b, t, mcus, |mcus|)) + ([0xFF, code] + more))
    ensures PInStep(scan, b, t, mcus, 0, data, PStartAt(scan, data, |front|), code, more)
  {
    hide *;
    PStartAhead(scan, b, t, mcus);
    FreshPart(scan);
    var open := Open(scan, mcus, 0, scan.restart_interval);
    var tokens, tail := SegTokens(scan, b, Fresh(scan), open), TailAt(scan, b, t, mcus, |open|, 0);
    BehindFront(data, front, Flushed(BitsOf(t, tokens)), tail, [0xFF, code] + more);
    TailPart(scan, b, t, mcus, |open|, 0);
    var pad := StartFramed(data, |front|, BitsOf(t, tokens), tail, code, more);
    FreshSync(scan, b, t, open, pad);
    PStartCore(scan, t, data, |front|, tokens, pad, tail + ([0xFF, code] + more));
    InStepWhen(scan, b, t, mcus, 0, data, PStartAt(scan, data, |front|), code, more, pad);
  }

  // The bytes of a progressive scan, wherever they stand and whatever marker
  // follows them, take every MCU from what earlier scans have made of it to what
  // this scan is to make of it; and once all bytes have arrived, the decoder
  // never has to be suspended.
  lemma {:induction false} ProgScanRoundTrip(scan: Scan, b: Band, t: CTables, dt: DTables, mcus: seq<Zigzags>,
                                             was: seq<Zigzags>, n: nat,
                                             front: seq<Byte>, code: Byte, more: seq<Byte>, data: seq<Byte>)
    requires PAllEncodable(scan, b, t, mcus) && MatchingProg(scan, b, t, dt) && 0 < code < 0xFF
    requires ValidProg(scan, b) && SaneTables(t) && AllValid(scan, mcus)
    requires n <= |mcus| == |was| && forall i | 0 <= i < |mcus| :: McuBefore(scan, b, was[i], mcus[i])
    requires data == front + (PFinished(scan, b, t, PStateAt(scan, b, t, mcus, |mcus|)) + ([0xFF, code] + more))
    ensures ValidProgTables(scan, b, dt) && ValidDec(scan, data, PStartAt(scan, data, |front|).core)
    ensures AllValid(scan, was) && b.Al <= 14
    ensures forall i, k | 0 <= i < |mcus| && 0 <= k < |mcus[i]| ::
      |was[i]| == |mcus[i]| && |was[i][k]| == |mcus[i][k]| == DCTSIZE2
    ensures var run := PRunOf(scan, b, dt, data, PStartAt(scan, data, |front|), was, n);
            && run.PRun? && PInStep(scan, b, t, mcus, n, data, run.state, code, more)
            && (forall i | 0 <= i < n :: |was[i]| == |mcus[i]| && run.mcus[i] == McuAfter(b, was[i], mcus[i]))
            && (n < |mcus| ==> Live(scan, data, run.state.core, |data|))
    decreases n
  {
    hide PAllEncodable, PFinished, PStateAt, PInStep, PStartAt, PDecodeOne, Live, MatchingProg, PRunOf, McuAfter,
      ValidDec;
    PStartInStep(scan, b, t, mcus, front, code, more, data);
    var start := PStartAt(scan, data, |front|);
    PStartValid(scan, b, t, dt, mcus, was, data, start, code, more);
    PRunZero(scan, b, dt, data, start, was);
    if n > 0 {
      ProgScanRoundTrip(scan, b, t, dt, mcus, was, n - 1, front, code, more, data);
      var run := PRunOf(scan, b, dt, data, start, was, n - 1);
      var d' := PStepBack(scan, b, t, dt, mcus, n - 1, data, run.state, was[n - 1], code, more);
      PRunNext(scan, b, dt, data, start, was, n - 1);
    }
    if n < |mcus| {
      var d' := PStepBack(scan, b, t, dt, mcus, n, data, PRunOf(scan, b, dt, data, start, was, n).state, was[n], code,
                          more);
    }
  }

  lemma PRunZero(scan: Scan, b: Band, dt: DTables, data: seq<Byte>, s: PDec, was: seq<Zigzags>)
    requires ValidProgTables(scan, b, dt) && AllValid(scan, was) && ValidDec(scan, data, s.core)
    ensures PRunOf(scan, b, dt, data, s, was, 0) == PRun(s, [])
  {
  }

  lemma PRunNext(scan: Scan, b: Band, dt: DTables, data: seq<Byte>, s: PDec, was: seq<Zigzags>, n: nat)
    requires ValidProgTables(scan, b, dt) && AllValid(scan, was) && ValidDec(scan, data, s.core) && n < |was|
    requires ValidZs(scan, was[n])
    requires PRunOf(scan, b, dt, data, s, was, n).PRun?
    ensures var m := PRunOf(scan, b, dt, data, s, was, n);
            var o := PDecodeOne(scan, b, dt, data, m.state, was[n]);
            o.POutcome? ==> PRunOf(scan, b, dt, data, s, was, n + 1) == PRun(o.state, m.mcus + [o.blocks])
  {
    hide PDecodeOne, ValidProgTables;
  }

  lemma PStartValid(scan: Scan, b: Band, t: CTables, dt: DTables, mcus: seq<Zigzags>, was: seq<Zigzags>,
                    data: seq<Byte>, d: PDec,
                    code: Byte, more: seq<Byte>)
    requires MatchingProg(scan, b, t, dt) && PInStep(scan, b, t, mcus, 0, data, d, code, more)
    requires |was| == |mcus| && forall i | 0 <= i < |mcus| :: McuBefore(scan, b, was[i], mcus[i])
    ensures ValidProgTables(scan, b, dt) && ValidDec(scan, data, d.core) && AllValid(scan, was) && b.Al <= 14
    ensures forall i | 0 <= i < |mcus| :: ValidZs(scan, was[i])
    ensures forall i, k | 0 <= i < |mcus| && 0 <= k < |mcus[i]| ::
      |was[i]| == |mcus[i]| && |was[i][k]| == |mcus[i][k]| == DCTSIZE2
  {
    hide PAllEncodable, PStateAt, TailAt, SegSync, Open;
    forall i | 0 <= i < |mcus|
      ensures ValidZs(scan, was[i]) && ValidZs(scan, mcus[i])
    {
      assert McuBefore(scan, b, was[i], mcus[i]);
    }
  }
}
