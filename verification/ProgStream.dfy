// The bytes of a progressive scan: segments, restart markers, and the end of
// the scan (encode_mcu_*, emit_restart and finish_pass_phuff of jcphuff.c).
module ProgStream {
  import opened Arith
  import opened Bits
  import opened Tokens
  import opened BitWriter
  import opened McuCodec
  import opened ProgCodec
  import opened ProgScan
  import opened Segments

  // The encoder between MCUs.
  datatype PState = PState(seg: SegState, restarts_to_go: nat, next_restart_num: nat, closed: seq<Byte>, bits: Bits)

  predicate ValidPState(scan: Scan, s: PState) {
    |s.seg.last| == |scan.comps| && s.next_restart_num < 8 && s.restarts_to_go <= scan.restart_interval
  }

  function PStart(scan: Scan): PState {
    PState(Fresh(scan), scan.restart_interval, 0, [], [])
  }

  predicate PDue(scan: Scan, s: PState) {
    scan.restart_interval != 0 && s.restarts_to_go == 0
  }

  // The bits of tokens that can be sent.
  function BitsOf(t: CTables, toks: seq<Token>): Bits
    requires SaneTables(t)
  {
    if AllSendable(t, toks) then TokensBits(t, toks) else []
  }

  // The bits with which the open segment ends.
  function Closing(scan: Scan, b: Band, t: CTables, s: PState): Bits
    requires ValidProg(scan, b) && SaneTables(t)
  {
    s.bits + BitsOf(t, ReleaseTokens(scan, b, s.seg))
  }

  function PAfterRestart(scan: Scan, b: Band, t: CTables, s: PState): (r: PState)
    requires ValidProg(scan, b) && SaneTables(t) && ValidPState(scan, s)
    ensures ValidPState(scan, r)
  {
    if PDue(scan, s) then
      PState(Fresh(scan), scan.restart_interval, (s.next_restart_num + 1) % 8,
             s.closed + Flushed(Closing(scan, b, t, s)) + [0xFF, RST0 + s.next_restart_num], [])
    else s
  }

  predicate PEncodable(scan: Scan, b: Band, t: CTables, s: PState, zs: Zigzags)
    requires ValidProg(scan, b) && SaneTables(t) && ValidPState(scan, s) && ValidZs(scan, zs)
  {
    var s1 := PAfterRestart(scan, b, t, s);
    && (PDue(scan, s) ==> AllSendable(t, ReleaseTokens(scan, b, s.seg)))
    && StepInRange(scan, b, s1.seg, zs) && AllSendable(t, StepTokens(scan, b, s1.seg, zs))
  }

  function PAfterMcu(scan: Scan, b: Band, t: CTables, s: PState, zs: Zigzags): (r: PState)
    requires ValidProg(scan, b) && SaneTables(t) && ValidPState(scan, s) && ValidZs(scan, zs)
    ensures ValidPState(scan, r)
  {
    var s1 := PAfterRestart(scan, b, t, s);
    PState(StepState(scan, b, s1.seg, zs),
           if scan.restart_interval != 0 then s1.restarts_to_go - 1 else s1.restarts_to_go,
           s1.next_restart_num, s1.closed, s1.bits + BitsOf(t, StepTokens(scan, b, s1.seg, zs)))
  }

  // The state after the first n MCUs.
  function PStateAt(scan: Scan, b: Band, t: CTables, mcus: seq<Zigzags>, n: nat): (s: PState)
    requires ValidProg(scan, b) && SaneTables(t) && AllValid(scan, mcus) && n <= |mcus|
    ensures ValidPState(scan, s)
  {
    if n == 0 then PStart(scan)
    else
      assert ValidZs(scan, mcus[n - 1]);
      PAfterMcu(scan, b, t, PStateAt(scan, b, t, mcus, n - 1), mcus[n - 1])
  }

  // All MCUs of the scan can be encoded, and so can what is held at its end.
  ghost predicate PAllEncodable(scan: Scan, b: Band, t: CTables, mcus: seq<Zigzags>) {
    && ValidProg(scan, b) && SaneTables(t) && AllValid(scan, mcus)
    && (forall i | 0 <= i < |mcus| :: ValidZs(scan, mcus[i]) && PEncodable(scan, b, t, PStateAt(scan, b, t, mcus, i),
                                                                           mcus[i]))
    && AllSendable(t, ReleaseTokens(scan, b, PStateAt(scan, b, t, mcus, |mcus|).seg))
  }

  // The bytes of the scan, if it ends in state s.
  function PFinished(scan: Scan, b: Band, t: CTables, s: PState): seq<Byte>
    requires ValidProg(scan, b) && SaneTables(t)
  {
    s.closed + Flushed(Closing(scan, b, t, s))
  }

  // ----- the segments ahead -----

  // The MCUs from i on that belong to the open segment.
  function Open(scan: Scan, mcus: seq<Zigzags>, i: nat, togo: nat): (r: seq<Zigzags>)
    requires i <= |mcus|
  {
    if scan.restart_interval == 0 || i + togo >= |mcus| then mcus[i..] else mcus[i..i + togo]
  }

  lemma OpenNext(scan: Scan, mcus: seq<Zigzags>, i: nat, togo: nat)
    requires i < |mcus| && (scan.restart_interval == 0 || togo > 0) && AllValid(scan, mcus)
    ensures Open(scan, mcus, i, togo) != [] && Open(scan, mcus, i, togo)[0] == mcus[i] && ValidZs(scan, mcus[i])
    ensures var left := if scan.restart_interval == 0 then togo else togo - 1;
            && left >= 0 && Open(scan, mcus, i, togo)[1..] == Open(scan, mcus, i + 1, left)
            && i + |Open(scan, mcus, i, togo)| == i + 1 + |Open(scan, mcus, i + 1, left)|
    ensures AllValid(scan, Open(scan, mcus, i, togo)) && i + |Open(scan, mcus, i, togo)| <= |mcus|
  {
    assert forall k | 0 <= k < |Open(scan, mcus, i, togo)| :: Open(scan, mcus, i, togo)[k] == mcus[i + k];
  }

  lemma OpenValid(scan: Scan, mcus: seq<Zigzags>, i: nat, togo: nat)
    requires i <= |mcus| && AllValid(scan, mcus)
    ensures AllValid(scan, Open(scan, mcus, i, togo)) && i + |Open(scan, mcus, i, togo)| <= |mcus|
    ensures i == |mcus| || (scan.restart_interval != 0 && togo == 0) ==> Open(scan, mcus, i, togo) == []
    ensures i < |mcus| && (scan.restart_interval == 0 || togo > 0) ==> Open(scan, mcus, i, togo) != []
  {
    assert forall k | 0 <= k < |Open(scan, mcus, i, togo)| :: Open(scan, mcus, i, togo)[k] == mcus[i + k];
  }

  // The bits of the segment that begins with MCU j.
  function SegmentOf(scan: Scan, b: Band, t: CTables, mcus: seq<Zigzags>, j: nat): Bits
    requires ValidProg(scan, b) && SaneTables(t) && AllValid(scan, mcus) && j <= |mcus|
  {
    OpenValid(scan, mcus, j, scan.restart_interval);
    BitsOf(t, SegTokens(scan, b, Fresh(scan), Open(scan, mcus, j, scan.restart_interval)))
  }

  // The bytes behind a segment that ends before MCU j.
  function TailAt(scan: Scan, b: Band, t: CTables, mcus: seq<Zigzags>, j: nat, rst: nat): (r: seq<Byte>)
    requires ValidProg(scan, b) && SaneTables(t) && AllValid(scan, mcus) && j <= |mcus| && rst < 8
    ensures IsTail(r)
    decreases |mcus| - j
  {
    NoTail();
    if j == |mcus| || scan.restart_interval == 0 then []
    else
      OpenValid(scan, mcus, j, scan.restart_interval);
      RestartTail(rst, SegmentOf(scan, b, t, mcus, j),
                  TailAt(scan, b, t, mcus, j + |Open(scan, mcus, j, scan.restart_interval)|, (rst + 1) % 8))
  }

  // A segment that can be sent from state s.
  ghost predicate Sendable1(scan: Scan, b: Band, t: CTables, s: SegState, open: seq<Zigzags>) {
    && ValidProg(scan, b) && SaneTables(t) && AllValid(scan, open) && |s.last| == |scan.comps|
    && SegInRange(scan, b, s, open) && AllSendable(t, SegTokens(scan, b, s, open))
  }

  lemma SegNext(scan: Scan, b: Band, t: CTables, s: SegState, open: seq<Zigzags>)
    requires ValidProg(scan, b) && SaneTables(t) && AllValid(scan, open) && |s.last| == |scan.comps| && open != []
    requires ValidZs(scan, open[0]) && StepInRange(scan, b, s, open[0])
    requires AllSendable(t, StepTokens(scan, b, s, open[0]))
    requires Sendable1(scan, b, t, StepState(scan, b, s, open[0]), open[1..])
    ensures Sendable1(scan, b, t, s, open)
    ensures BitsOf(t, SegTokens(scan, b, s, open))
      == BitsOf(t, StepTokens(scan, b, s, open[0]))
          + BitsOf(t, SegTokens(scan, b, StepState(scan, b, s, open[0]), open[1..]))
  {
    hide StepTokens, StepState, StepInRange, TokensBits, SaneTables, AllSendable;
    TokensBitsConcat(t, StepTokens(scan, b, s, open[0]), SegTokens(scan, b, StepState(scan, b, s, open[0]), open[1..]));
  }

  lemma SegEnd(scan: Scan, b: Band, t: CTables, s: SegState)
    requires ValidProg(scan, b) && SaneTables(t) && |s.last| == |scan.comps|
    requires AllSendable(t, ReleaseTokens(scan, b, s))
    ensures Sendable1(scan, b, t, s, []) && SegTokens(scan, b, s, []) == ReleaseTokens(scan, b, s)
  {
  }

  // What the bytes of the scan will be, seen from MCU i.
  ghost predicate Foreseen(scan: Scan, b: Band, t: CTables, mcus: seq<Zigzags>, i: nat) {
    && ValidProg(scan, b) && SaneTables(t) && AllValid(scan, mcus) && i <= |mcus|
    && var s := PStateAt(scan, b, t, mcus, i);
    && var open := Open(scan, mcus, i, s.restarts_to_go);
    && AllValid(scan, open) && i + |open| <= |mcus| && Sendable1(scan, b, t, s.seg, open)
    && PFinished(scan, b, t, PStateAt(scan, b, t, mcus, |mcus|))
         == s.closed + (Flushed(s.bits + BitsOf(t, SegTokens(scan, b, s.seg, open)))
                        + TailAt(scan, b, t, mcus, i + |open|, s.next_restart_num))
  }

  lemma ForeseenEnd(scan: Scan, b: Band, t: CTables, mcus: seq<Zigzags>)
    requires PAllEncodable(scan, b, t, mcus)
    ensures Foreseen(scan, b, t, mcus, |mcus|)
  {
    hide PStateAt, ReleaseTokens, Flushed, PEncodable;
    var s := PStateAt(scan, b, t, mcus, |mcus|);
    OpenValid(scan, mcus, |mcus|, s.restarts_to_go);
    SegEnd(scan, b, t, s.seg);
    var f := Flushed(Closing(scan, b, t, s));
    assert f + [] == f;
  }

  // One MCU without a restart takes its bits from the front of what is ahead.
  lemma ForeseenStep(scan: Scan, b: Band, t: CTables, mcus: seq<Zigzags>, i: nat)
    requires i < |mcus| && PAllEncodable(scan, b, t, mcus) && Foreseen(scan, b, t, mcus, i + 1)
    requires !PDue(scan, PStateAt(scan, b, t, mcus, i))
    ensures Foreseen(scan, b, t, mcus, i)
  {
    hide PStateAt, ReleaseTokens, Flushed, StepTokens, StepState, StepInRange, TokensBits, BitsOf, AllSendable,
      SegTokens, SegInRange,
      Closing, TailAt, Sendable1, ValidProg, SaneTables, Open;
    var s, s' := PStateAt(scan, b, t, mcus, i), PStateAt(scan, b, t, mcus, i + 1);
    PStateNext(scan, b, t, mcus, i);
    var open := Open(scan, mcus, i, s.restarts_to_go);
    OpenNext(scan, mcus, i, s.restarts_to_go);
    SegNext(scan, b, t, s.seg, open);
    Assoc(s.bits, BitsOf(t, StepTokens(scan, b, s.seg, mcus[i])), BitsOf(t, SegTokens(scan, b, s'.seg, open[1..])));
  }

  lemma PStateNext(scan: Scan, b: Band, t: CTables, mcus: seq<Zigzags>, i: nat)
    requires i < |mcus| && PAllEncodable(scan, b, t, mcus)
    ensures ValidProg(scan, b) && SaneTables(t) && AllValid(scan, mcus) && ValidZs(scan, mcus[i])
    ensures var s := PStateAt(scan, b, t, mcus, i);
            && ValidPState(scan, s) && PEncodable(scan, b, t, s, mcus[i])
            && PStateAt(scan, b, t, mcus, i + 1) == PAfterMcu(scan, b, t, s, mcus[i])
  {
    hide PEncodable, PAfterMcu;
  }

  lemma TailIs(scan: Scan, b: Band, t: CTables, mcus: seq<Zigzags>, j: nat, rst: nat)
    requires ValidProg(scan, b) && SaneTables(t) && AllValid(scan, mcus) && j < |mcus| && rst < 8
    requires scan.restart_interval != 0
    ensures var open := Open(scan, mcus, j, scan.restart_interval);
            && j + |open| <= |mcus| && AllValid(scan, open)
            && TailAt(scan, b, t, mcus, j, rst) ==
                 [0xFF, RST0 + rst] + (Flushed(BitsOf(t, SegTokens(scan, b, Fresh(scan), open)))
                   + TailAt(scan, b, t, mcus, j + |open|, (rst + 1) % 8))
  {
    hide Flushed, SegTokens, BitsOf, Open;
    OpenValid(scan, mcus, j, scan.restart_interval);
  }

  // After a restart the MCU begins a new segment.
  lemma ForeseenRestart(scan: Scan, b: Band, t: CTables, mcus: seq<Zigzags>, i: nat)
    requires i < |mcus| && PAllEncodable(scan, b, t, mcus) && Foreseen(scan, b, t, mcus, i + 1)
    requires PDue(scan, PStateAt(scan, b, t, mcus, i))
    ensures Foreseen(scan, b, t, mcus, i)
    ensures Sendable1(scan, b, t, Fresh(scan), Open(scan, mcus, i, scan.restart_interval))
  {
    hide PStateAt, ReleaseTokens, Flushed, StepTokens, StepState, StepInRange, TokensBits, BitsOf, AllSendable,
      SegTokens, SegInRange,
      TailAt, Sendable1, ValidProg, SaneTables, Open, NoPredictions;
    var s, s' := PStateAt(scan, b, t, mcus, i), PStateAt(scan, b, t, mcus, i + 1);
    PStateNext(scan, b, t, mcus, i);
    OpenValid(scan, mcus, i, 0);
    SegEnd(scan, b, t, s.seg);
    var open := Open(scan, mcus, i, scan.restart_interval);
    OpenNext(scan, mcus, i, scan.restart_interval);
    SegNext(scan, b, t, Fresh(scan), open);
    TailIs(scan, b, t, mcus, i, s.next_restart_num);
    var x := BitsOf(t, StepTokens(scan, b, Fresh(scan), mcus[i]));
    assert [] + x == x;
    RestartJoin(s.closed, Flushed(Closing(scan, b, t, s)), [0xFF, RST0 + s.next_restart_num],
                Flushed(BitsOf(t, SegTokens(scan, b, Fresh(scan), open)))
                  + TailAt(scan, b, t, mcus, i + |open|, (s.next_restart_num + 1) % 8));
  }

  lemma RestartJoin(a: seq<Byte>, c: seq<Byte>, m: seq<Byte>, d: seq<Byte>)
    ensures a + c + m + d == a + (c + (m + d))
  {
  }

  // At every MCU the rest of the scan can be foreseen.
  lemma {:induction false} AlwaysForeseen(scan: Scan, b: Band, t: CTables, mcus: seq<Zigzags>, i: nat)
    requires i <= |mcus| && PAllEncodable(scan, b, t, mcus)
    ensures Foreseen(scan, b, t, mcus, i)
    ensures i < |mcus| && PDue(scan, PStateAt(scan, b, t, mcus, i)) ==>
      Sendable1(scan, b, t, Fresh(scan), Open(scan, mcus, i, scan.restart_interval))
    decreases |mcus| - i
  {
    hide PStateAt, Foreseen, PDue, PAllEncodable, Sendable1;
    if i == |mcus| {
      ForeseenEnd(scan, b, t, mcus);
    } else {
      AlwaysForeseen(scan, b, t, mcus, i + 1);
      PStateNext(scan, b, t, mcus, i);
      if PDue(scan, PStateAt(scan, b, t, mcus, i)) {
        ForeseenRestart(scan, b, t, mcus, i);
      } else {
        ForeseenStep(scan, b, t, mcus, i);
      }
    }
  }

  // ----- restarts, counted from the start -----

  lemma {:induction false} PRestartCounters(scan: Scan, b: Band, t: CTables, mcus: seq<Zigzags>, n: nat)
    requires ValidProg(scan, b) && SaneTables(t) && AllValid(scan, mcus) && 0 < n <= |mcus| && scan.restart_interval > 0
    ensures var s, R := PStateAt(scan, b, t, mcus, n), scan.restart_interval;
            s.restarts_to_go == R - 1 - (n - 1) % R && s.next_restart_num == (n - 1) / R % 8
    decreases n
  {
    hide StepState, StepTokens, ReleaseTokens, BitsOf, Flushed, SaneTables, ValidProg, ValidZs;
    var R := scan.restart_interval;
    if n == 1 {
      DivUnique(0, R, 0, 0);
    } else {
      PRestartCounters(scan, b, t, mcus, n - 1);
      CountOn(n - 2, R);
    }
  }

  // There is a restart before MCU n just if n is a multiple of the interval.
  lemma PRestartsWhere(scan: Scan, b: Band, t: CTables, mcus: seq<Zigzags>, n: nat)
    requires ValidProg(scan, b) && SaneTables(t) && AllValid(scan, mcus) && 0 < n <= |mcus| && scan.restart_interval > 0
    ensures var s, R := PStateAt(scan, b, t, mcus, n), scan.restart_interval;
            if n % R == 0 then
              && PAfterRestart(scan, b, t, s).seg == Fresh(scan) && PAfterRestart(scan, b, t, s).bits == []
              && PAfterRestart(scan, b, t, s).closed
                   == s.closed + Flushed(Closing(scan, b, t, s)) + [0xFF, 0xD0 + (n / R - 1) % 8]
            else PAfterRestart(scan, b, t, s) == s
  {
    hide Flushed, Closing, SaneTables, ValidProg, PStateAt;
    PRestartCounters(scan, b, t, mcus, n);
    CountOn(n - 1, scan.restart_interval);
  }
}
