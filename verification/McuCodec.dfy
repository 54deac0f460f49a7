// Sequential Huffman coding of a whole scan: MCUs, DC predictions and restart
// intervals, as the encoder's passes go through them (jchuff.c).
module McuCodec {
  import opened Bits
  import opened Tokens
  import opened Blocks
  import opened SeqCodec
  import opened BitWriter

  const RST0: Byte := 0xD0

  // The tables of a component of the scan.
  datatype Component = Component(dc_tbl_no: nat, ac_tbl_no: nat)

  // A scan: its components, the component of each block of an MCU, and the
  // number of MCUs between restart markers (0 for none).
  datatype Scan = Scan(comps: seq<Component>, membership: seq<nat>, restart_interval: nat)

  predicate ValidScan(scan: Scan) {
    && (forall c | 0 <= c < |scan.comps| ::
          scan.comps[c].dc_tbl_no < NUM_HUFF_TBLS && scan.comps[c].ac_tbl_no < NUM_HUFF_TBLS)
    && forall i | 0 <= i < |scan.membership| :: scan.membership[i] < |scan.comps|
  }

  // The blocks of an MCU, in natural order.
  type Mcu = seq<Block>

  predicate ValidMcu(scan: Scan, mcu: Mcu) {
    |mcu| == |scan.membership| && forall i | 0 <= i < |mcu| :: |mcu[i]| == DCTSIZE2
  }

  function NoPredictions(scan: Scan): (last: seq<int>)
    ensures |last| == |scan.comps| && forall c | 0 <= c < |last| :: last[c] == 0
  {
    seq(|scan.comps|, _ => 0)
  }

  // The DC predictions after the first n blocks.
  function Predictions(scan: Scan, last: seq<int>, mcu: Mcu, n: nat): (r: seq<int>)
    requires ValidScan(scan) && ValidMcu(scan, mcu) && |last| == |scan.comps| && n <= |mcu|
    ensures |r| == |scan.comps|
  {
    if n == 0 then last
    else Predictions(scan, last, mcu, n - 1)[scan.membership[n - 1] := mcu[n - 1][0] as int]
  }

  function PredictionFor(scan: Scan, last: seq<int>, mcu: Mcu, n: nat): int
    requires ValidScan(scan) && ValidMcu(scan, mcu) && |last| == |scan.comps| && n < |mcu|
  {
    Predictions(scan, last, mcu, n)[scan.membership[n]]
  }

  // What block n sends.
  function TokensOf(scan: Scan, last: seq<int>, mcu: Mcu, n: nat): seq<Token>
    requires ValidScan(scan) && ValidMcu(scan, mcu) && |last| == |scan.comps| && n < |mcu|
  {
    var c := scan.comps[scan.membership[n]];
    BlockTokens(Reorder(mcu[n]), PredictionFor(scan, last, mcu, n), c.dc_tbl_no, c.ac_tbl_no)
  }

  // What the first n blocks of an MCU send.
  function McuTokens(scan: Scan, last: seq<int>, mcu: Mcu, n: nat): seq<Token>
    requires ValidScan(scan) && ValidMcu(scan, mcu) && |last| == |scan.comps| && n <= |mcu|
  {
    if n == 0 then [] else McuTokens(scan, last, mcu, n - 1) + TokensOf(scan, last, mcu, n - 1)
  }

  // All coefficients of the first n blocks are in range.
  predicate McuInRange(scan: Scan, last: seq<int>, mcu: Mcu, n: nat)
    requires ValidScan(scan) && ValidMcu(scan, mcu) && |last| == |scan.comps| && n <= |mcu|
  {
    forall i: nat | i < n :: InRange(Reorder(mcu[i]), PredictionFor(scan, last, mcu, i))
  }

  // ----- the state between MCUs -----

  // closed: the bytes of the finished segments; bits: those of the open one.
  datatype State = State(last: seq<int>, restarts_to_go: nat, next_restart_num: nat, closed: seq<Byte>, bits: Bits)

  function Start(scan: Scan): State {
    State(NoPredictions(scan), scan.restart_interval, 0, [], [])
  }

  predicate ValidState(scan: Scan, s: State) {
    |s.last| == |scan.comps| && s.next_restart_num < 8
    && (scan.restart_interval == 0 || s.restarts_to_go <= scan.restart_interval)
  }

  // The state in which an MCU's blocks are sent: a restart comes first if it is due.
  function AfterRestart(scan: Scan, s: State): (r: State)
    requires ValidState(scan, s)
    ensures ValidState(scan, r)
  {
    if scan.restart_interval != 0 && s.restarts_to_go == 0 then
      State(NoPredictions(scan), scan.restart_interval, (s.next_restart_num + 1) % 8,
            s.closed + Flushed(s.bits) + [0xFF, RST0 + s.next_restart_num], [])
    else s
  }

  predicate Encodable(scan: Scan, t: CTables, s: State, mcu: Mcu)
    requires ValidScan(scan) && SaneTables(t) && ValidState(scan, s) && ValidMcu(scan, mcu)
  {
    var last := AfterRestart(scan, s).last;
    McuInRange(scan, last, mcu, |mcu|) && AllSendable(t, McuTokens(scan, last, mcu, |mcu|))
  }

  function AfterMcu(scan: Scan, t: CTables, s: State, mcu: Mcu): (r: State)
    requires ValidScan(scan) && SaneTables(t) && ValidState(scan, s) && ValidMcu(scan, mcu)
    requires Encodable(scan, t, s, mcu)
    ensures ValidState(scan, r)
  {
    var s1 := AfterRestart(scan, s);
    State(Predictions(scan, s1.last, mcu, |mcu|),
          if scan.restart_interval != 0 then s1.restarts_to_go - 1 else s1.restarts_to_go,
          s1.next_restart_num, s1.closed,
          s1.bits + TokensBits(t, McuTokens(scan, s1.last, mcu, |mcu|)))
  }

  // The bytes written so far; the last few bits may still wait for their byte.
  function Written(s: State): seq<Byte> {
    s.closed + Emitted(s.bits)
  }

  // The bytes of the scan if it ends here.
  function Finished(s: State): seq<Byte> {
    s.closed + Flushed(s.bits)
  }

  // ----- a whole scan -----

  // The first n MCUs can all be encoded.
  predicate AllEncodable(scan: Scan, t: CTables, mcus: seq<Mcu>, n: nat)
    requires n <= |mcus|
    decreases n, 0
  {
    && ValidScan(scan) && SaneTables(t) && (forall i | 0 <= i < n :: ValidMcu(scan, mcus[i]))
    && (n > 0 ==> AllEncodable(scan, t, mcus, n - 1) && Encodable(scan, t, StateAt(scan, t, mcus, n - 1), mcus[n - 1]))
  }

  // The state after the first n MCUs.
  function StateAt(scan: Scan, t: CTables, mcus: seq<Mcu>, n: nat): (s: State)
    requires n <= |mcus| && AllEncodable(scan, t, mcus, n)
    ensures ValidState(scan, s)
    decreases n, 1
  {
    if n == 0 then Start(scan) else AfterMcu(scan, t, StateAt(scan, t, mcus, n - 1), mcus[n - 1])
  }

  lemma {:induction false} AllEncodablePrefix(scan: Scan, t: CTables, mcus: seq<Mcu>, n: nat, m: nat)
    requires n <= m <= |mcus| && AllEncodable(scan, t, mcus, m)
    ensures AllEncodable(scan, t, mcus, n)
    ensures n < m ==> ValidMcu(scan, mcus[n]) && Encodable(scan, t, StateAt(scan, t, mcus, n), mcus[n])
    decreases m - n
  {
    hide Encodable, StateAt, ValidScan, SaneTables, ValidMcu;
    if n < m {
      AllEncodablePrefix(scan, t, mcus, n + 1, m);
    }
  }

  // ----- predictions and restarts, counted from the start -----

  // The prediction for a component is the DC value of its last block, or what it
  // was before the MCU.
  lemma {:induction false} PredictionIs(scan: Scan, last: seq<int>, mcu: Mcu, n: nat, c: nat)
    requires ValidScan(scan) && ValidMcu(scan, mcu) && |last| == |scan.comps| && n <= |mcu| && c < |scan.comps|
    ensures (forall i | 0 <= i < n :: scan.membership[i] != c) ==> Predictions(scan, last, mcu, n)[c] == last[c]
    ensures forall i: nat | i < n && scan.membership[i] == c && (forall m | i < m < n :: scan.membership[m] != c) ::
      Predictions(scan, last, mcu, n)[c] == mcu[i][0]
    decreases n
  {
    if n > 0 {
      PredictionIs(scan, last, mcu, n - 1, c);
    }
  }

  // Counting one on.
  lemma CountOn(x: nat, R: nat)
    requires R > 0
    ensures (x + 1) % R == (if x % R == R - 1 then 0 else x % R + 1)
    ensures (x + 1) / R == x / R + (if x % R == R - 1 then 1 else 0)
  {
    var q, r := x / R, x % R;
    assert x == q * R + r && (q + 1) * R == q * R + R;
    if r == R - 1 {
      DivUnique(x + 1, R, q + 1, 0);
    } else {
      DivUnique(x + 1, R, q, r + 1);
    }
  }

  lemma NextCounters(x: nat, R: nat, togo: int, num: nat)
    requires R > 0 && togo == R - 1 - x % R && num == x / R % 8
    ensures R - 1 - (x + 1) % R == (if togo == 0 then R - 1 else togo - 1)
    ensures (x + 1) / R % 8 == if togo == 0 then (num + 1) % 8 else num
  {
    CountOn(x, R);
    CountOn(x / R, 8);
  }

  lemma FirstCounters(scan: Scan, t: CTables, mcus: seq<Mcu>)
    requires AllEncodable(scan, t, mcus, 0)
    ensures StateAt(scan, t, mcus, 0) == Start(scan)
  {
  }

  lemma CountersNext(scan: Scan, t: CTables, mcus: seq<Mcu>, n: nat)
    requires n < |mcus| && AllEncodable(scan, t, mcus, n + 1) && scan.restart_interval > 0
    ensures var s, s', R := StateAt(scan, t, mcus, n), StateAt(scan, t, mcus, n + 1), scan.restart_interval;
            && s'.restarts_to_go == (if s.restarts_to_go == 0 then R - 1 else s.restarts_to_go - 1)
            && s'.next_restart_num == if s.restarts_to_go == 0 then (s.next_restart_num + 1) % 8 else s.next_restart_num
  {
    hide Encodable, Predictions, McuTokens, ValidMcu, TokensBits;
  }

  // After n MCUs the counters are those of a restart after every R MCUs, numbered
  // from 0 to 7 over and over.
  lemma {:induction false} RestartCounters(scan: Scan, t: CTables, mcus: seq<Mcu>, n: nat)
    requires 0 < n <= |mcus| && AllEncodable(scan, t, mcus, n) && scan.restart_interval > 0
    ensures var s, R := StateAt(scan, t, mcus, n), scan.restart_interval;
            s.restarts_to_go == R - 1 - (n - 1) % R && s.next_restart_num == (n - 1) / R % 8
    decreases n
  {
    hide Encodable, Predictions, McuTokens, ValidMcu, StateAt, AfterMcu;
    var R := scan.restart_interval;
    CountersNext(scan, t, mcus, n - 1);
    if n == 1 {
      FirstCounters(scan, t, mcus);
      DivUnique(0, R, 0, 0);
    } else {
      RestartCounters(scan, t, mcus, n - 1);
      var s := StateAt(scan, t, mcus, n - 1);
      NextCounters(n - 2, R, s.restarts_to_go, s.next_restart_num);
    }
  }

  // So there is a restart before MCU n just if n is a multiple of R; the marker
  // tells which one it is, and the predictions start anew.
  lemma RestartsWhere(scan: Scan, t: CTables, mcus: seq<Mcu>, n: nat)
    requires 0 < n <= |mcus| && AllEncodable(scan, t, mcus, n) && scan.restart_interval > 0
    ensures var s, R := StateAt(scan, t, mcus, n), scan.restart_interval;
            if n % R == 0 then
              && AfterRestart(scan, s).last == NoPredictions(scan) && AfterRestart(scan, s).bits == []
              && AfterRestart(scan, s).closed == s.closed + Flushed(s.bits) + [0xFF, 0xD0 + (n / R - 1) % 8]
            else AfterRestart(scan, s) == s
  {
    hide Encodable, Predictions, McuTokens, ValidMcu, StateAt;
    RestartCounters(scan, t, mcus, n);
    CountOn(n - 1, scan.restart_interval);
  }
}
