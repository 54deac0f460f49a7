// Decoding what the sequential encoder has written returns the same blocks.
module SeqRoundTrip {
  import opened Arith
  import opened Bits
  import opened HuffTable
  import opened DerivedTables
  import opened Tokens
  import opened BitSource
  import opened Blocks
  import opened SeqCodec
  import opened BitWriter
  import opened McuCodec
  import opened ByteStream
  import opened Markers
  import opened McuReading
  import opened SeqDecoder
  import opened CoefInput
  import opened Segments
  import SeqEncoder

  // ----- an MCU -----

  // All coefficients are wanted.
  function AllWanted(scan: Scan): (r: seq<Wanted>)
    ensures ValidWanted(scan, r) && forall i | 0 <= i < |r| :: r[i] == Wanted(true, true)
  {
    seq(|scan.membership|, _ => Wanted(true, true))
  }

  // The decoder's tables are those the encoder's were made from.
  ghost predicate Matching(scan: Scan, t: CTables, dt: DTables) {
    && SaneTables(t) && ValidTables(scan, dt)
    && forall c | 0 <= c < |scan.comps| ::
         && Encodes(dt.dc[scan.comps[c].dc_tbl_no], t.dc[scan.comps[c].dc_tbl_no])
         && Encodes(dt.ac[scan.comps[c].ac_tbl_no], t.ac[scan.comps[c].ac_tbl_no])
  }

  lemma ReadWantedAll(src: Src, dc: HuffTbl, ac: HuffTbl, last: int)
    requires WellTyped(dc) && Legal(dc.bits) && WellTyped(ac) && Legal(ac.bits)
    ensures ReadWanted(src, dc, ac, last, Wanted(true, true)) == ReadBlock(src, dc, ac, last)
  {
    hide Symbol, AfterSymbol, Received, Skip, ReadAc, Cast, ZeroBlock;
  }

  lemma TablesAt(scan: Scan, dt: DTables, mcu: Mcu, n: nat)
    requires ValidTables(scan, dt) && ValidMcu(scan, mcu) && n < |mcu|
    ensures n < |scan.membership| && scan.membership[n] < |scan.comps| && |mcu[n]| == DCTSIZE2
    ensures var c := scan.comps[scan.membership[n]];
            && c.dc_tbl_no < NUM_HUFF_TBLS && c.ac_tbl_no < NUM_HUFF_TBLS && |dt.dc| == |dt.ac| == NUM_HUFF_TBLS
            && var dc, ac := dt.dc[c.dc_tbl_no], dt.ac[c.ac_tbl_no];
            && WellTyped(dc) && Legal(dc.bits) && WellTyped(ac) && Legal(ac.bits)
  {
  }

  // Block n is what a decoder at mid reads, up to end.
  ghost predicate ReadsBack(scan: Scan, dt: DTables, last: seq<int>, mcu: Mcu, n: nat, mid: Src, end: Src)
    requires ValidScan(scan) && ValidTables(scan, dt) && ValidMcu(scan, mcu) && |last| == |scan.comps| && n < |mcu|
  {
    TablesAt(scan, dt, mcu, n);
    var c := scan.comps[scan.membership[n]];
    ReadWanted(mid, dt.dc[c.dc_tbl_no], dt.ac[c.ac_tbl_no], PredictionFor(scan, last, mcu, n), Wanted(true, true))
      == (Reorder(mcu[n]), mcu[n][0] as int, end)
  }

  // Block n of an MCU, with what is sent behind it.
  lemma BlockBack(scan: Scan, t: CTables, dt: DTables, last: seq<int>, mcu: Mcu, n: nat, rest: Bits)
    requires Matching(scan, t, dt) && ValidMcu(scan, mcu) && |last| == |scan.comps| && n < |mcu|
    requires InRange(Reorder(mcu[n]), PredictionFor(scan, last, mcu, n)) && AllSendable(t, TokensOf(scan, last, mcu, n))
    ensures ReadsBack(scan, dt, last, mcu, n, Src(TokensBits(t, TokensOf(scan, last, mcu, n)) + rest, false),
                      Src(rest, false))
  {
    hide Reorder, InRange, BlockTokens, TokensBits, Predictions, ReadWanted, ReadBlock, Legal, WellTyped, AllSendable;
    var c := scan.comps[scan.membership[n]];
    SeqEncoder.FirstOfZigzag(mcu[n]);
    ReadWantedAll(Src(TokensBits(t, TokensOf(scan, last, mcu, n)) + rest, false), dt.dc[c.dc_tbl_no],
                  dt.ac[c.ac_tbl_no],
                  PredictionFor(scan, last, mcu, n));
    BlockRoundTrip(t, dt.dc[c.dc_tbl_no], dt.ac[c.ac_tbl_no], c.dc_tbl_no, c.ac_tbl_no, Reorder(mcu[n]),
                   PredictionFor(scan, last, mcu, n), rest, false);
  }

  // The first n blocks of an MCU, with what is sent behind them.
  lemma {:induction false} BlocksBack(scan: Scan, t: CTables, dt: DTables, last: seq<int>, mcu: Mcu, n: nat, rest: Bits)
    requires Matching(scan, t, dt) && ValidMcu(scan, mcu) && |last| == |scan.comps| && n <= |mcu|
    requires McuInRange(scan, last, mcu, n) && AllSendable(t, McuTokens(scan, last, mcu, n))
    ensures ReadBlocks(scan, dt, AllWanted(scan), Src(TokensBits(t, McuTokens(scan, last, mcu, n)) + rest, false),
                       last, n)
         == McuRead(Reordered(mcu[..n]), Predictions(scan, last, mcu, n), Src(rest, false))
    decreases n
  {
    hide *;
    BlocksStart(scan, t, dt, last, mcu, rest);
    if n > 0 {
      var before, block := McuTokens(scan, last, mcu, n - 1), TokensOf(scan, last, mcu, n - 1);
      SeqEncoder.McuTokensNext(scan, last, mcu, n - 1);
      SourceSplit(t, before, block, rest);
      var src := Src(TokensBits(t, before + block) + rest, false);
      BlocksBack(scan, t, dt, last, mcu, n - 1, TokensBits(t, block) + rest);
      BlockBack(scan, t, dt, last, mcu, n - 1, rest);
      BlocksMore(scan, t, dt, last, mcu, n, src, Src(TokensBits(t, block) + rest, false), Src(rest, false));
    }
  }

  lemma BlocksStart(scan: Scan, t: CTables, dt: DTables, last: seq<int>, mcu: Mcu, rest: Bits)
    requires Matching(scan, t, dt) && ValidMcu(scan, mcu) && |last| == |scan.comps|
    ensures ValidScan(scan) && ValidTables(scan, dt) && SaneTables(t)
    ensures McuTokens(scan, last, mcu, 0) == [] && AllSendable(t, []) && TokensBits(t, []) + rest == rest
    ensures ReadBlocks(scan, dt, AllWanted(scan), Src(rest, false), last, 0)
        == McuRead(Reordered(mcu[..0]), last, Src(rest, false))
    ensures Predictions(scan, last, mcu, 0) == last && |mcu| == |scan.membership|
    ensures forall i | 0 <= i < |mcu| :: |mcu[i]| == DCTSIZE2
  {
    assert TokensBits(t, []) + rest == rest;
    assert Reordered(mcu[..0]) == [];
  }

  lemma SourceSplit(t: CTables, a: seq<Token>, b: seq<Token>, rest: Bits)
    requires SaneTables(t) && AllSendable(t, a + b)
    ensures AllSendable(t, a) && AllSendable(t, b)
    ensures TokensBits(t, a + b) + rest == TokensBits(t, a) + (TokensBits(t, b) + rest)
  {
    hide TokensBits;
    SendableParts(t, a, b);
    TokensBitsConcat(t, a, b);
    Assoc(TokensBits(t, a), TokensBits(t, b), rest);
  }

  // One more block read.
  lemma BlocksMore(scan: Scan, t: CTables, dt: DTables, last: seq<int>, mcu: Mcu, n: nat, src: Src, mid: Src, end: Src)
    requires Matching(scan, t, dt) && ValidMcu(scan, mcu) && |last| == |scan.comps| && 0 < n <= |mcu|
    requires ReadBlocks(scan, dt, AllWanted(scan), src, last, n - 1)
          == McuRead(Reordered(mcu[..n - 1]), Predictions(scan, last, mcu, n - 1), mid)
    requires ReadsBack(scan, dt, last, mcu, n - 1, mid, end)
    ensures ReadBlocks(scan, dt, AllWanted(scan), src, last, n)
         == McuRead(Reordered(mcu[..n]), Predictions(scan, last, mcu, n), end)
  {
    hide Reorder, Legal, WellTyped, ReadWanted, ReadBlocks;
    ReadBlocksAt(scan, dt, AllWanted(scan), src, last, n - 1, n);
    assert Reordered(mcu[..n]) == Reordered(mcu[..n - 1]) + [Reorder(mcu[n - 1])];
  }

  lemma SendableParts(t: CTables, a: seq<Token>, b: seq<Token>)
    requires SaneTables(t) && AllSendable(t, a + b)
    ensures AllSendable(t, a) && AllSendable(t, b)
  {
    assert forall i | 0 <= i < |a| :: a[i] == (a + b)[i];
    assert forall i | 0 <= i < |b| :: b[i] == (a + b)[|a| + i];
  }

  // ----- a whole scan -----

  // What is still to be written from MCU i on: the bits of the segment that is
  // open then, and the bytes of the segments behind it.
  datatype Remainder = Remainder(bits: Bits, tail: seq<Byte>)

  // The bits MCU i sends.
  function McuBits(scan: Scan, t: CTables, mcus: seq<Mcu>, i: nat): Bits
    requires i < |mcus| && AllEncodable(scan, t, mcus, i + 1)
  {
    TokensBits(t, McuTokens(scan, AfterRestart(scan, StateAt(scan, t, mcus, i)).last, mcus[i], |mcus[i]|))
  }

  function RestOf(scan: Scan, t: CTables, mcus: seq<Mcu>, i: nat): (r: Remainder)
    requires i <= |mcus| && AllEncodable(scan, t, mcus, |mcus|)
    ensures IsTail(r.tail)
    decreases |mcus| - i
  {
    hide McuTokens, TokensBits, Encodable, Predictions, NoPredictions, ValidMcu, SaneTables, IsTail;
    NoTail();
    if i == |mcus| then Remainder([], [])
    else
      AllEncodablePrefix(scan, t, mcus, i, |mcus|);
      AllEncodablePrefix(scan, t, mcus, i + 1, |mcus|);
      var s, x, r := StateAt(scan, t, mcus, i), McuBits(scan, t, mcus, i), RestOf(scan, t, mcus, i + 1);
      if scan.restart_interval != 0 && s.restarts_to_go == 0
      then Remainder([], RestartTail(s.next_restart_num, x + r.bits, r.tail))
      else Remainder(x + r.bits, r.tail)
  }

  // It completes what has been written to the bytes of the scan.
  lemma {:induction false} RestCompletes(scan: Scan, t: CTables, mcus: seq<Mcu>, i: nat)
    requires i <= |mcus| && AllEncodable(scan, t, mcus, |mcus|)
    ensures AllEncodable(scan, t, mcus, i)
    ensures var s, r := StateAt(scan, t, mcus, i), RestOf(scan, t, mcus, i);
            Finished(StateAt(scan, t, mcus, |mcus|)) == s.closed + (Flushed(s.bits + r.bits) + r.tail)
    decreases |mcus| - i
  {
    hide *;
    AllEncodablePrefix(scan, t, mcus, i, |mcus|);
    if i == |mcus| {
      RestNone(scan, t, mcus);
    } else {
      AllEncodablePrefix(scan, t, mcus, i + 1, |mcus|);
      RestCompletes(scan, t, mcus, i + 1);
      StateAfter(scan, t, mcus, i);
      RestStep(scan, t, mcus, i);
      CompletesStep(scan, StateAt(scan, t, mcus, i), StateAt(scan, t, mcus, i + 1), McuBits(scan, t, mcus, i),
                    RestOf(scan, t, mcus, i), RestOf(scan, t, mcus, i + 1));
    }
  }

  lemma RestNone(scan: Scan, t: CTables, mcus: seq<Mcu>)
    requires AllEncodable(scan, t, mcus, |mcus|)
    ensures var s, r := StateAt(scan, t, mcus, |mcus|), RestOf(scan, t, mcus, |mcus|);
            r == Remainder([], []) && Finished(s) == s.closed + (Flushed(s.bits + r.bits) + r.tail)
  {
    hide StateAt, AllEncodable, Flushed;
    var s := StateAt(scan, t, mcus, |mcus|);
    assert s.bits + [] == s.bits && Flushed(s.bits) + [] == Flushed(s.bits);
  }

  lemma RestStep(scan: Scan, t: CTables, mcus: seq<Mcu>, i: nat)
    requires i < |mcus| && AllEncodable(scan, t, mcus, |mcus|)
    ensures AllEncodable(scan, t, mcus, i) && AllEncodable(scan, t, mcus, i + 1)
    ensures StateAt(scan, t, mcus, i).next_restart_num < 8
    ensures var s, x, r := StateAt(scan, t, mcus, i), McuBits(scan, t, mcus, i), RestOf(scan, t, mcus, i + 1);
            RestOf(scan, t, mcus, i) ==
              if scan.restart_interval != 0 && s.restarts_to_go == 0
              then Remainder([], RestartTail(s.next_restart_num, x + r.bits, r.tail))
              else Remainder(x + r.bits, r.tail)
  {
    hide StateAt, AllEncodable, McuBits, RestartTail, IsTail, ValidMcu, ValidScan, SaneTables, Encodable;
    AllEncodablePrefix(scan, t, mcus, i, |mcus|);
    AllEncodablePrefix(scan, t, mcus, i + 1, |mcus|);
  }

  // Writing an MCU takes from the remainder what it adds to the bytes.
  lemma CompletesStep(scan: Scan, s: State, s': State, x: Bits, r: Remainder, r': Remainder)
    requires ValidState(scan, s)
    requires s'.closed == AfterRestart(scan, s).closed && s'.bits == AfterRestart(scan, s).bits + x
    requires r == if scan.restart_interval != 0 && s.restarts_to_go == 0
                  then Remainder([], RestartTail(s.next_restart_num, x + r'.bits, r'.tail))
                  else Remainder(x + r'.bits, r'.tail)
    ensures s.closed + (Flushed(s.bits + r.bits) + r.tail) == s'.closed + (Flushed(s'.bits + r'.bits) + r'.tail)
  {
    hide Flushed, NoPredictions;
    if scan.restart_interval != 0 && s.restarts_to_go == 0 {
      RestartBytes(s.closed, Flushed(s.bits), [0xFF, RST0 + s.next_restart_num], Flushed(x + r'.bits) + r'.tail);
      assert [] + x == x && s.bits + [] == s.bits;
    } else {
      Assoc(s.bits, x, r'.bits);
    }
  }

  lemma RestartBytes(a: seq<Byte>, b: seq<Byte>, m: seq<Byte>, c: seq<Byte>)
    ensures a + b + m + c == a + (b + (m + c))
  {
  }

  // The encoder's state after one more MCU.
  lemma StateAfter(scan: Scan, t: CTables, mcus: seq<Mcu>, i: nat)
    requires i < |mcus| && AllEncodable(scan, t, mcus, i + 1)
    ensures AllEncodable(scan, t, mcus, i) && ValidScan(scan) && SaneTables(t) && ValidMcu(scan, mcus[i])
    ensures Encodable(scan, t, StateAt(scan, t, mcus, i), mcus[i])
    ensures var s := StateAt(scan, t, mcus, i);
            var s1, s' := AfterRestart(scan, s), StateAt(scan, t, mcus, i + 1);
            && s' == AfterMcu(scan, t, s, mcus[i]) && |s1.last| == |scan.comps|
            && s'.last == Predictions(scan, s1.last, mcus[i], |mcus[i]|) && s'.next_restart_num == s1.next_restart_num
            && (scan.restart_interval != 0 ==> s'.restarts_to_go == s1.restarts_to_go - 1)
            && s'.closed == s1.closed && s'.bits == s1.bits + McuBits(scan, t, mcus, i)
            && McuInRange(scan, s1.last, mcus[i], |mcus[i]|)
            && AllSendable(t, McuTokens(scan, s1.last, mcus[i], |mcus[i]|))
  {
    hide McuTokens, TokensBits, Predictions, AllSendable, McuInRange, Flushed;
  }

  // ----- the decoder keeps in step -----

  // The bytes behind the open segment, up to the end of the data.
  function Behind(r: Remainder, code: Byte, more: seq<Byte>): (t: seq<Byte>)
    ensures |t| >= 2
  {
    r.tail + ([0xFF, code] + more)
  }

  // The decoder is where the encoder was, and r is what lies ahead of it.
  ghost predicate InStep(scan: Scan, data: seq<Byte>, d: DecState, last: seq<int>, togo: nat, rst: nat,
                         bits: Bits, behind: seq<Byte>) {
    && ValidDec(scan, data, d) && d.last == last && d.next_restart_num == rst
    && (scan.restart_interval != 0 ==> d.restarts_to_go == togo)
    && (exists pad: Bits :: d.src == Src(bits + pad, false))
    && Framed(data, d.end, behind)
  }

  // Everything the decoder needs for the next MCU has arrived.
  lemma InStepArrived(scan: Scan, data: seq<Byte>, d: DecState, last: seq<int>, togo: nat, rst: nat, bits: Bits,
                      behind: seq<Byte>)
    requires InStep(scan, data, d, last, togo, rst, bits, behind)
    ensures Arrived(d.end, |data|)
  {
  }

  // The blocks of an MCU are read back, and the decoder stays in step.
  lemma McuBack(scan: Scan, t: CTables, dt: DTables, data: seq<Byte>, d: DecState, last: seq<int>, togo: nat, rst: nat,
                mcu: Mcu, bits: Bits, behind: seq<Byte>)
    requires Matching(scan, t, dt) && ValidMcu(scan, mcu) && |last| == |scan.comps|
    requires McuInRange(scan, last, mcu, |mcu|) && AllSendable(t, McuTokens(scan, last, mcu, |mcu|))
    requires InStep(scan, data, d, last, togo, rst, TokensBits(t, McuTokens(scan, last, mcu, |mcu|)) + bits, behind)
    requires scan.restart_interval != 0 ==> togo > 0
    ensures ValidTables(scan, dt) && ValidScan(scan) && |d.last| == |scan.comps|
    ensures forall i | 0 <= i < |mcu| :: |mcu[i]| == DCTSIZE2
    ensures var o := ReadMcu(scan, dt, AllWanted(scan), d);
            && o.Outcome? && o.blocks == Reordered(mcu)
            && InStep(scan, data, o.state, Predictions(scan, last, mcu, |mcu|),
                      if scan.restart_interval != 0 then togo - 1 else togo, rst, bits, behind)
  {
    hide ReadBlocks, McuTokens, TokensBits, AllSendable, McuInRange, Reorder, Predictions, ValidTables;
    BlocksStart(scan, t, dt, last, mcu, []);
    var x := TokensBits(t, McuTokens(scan, last, mcu, |mcu|));
    var pad: Bits :| d.src == Src(x + bits + pad, false);
    assert x + bits + pad == x + (bits + pad);
    BlocksBack(scan, t, dt, last, mcu, |mcu|, bits + pad);
    assert mcu[..|mcu|] == mcu;
  }

  // At a restart marker a new segment begins: the decoder gets in step with it.
  lemma RestartBack(scan: Scan, data: seq<Byte>, d: DecState, last: seq<int>, togo: nat, rst: nat,
                    s: Bits, r: Remainder, code: Byte, more: seq<Byte>)
    requires rst < 8 && IsTail(r.tail) && 0 < code < 0xFF
    requires InStep(scan, data, d, last, togo, rst, [], RestartTail(rst, s, r.tail) + ([0xFF, code] + more))
    ensures d.end.End? && d.end.next <= |data|
    ensures AfterEnd(data, d.end, rst) == At(0, d.end.next)
    ensures InStep(scan, data, AtPlace(scan, data, d, 0, d.end.next), NoPredictions(scan), scan.restart_interval,
                   (rst + 1) % 8,
                   s, Behind(r, code, more))
  {
    hide Flushed, SegmentBits, SegmentEnd, IsTail, NoPredictions, RestartTail, AfterEnd, Framed;
    var pad := RestartFramed(data, d.end, rst, s, r.tail, code, more);
    FramedFits(data, SegmentEnd(data, d.end.next), Behind(r, code, more));
    assert AtPlace(scan, data, d, 0, d.end.next).src == Src(s + pad, false);
  }

  lemma FramedFits(data: seq<Byte>, end: End, behind: seq<Byte>)
    requires Framed(data, end, behind)
    ensures end.End? && end.next <= |data|
  {
  }

  // Where the encoder is before MCU i, and what lies ahead.
  ghost predicate InStepAt(scan: Scan, t: CTables, mcus: seq<Mcu>, i: nat, data: seq<Byte>, d: DecState, code: Byte,
                           more: seq<Byte>)
  {
    && i <= |mcus| && AllEncodable(scan, t, mcus, |mcus|) && AllEncodable(scan, t, mcus, i)
    && var s, r := StateAt(scan, t, mcus, i), RestOf(scan, t, mcus, i);
    InStep(scan, data, d, s.last, s.restarts_to_go, s.next_restart_num, r.bits, Behind(r, code, more))
  }

  // In state d the decoder, with everything arrived, returns mcu and goes on in state d'.
  ghost predicate Decoded(scan: Scan, dt: DTables, data: seq<Byte>, d: DecState, mcu: Mcu, d': DecState) {
    && ValidTables(scan, dt) && ValidDec(scan, data, d) && Live(scan, data, d, |data|)
    && (forall k | 0 <= k < |mcu| :: |mcu[k]| == DCTSIZE2)
    && DecodeOne(scan, dt, AllWanted(scan), data, d) == Outcome(Reordered(mcu), d')
  }

  // MCU i is decoded, and the decoder is in step for the next one.
  lemma StepBack(scan: Scan, t: CTables, dt: DTables, mcus: seq<Mcu>, i: nat, data: seq<Byte>, d: DecState, code: Byte,
                 more: seq<Byte>)
    returns (d': DecState)
    requires i < |mcus| && Matching(scan, t, dt) && 0 < code < 0xFF && InStepAt(scan, t, mcus, i, data, d, code, more)
    ensures Decoded(scan, dt, data, d, mcus[i], d') && InStepAt(scan, t, mcus, i + 1, data, d', code, more)
  {
    hide *;
    InStepAtIs(scan, t, mcus, i, data, d, code, more);
    RestStep(scan, t, mcus, i);
    StateAfter(scan, t, mcus, i);
    RestIsTail(scan, t, mcus, i + 1);
    var s, r' := StateAt(scan, t, mcus, i), RestOf(scan, t, mcus, i + 1);
    var s1, x, b := AfterRestart(scan, s), McuBits(scan, t, mcus, i), Behind(r', code, more);
    InStepParts(scan, data, d, s.last, s.restarts_to_go, s.next_restart_num, RestOf(scan, t, mcus, i).bits,
                Behind(RestOf(scan, t, mcus, i), code, more));
    McuBitsAre(scan, t, mcus, i);
    var d1 := d;
    if scan.restart_interval != 0 && s.restarts_to_go == 0 {
      RestartBack(scan, data, d, s.last, s.restarts_to_go, s.next_restart_num, x + r'.bits, r', code, more);
      d1 := AtPlace(scan, data, d, 0, d.end.next);
    }
    InStepArrived(scan, data, d1, s1.last, s1.restarts_to_go, s1.next_restart_num, x + r'.bits, b);
    McuBack(scan, t, dt, data, d1, s1.last, s1.restarts_to_go, s1.next_restart_num, mcus[i], r'.bits, b);
    d' := ReadMcu(scan, dt, AllWanted(scan), d1).state;
    DecodeOneIs(scan, dt, data, d, d1, mcus[i], d');
    InStepAtIs(scan, t, mcus, i + 1, data, d', code, more);
  }

  lemma RestIsTail(scan: Scan, t: CTables, mcus: seq<Mcu>, i: nat)
    requires i <= |mcus| && AllEncodable(scan, t, mcus, |mcus|)
    ensures IsTail(RestOf(scan, t, mcus, i).tail)
  {
  }

  lemma InStepAtIs(scan: Scan, t: CTables, mcus: seq<Mcu>, i: nat, data: seq<Byte>, d: DecState, code: Byte,
                   more: seq<Byte>)
    ensures InStepAt(scan, t, mcus, i, data, d, code, more) <==>
            && i <= |mcus| && AllEncodable(scan, t, mcus, |mcus|) && AllEncodable(scan, t, mcus, i)
            && InStep(scan, data, d, StateAt(scan, t, mcus, i).last, StateAt(scan, t, mcus, i).restarts_to_go,
                      StateAt(scan, t, mcus, i).next_restart_num, RestOf(scan, t, mcus, i).bits,
                      Behind(RestOf(scan, t, mcus, i), code, more))
    ensures forall tail, bits :: Behind(Remainder(bits, tail), code, more) == tail + ([0xFF, code] + more)
  {
    hide StateAt, RestOf, AllEncodable, InStep;
  }

  lemma InStepParts(scan: Scan, data: seq<Byte>, d: DecState, last: seq<int>, togo: nat, rst: nat, bits: Bits,
                    behind: seq<Byte>)
    requires InStep(scan, data, d, last, togo, rst, bits, behind)
    ensures ValidDec(scan, data, d) && d.end.End? && d.end.next <= |data| && d.next_restart_num == rst < 8
    ensures RestartDue(scan, d) <==> scan.restart_interval != 0 && togo == 0
  {
  }

  lemma McuBitsAre(scan: Scan, t: CTables, mcus: seq<Mcu>, i: nat)
    requires i < |mcus| && AllEncodable(scan, t, mcus, i + 1)
    ensures var s := StateAt(scan, t, mcus, i);
            var s1 := AfterRestart(scan, s);
            && McuBits(scan, t, mcus, i) == TokensBits(t, McuTokens(scan, s1.last, mcus[i], |mcus[i]|))
            && (if scan.restart_interval != 0 && s.restarts_to_go == 0 then
                  s1.last == NoPredictions(scan) && s1.restarts_to_go == scan.restart_interval
                  && s1.next_restart_num == (s.next_restart_num + 1) % 8
                else s1 == s)
            && (scan.restart_interval != 0 ==> s1.restarts_to_go > 0)
    ensures var s, s' := StateAt(scan, t, mcus, i), StateAt(scan, t, mcus, i + 1);
            scan.restart_interval == 0 ==> s'.restarts_to_go == s.restarts_to_go
  {
    hide McuTokens, TokensBits, AllSendable, McuInRange, Encodable, Flushed, Predictions, NoPredictions;
  }

  lemma DecodeOneIs(scan: Scan, dt: DTables, data: seq<Byte>, d: DecState, d1: DecState, mcu: Mcu, d': DecState)
    requires ValidTables(scan, dt) && ValidDec(scan, data, d) && |d1.last| == |scan.comps| && Arrived(d1.end, |data|)
    requires if RestartDue(scan, d)
             then d.end.End? && AfterEnd(data, d.end, d.next_restart_num) == At(0, d.end.next)
                  && d1 == AtPlace(scan, data, d, 0, d.end.next)
             else d1 == d
    requires forall k | 0 <= k < |mcu| :: |mcu[k]| == DCTSIZE2
    requires ReadMcu(scan, dt, AllWanted(scan), d1) == Outcome(Reordered(mcu), d')
    ensures Decoded(scan, dt, data, d, mcu, d')
  {
    hide ReadMcu, ValidTables, SegmentBits, SegmentEnd, Reordered;
  }

  // The decoder's state at the start of a scan.
  function StartAt(scan: Scan, data: seq<Byte>, p: nat): DecState
    requires p <= |data|
  {
    DecState(Src(SegmentBits(data, p), false), SegmentEnd(data, p), NoPredictions(scan), scan.restart_interval, 0)
  }

  lemma StartInStep(scan: Scan, data: seq<Byte>, p: nat, r: Remainder, code: Byte, more: seq<Byte>)
    requires IsTail(r.tail) && 0 < code < 0xFF && p <= |data| && data[p..] == Flushed(r.bits) + Behind(r, code, more)
    ensures InStep(scan, data, StartAt(scan, data, p), NoPredictions(scan), scan.restart_interval, 0, r.bits,
                   Behind(r, code, more))
  {
    hide Flushed, SegmentBits, SegmentEnd, IsTail, Framed;
    var pad := StartFramed(data, p, r.bits, r.tail, code, more);
    FramedFits(data, SegmentEnd(data, p), Behind(r, code, more));
    assert StartAt(scan, data, p).src == Src(r.bits + pad, false);
  }

  lemma ScanBytes(scan: Scan, t: CTables, mcus: seq<Mcu>, front: seq<Byte>, code: Byte, more: seq<Byte>,
                  data: seq<Byte>)
    requires AllEncodable(scan, t, mcus, |mcus|) && 0 < code < 0xFF
    requires data == front + (Finished(StateAt(scan, t, mcus, |mcus|)) + ([0xFF, code] + more))
    ensures InStepAt(scan, t, mcus, 0, data, StartAt(scan, data, |front|), code, more)
  {
    hide *;
    RestCompletes(scan, t, mcus, 0);
    RestIsTail(scan, t, mcus, 0);
    StateZero(scan, t, mcus);
    var r := RestOf(scan, t, mcus, 0);
    var e := Finished(StateAt(scan, t, mcus, |mcus|));
    assert data[|front|..] == e + ([0xFF, code] + more);
    assert [] + r.bits == r.bits && [] + (Flushed(r.bits) + r.tail) == Flushed(r.bits) + r.tail;
    BehindIs(r, code, more);
    Assoc(Flushed(r.bits), r.tail, [0xFF, code] + more);
    StartInStep(scan, data, |front|, r, code, more);
    InStepAtIs(scan, t, mcus, 0, data, StartAt(scan, data, |front|), code, more);
  }

  lemma BehindIs(r: Remainder, code: Byte, more: seq<Byte>)
    ensures Behind(r, code, more) == r.tail + ([0xFF, code] + more)
  {
  }

  lemma StateZero(scan: Scan, t: CTables, mcus: seq<Mcu>)
    requires AllEncodable(scan, t, mcus, 0)
    ensures StateAt(scan, t, mcus, 0) == State(NoPredictions(scan), scan.restart_interval, 0, [], [])
  {
  }

  // The bytes of a scan, wherever they stand and whatever marker follows them,
  // decode to the blocks that were encoded; and once all bytes have arrived,
  // the decoder never has to be suspended.
  lemma {:induction false} ScanRoundTrip(scan: Scan, t: CTables, dt: DTables, mcus: seq<Mcu>, n: nat,
                                         front: seq<Byte>, code: Byte, more: seq<Byte>, data: seq<Byte>)
    requires AllEncodable(scan, t, mcus, |mcus|) && Matching(scan, t, dt) && n <= |mcus| && 0 < code < 0xFF
    requires data == front + (Finished(StateAt(scan, t, mcus, |mcus|)) + ([0xFF, code] + more))
    ensures ValidTables(scan, dt) && ValidDec(scan, data, StartAt(scan, data, |front|))
    ensures forall i, k | 0 <= i < n && 0 <= k < |mcus[i]| :: |mcus[i][k]| == DCTSIZE2
    ensures var run := RunOf(scan, dt, AllWanted(scan), data, StartAt(scan, data, |front|), n);
            && run.Run? && InStepAt(scan, t, mcus, n, data, run.state, code, more)
            && (forall i | 0 <= i < n :: run.mcus[i] == Reordered(mcus[i]))
            && (n < |mcus| ==> Live(scan, data, run.state, |data|))
    decreases n
  {
    hide AllEncodable, StateAt, Finished, InStepAt, StartAt, ValidTables, ValidDec, DecodeOne, Live, Reordered,
      Matching, RunOf;
    ScanBytes(scan, t, mcus, front, code, more, data);
    var start := StartAt(scan, data, |front|);
    StartValid(scan, t, dt, mcus, data, start, code, more);
    RunZero(scan, dt, data, start);
    if n > 0 {
      ScanRoundTrip(scan, t, dt, mcus, n - 1, front, code, more, data);
      var run := RunOf(scan, dt, AllWanted(scan), data, start, n - 1);
      var d' := StepBack(scan, t, dt, mcus, n - 1, data, run.state, code, more);
      RunNext(scan, dt, AllWanted(scan), data, start, n - 1);
    }
    if n < |mcus| {
      var d' := StepBack(scan, t, dt, mcus, n, data, RunOf(scan, dt, AllWanted(scan), data, start, n).state, code,
                         more);
    }
  }

  lemma RunZero(scan: Scan, dt: DTables, data: seq<Byte>, s: DecState)
    requires ValidTables(scan, dt) && ValidDec(scan, data, s)
    ensures RunOf(scan, dt, AllWanted(scan), data, s, 0) == Run(s, [])
  {
  }

  lemma StartValid(scan: Scan, t: CTables, dt: DTables, mcus: seq<Mcu>, data: seq<Byte>, d: DecState, code: Byte,
                   more: seq<Byte>)
    requires Matching(scan, t, dt) && InStepAt(scan, t, mcus, 0, data, d, code, more)
    ensures ValidTables(scan, dt) && ValidDec(scan, data, d)
  {
    hide AllEncodable, StateAt, RestOf;
  }
}
