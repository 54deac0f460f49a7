// A pass of the progressive encoder over a scan (start_pass_phuff, emit_restart,
// the encode_mcu routines and finish_pass_phuff of jcphuff.c). The same code
// counts symbols in a statistics pass and writes bytes in an output pass.
module ProgPass {
  import opened Bits
  import opened Tokens
  import opened Blocks
  import opened BitWriter
  import opened TokenWriter
  import opened McuCodec
  import opened ProgCodec
  import opened ProgBands
  import opened ProgScan
  import opened ProgStream
  import opened ProgEmitter
  import opened ProgEncoder

  // ----- what a pass goes through, whatever it does with the tokens -----

  datatype Passed = Passed(seg: SegState, restarts_to_go: nat, toks: seq<Token>)

  predicate ValidPassed(scan: Scan, g: Passed) {
    |g.seg.last| == |scan.comps| && g.restarts_to_go <= scan.restart_interval
  }

  function PassStart(scan: Scan): Passed {
    Passed(Fresh(scan), scan.restart_interval, [])
  }

  // Held EOBs go out before a restart.
  function AtDue(scan: Scan, b: Band, g: Passed): (r: Passed)
    requires ValidProg(scan, b) && ValidPassed(scan, g)
    ensures ValidPassed(scan, r)
  {
    if scan.restart_interval != 0 && g.restarts_to_go == 0
    then Passed(Fresh(scan), scan.restart_interval, g.toks + ReleaseTokens(scan, b, g.seg)) else g
  }

  function PassMcu(scan: Scan, b: Band, g: Passed, zs: Zigzags): (r: Passed)
    requires ValidProg(scan, b) && ValidPassed(scan, g) && ValidZs(scan, zs)
    ensures ValidPassed(scan, r)
  {
    var g1 := AtDue(scan, b, g);
    Passed(StepState(scan, b, g1.seg, zs),
           if scan.restart_interval != 0 then g1.restarts_to_go - 1 else g1.restarts_to_go,
           g1.toks + StepTokens(scan, b, g1.seg, zs))
  }

  function PassedAt(scan: Scan, b: Band, mcus: seq<Zigzags>, n: nat): (r: Passed)
    requires ValidProg(scan, b) && AllValid(scan, mcus) && n <= |mcus|
    ensures ValidPassed(scan, r)
  {
    if n == 0 then PassStart(scan)
    else
      assert ValidZs(scan, mcus[n - 1]);
      PassMcu(scan, b, PassedAt(scan, b, mcus, n - 1), mcus[n - 1])
  }

  predicate McuFits(scan: Scan, b: Band, g: Passed, zs: Zigzags)
    requires ValidProg(scan, b) && ValidPassed(scan, g) && ValidZs(scan, zs)
  {
    StepInRange(scan, b, AtDue(scan, b, g).seg, zs)
  }

  // The coefficients of the first n MCUs are in range.
  predicate PassInRange(scan: Scan, b: Band, mcus: seq<Zigzags>, n: nat)
    requires ValidProg(scan, b) && AllValid(scan, mcus) && n <= |mcus|
  {
    forall i: nat | i < n :: ValidZs(scan, mcus[i]) && McuFits(scan, b, PassedAt(scan, b, mcus, i), mcus[i])
  }

  // All that a whole pass sends.
  function PassTokens(scan: Scan, b: Band, mcus: seq<Zigzags>): seq<Token>
    requires ValidProg(scan, b) && AllValid(scan, mcus)
  {
    var g := PassedAt(scan, b, mcus, |mcus|);
    g.toks + ReleaseTokens(scan, b, g.seg)
  }

  // The statistics pass and the output pass go through the same states.
  ghost predicate Alike(scan: Scan, b: Band, t: CTables, mcus: seq<Zigzags>, n: nat)
    requires ValidProg(scan, b) && AllValid(scan, mcus) && SaneTables(t) && n <= |mcus|
  {
    var s, g := PStateAt(scan, b, t, mcus, n), PassedAt(scan, b, mcus, n);
    s.seg == g.seg && s.restarts_to_go == g.restarts_to_go
  }

  lemma SendableConcat(t: CTables, a: seq<Token>, b: seq<Token>)
    requires SaneTables(t)
    ensures AllSendable(t, a + b) <==> AllSendable(t, a) && AllSendable(t, b)
  {
    assert forall i | 0 <= i < |a| :: (a + b)[i] == a[i];
    assert forall i | 0 <= i < |b| :: (a + b)[|a| + i] == b[i];
  }

  lemma SendableNone(t: CTables)
    requires SaneTables(t)
    ensures AllSendable(t, [])
  {
  }

  // The first n MCUs can be encoded.
  ghost predicate EncodableTo(scan: Scan, b: Band, t: CTables, mcus: seq<Zigzags>, n: nat)
    requires ValidProg(scan, b) && AllValid(scan, mcus) && SaneTables(t) && n <= |mcus|
  {
    forall i: nat | i < n :: ValidZs(scan, mcus[i]) && PEncodable(scan, b, t, PStateAt(scan, b, t, mcus, i), mcus[i])
  }

  lemma AlikeStep(scan: Scan, b: Band, t: CTables, s: PState, g: Passed, zs: Zigzags)
    requires ValidProg(scan, b) && SaneTables(t) && ValidZs(scan, zs) && ValidPState(scan, s) && ValidPassed(scan, g)
    requires s.seg == g.seg && s.restarts_to_go == g.restarts_to_go
    ensures PAfterMcu(scan, b, t, s, zs).seg == PassMcu(scan, b, g, zs).seg
    ensures PAfterMcu(scan, b, t, s, zs).restarts_to_go == PassMcu(scan, b, g, zs).restarts_to_go
    ensures PEncodable(scan, b, t, s, zs) && AllSendable(t, g.toks) <==>
      McuFits(scan, b, g, zs) && AllSendable(t, PassMcu(scan, b, g, zs).toks)
  {
    hide ValidProg, SaneTables, AllSendable, ReleaseTokens, StepTokens, StepState, StepInRange, Flushed, BitsOf,
      Closing, NoPredictions, ValidZs;
    var g1 := AtDue(scan, b, g);
    SendableConcat(t, g.toks, ReleaseTokens(scan, b, g.seg));
    SendableConcat(t, g1.toks, StepTokens(scan, b, g1.seg, zs));
  }

  lemma {:induction false} PassesAgree(scan: Scan, b: Band, t: CTables, mcus: seq<Zigzags>, n: nat)
    requires ValidProg(scan, b) && AllValid(scan, mcus) && SaneTables(t) && n <= |mcus|
    ensures Alike(scan, b, t, mcus, n)
    ensures EncodableTo(scan, b, t, mcus, n) <==>
      PassInRange(scan, b, mcus, n) && AllSendable(t, PassedAt(scan, b, mcus, n).toks)
  {
    hide *;
    if n > 0 {
      PassesAgree(scan, b, t, mcus, n - 1);
      PassNext(scan, b, t, mcus, n - 1);
      AlikeStep(scan, b, t, PStateAt(scan, b, t, mcus, n - 1), PassedAt(scan, b, mcus, n - 1), mcus[n - 1]);
    } else {
      PassFirst(scan, b, t, mcus);
    }
  }

  lemma PassFirst(scan: Scan, b: Band, t: CTables, mcus: seq<Zigzags>)
    requires ValidProg(scan, b) && AllValid(scan, mcus) && SaneTables(t)
    ensures Alike(scan, b, t, mcus, 0) && EncodableTo(scan, b, t, mcus, 0) && PassInRange(scan, b, mcus, 0)
    ensures AllSendable(t, PassedAt(scan, b, mcus, 0).toks)
  {
    SendableNone(t);
  }

  lemma PassNext(scan: Scan, b: Band, t: CTables, mcus: seq<Zigzags>, n: nat)
    requires ValidProg(scan, b) && AllValid(scan, mcus) && SaneTables(t) && n < |mcus| && Alike(scan, b, t, mcus, n)
    ensures ValidZs(scan, mcus[n])
    ensures var s, g := PStateAt(scan, b, t, mcus, n), PassedAt(scan, b, mcus, n);
            && ValidPState(scan, s) && ValidPassed(scan, g) && s.seg == g.seg && s.restarts_to_go == g.restarts_to_go
            && PStateAt(scan, b, t, mcus, n + 1) == PAfterMcu(scan, b, t, s, mcus[n])
            && PassedAt(scan, b, mcus, n + 1) == PassMcu(scan, b, g, mcus[n])
            && (EncodableTo(scan, b, t, mcus, n + 1) <==> EncodableTo(scan, b, t, mcus, n) && PEncodable(scan, b, t, s,
                                                                                                         mcus[n]))
            && (PassInRange(scan, b, mcus, n + 1) <==> PassInRange(scan, b, mcus, n) && McuFits(scan, b, g, mcus[n]))
    ensures PAfterMcu(scan, b, t, PStateAt(scan, b, t, mcus, n), mcus[n]).seg
        == PassMcu(scan, b, PassedAt(scan, b, mcus, n), mcus[n]).seg
        && PAfterMcu(scan, b, t, PStateAt(scan, b, t, mcus, n), mcus[n]).restarts_to_go
             == PassMcu(scan, b, PassedAt(scan, b, mcus, n), mcus[n]).restarts_to_go
      ==> Alike(scan, b, t, mcus, n + 1)
  {
    hide PEncodable, McuFits, PAfterMcu, PassMcu, ValidProg, SaneTables;
    assert ValidZs(scan, mcus[n]);
  }

  // The output pass succeeds if and only if the coefficients are in range and
  // everything the statistics pass went through has a code.
  lemma PassStatisticsAgree(scan: Scan, b: Band, t: CTables, mcus: seq<Zigzags>)
    requires ValidProg(scan, b) && AllValid(scan, mcus) && SaneTables(t)
    ensures PAllEncodable(scan, b, t, mcus) <==>
      PassInRange(scan, b, mcus, |mcus|) && AllSendable(t, PassTokens(scan, b, mcus))
  {
    hide ValidProg, SaneTables, AllSendable, ReleaseTokens, PEncodable, McuFits, PStateAt, PassedAt, PassInRange;
    PassesAgree(scan, b, t, mcus, |mcus|);
    var g := PassedAt(scan, b, mcus, |mcus|);
    SendableConcat(t, g.toks, ReleaseTokens(scan, b, g.seg));
  }

  // ----- the pass -----

  // The bytes stay below the room.
  ghost predicate Roomy(sp: Space, s: PState) {
    sp.suspending ==> |s.closed + Emitted(s.bits)| < sp.room
  }

  ghost predicate RoomyBytes(sp: Space, c: seq<Byte>) {
    sp.suspending ==> |c| < sp.room
  }

  // What can be emitted, in terms of bits and bytes.
  lemma CanSendMeans(sp: Space, t: CTables, seg: seq<Token>, toks: seq<Token>)
    requires SaneTables(t) && AllSendable(t, seg)
    ensures CanSend(sp, t, [], seg + toks) <==>
      AllSendable(t, toks) && RoomyBytes(sp, sp.closed + Emitted(TokensBits(t, seg) + BitsOf(t, toks)))
    ensures AllSendable(t, toks) ==>
      AllSendable(t, seg + toks) && TokensBits(t, seg + toks) == TokensBits(t, seg) + BitsOf(t, toks)
  {
    hide TokensBits, Emitted, Sendable;
    SendableConcat(t, seg, toks);
    if AllSendable(t, toks) {
      TokensBitsConcat(t, seg, toks);
      var x := TokensBits(t, seg + toks);
      assert [] + x == x;
    }
  }

  // Finishing a segment takes more room than its bits do.
  lemma FlushedRoom(sp: Space, c: seq<Byte>, x: Bits, m: seq<Byte>)
    requires RoomyBytes(sp, c + Flushed(x) + m)
    ensures RoomyBytes(sp, c + Emitted(x))
  {
    EmittedGrows(x, Ones(7));
  }

  lemma RestartMeans(sp: Space, t: CTables, seg: seq<Token>, rel: seq<Token>, m: seq<Byte>)
    requires SaneTables(t) && AllSendable(t, seg)
    ensures CanSend(sp, t, [], seg + rel) && RoomyBytes(sp, sp.closed + Flushed(TokensBits(t, seg + rel)) + m)
       <==> AllSendable(t, rel) && RoomyBytes(sp, sp.closed + Flushed(TokensBits(t, seg) + BitsOf(t, rel)) + m)
    ensures AllSendable(t, rel) ==>
      AllSendable(t, seg + rel) && TokensBits(t, seg + rel) == TokensBits(t, seg) + BitsOf(t, rel)
  {
    hide *;
    CanSendMeans(sp, t, seg, rel);
    if AllSendable(t, rel) {
      var x := TokensBits(t, seg) + BitsOf(t, rel);
      if RoomyBytes(sp, sp.closed + Flushed(x) + m) {
        FlushedRoom(sp, sp.closed, x, m);
      }
    }
  }

  lemma EmitMeans(em: Emitter, s0: seq<Token>, a0: seq<Token>, toks: seq<Token>, inRange: bool, st: Status)
    requires EmitOutcome(em, s0, a0, toks, inRange, st)
    ensures st.Done? <==> inRange && (em.gather_statistics || CanSend(SpaceOf(em.w), em.tables, [], s0 + toks))
    ensures st.Done? ==> em.Valid() && em.seg == s0 + toks && em.all == a0 + toks
  {
  }

  // The states after an MCU, by components.
  lemma AfterMcuIs(scan: Scan, b: Band, t: CTables, s: PState, g: Passed, zs: Zigzags)
    requires ValidProg(scan, b) && SaneTables(t) && ValidPState(scan, s) && ValidPassed(scan, g) && ValidZs(scan, zs)
    requires s.seg == g.seg && s.restarts_to_go == g.restarts_to_go
    ensures var due := scan.restart_interval != 0 && s.restarts_to_go == 0;
            var seg1 := if due then Fresh(scan) else s.seg;
            var x := BitsOf(t, StepTokens(scan, b, seg1, zs));
            var togo := if scan.restart_interval == 0 then s.restarts_to_go
                        else if due then scan.restart_interval - 1 else s.restarts_to_go - 1;
            && |seg1.last| == |scan.comps| && togo >= 0 && PDue(scan, s) == due
            && PAfterMcu(scan, b, t, s, zs) ==
                 (if due then PState(StepState(scan, b, seg1, zs), togo, (s.next_restart_num + 1) % 8,
                                     s.closed + Flushed(Closing(scan, b, t, s)) + RestartMarker(s.next_restart_num),
                                     [] + x)
                  else PState(StepState(scan, b, seg1, zs), togo, s.next_restart_num, s.closed, s.bits + x))
            && PassMcu(scan, b, g, zs) ==
                 Passed(StepState(scan, b, seg1, zs), togo,
                        (if due then g.toks + ReleaseTokens(scan, b, g.seg) else g.toks)
                            + StepTokens(scan, b, seg1, zs))
            && (McuFits(scan, b, g, zs) <==> StepInRange(scan, b, seg1, zs))
            && (PEncodable(scan, b, t, s, zs) <==>
                 && (due ==> AllSendable(t, ReleaseTokens(scan, b, s.seg)))
                 && StepInRange(scan, b, seg1, zs) && AllSendable(t, StepTokens(scan, b, seg1, zs)))
  {
    hide StepTokens, StepState, StepInRange, AllSendable, ReleaseTokens, Flushed, Closing, TokensBits, SaneTables,
      ValidProg, ValidZs;
  }

  lemma BitsAfter(t: CTables, seg: seq<Token>, toks: seq<Token>)
    requires SaneTables(t) && AllSendable(t, seg + toks)
    ensures AllSendable(t, seg) && AllSendable(t, toks)
    ensures TokensBits(t, seg + toks) == TokensBits(t, seg) + BitsOf(t, toks)
  {
    hide TokensBits, Sendable;
    SendableConcat(t, seg, toks);
    TokensBitsConcat(t, seg, toks);
  }

  function RestartMarker(n: nat): (r: seq<Byte>)
    requires n < 8
    ensures r == [0xFF, RST0 + n] == [0xFF, 0xD0 + n]
  {
    [0xFF, RST0 + n]
  }

  class PhuffEncoder {
    const scan: Scan
    const b: Band
    const em: Emitter
    const bit_buffer: array<bool>
    var last_dc_val: seq<int>
    var EOBRUN: nat
    var BE: nat
    var restarts_to_go: nat
    var next_restart_num: nat
    ghost var held: Held

    ghost function Seg(): SegState
      reads this
    {
      SegState(last_dc_val, held)
    }

    // The state, as far as the bytes go.
    ghost function State(): PState
      reads this, em, em.w
    {
      PState(Seg(), restarts_to_go, next_restart_num, em.w.closed, em.w.bits)
    }

    // The state, as far as the tokens go.
    ghost function Tally(): Passed
      reads this, em
    {
      Passed(Seg(), restarts_to_go, em.all)
    }

    // What sending held EOBs does not touch.
    ghost predicate Steady()
      reads this`last_dc_val, this`restarts_to_go, this`next_restart_num
    {
      && ValidProg(scan, b) && bit_buffer.Length == MAX_CORR_BITS && em.isDC == (b.Ss == 0)
      && |last_dc_val| == |scan.comps| && restarts_to_go <= scan.restart_interval && next_restart_num < 8
      && (b.Ss != 0 ==> last_dc_val == NoPredictions(scan))
    }

    ghost predicate HoldsBack()
      reads this`EOBRUN, this`BE, this`held, bit_buffer
    {
      ValidHeld(held) && HeldIn(held, EOBRUN, BE, bit_buffer[..]) && (b.Ss == 0 ==> held == NoneHeld())
    }

    ghost predicate Valid()
      reads this, bit_buffer, em, em.w, em.count_ptrs
    {
      Steady() && HoldsBack() && em.Valid()
    }

    // start_pass_phuff
    constructor (scan: Scan, b: Band, gather_statistics: bool, w: BitWriter, tables: CTables)
      requires ValidProg(scan, b) && SaneTables(tables) && w.Valid() && w.bits == []
      ensures Valid() && Tally() == PassStart(scan) && State() == PStart(scan).(closed := w.closed)
      ensures this.scan == scan && this.b == b && em.w == w && em.gather_statistics == gather_statistics
      ensures em.tables == tables
      ensures fresh(em) && fresh(em.count_ptrs) && fresh(bit_buffer)
    {
      this.scan, this.b := scan, b;
      em := new Emitter(gather_statistics, w, tables, b.Ss == 0);
      bit_buffer := new bool[MAX_CORR_BITS];
      last_dc_val := NoPredictions(scan);
      EOBRUN, BE := 0, 0;
      restarts_to_go := scan.restart_interval;
      next_restart_num := 0;
      held := NoneHeld();
    }

    lemma Parts()
      requires Valid()
      ensures ValidProg(scan, b) && SaneTables(em.tables) && ValidHeld(held) && HeldIn(held, EOBRUN, BE, bit_buffer[..])
      ensures held.run == EOBRUN <= 0x7FFF && bit_buffer.Length == MAX_CORR_BITS && em.isDC == (b.Ss == 0)
      ensures Steady() && HoldsBack() && HasEmitted(em, em.seg, em.all, []) && ValidPState(scan, State())
      ensures ValidPassed(scan, Tally())
      ensures |last_dc_val| == |scan.comps| && ValidScan(scan) && restarts_to_go <= scan.restart_interval
      ensures next_restart_num < 8
      ensures b.Ss != 0 ==> last_dc_val == NoPredictions(scan)
      ensures b.Ss != 0 ==> |scan.comps| == 1 && AcTable(scan) < NUM_HUFF_TBLS && ValidAc(b) && scan.membership == [0]
      ensures ReleaseTokens(scan, b, Seg()) == if b.Ss == 0 then [] else Release(held, AcTable(scan))
      ensures em.gather_statistics || (AllSendable(em.tables, em.seg) && em.w.bits == TokensBits(em.tables, em.seg))
    {
    }

    // Sends the held EOBs.
    method ReleaseHeld() returns (st: Status)
      requires Valid()
      modifies this`EOBRUN, this`BE, this`held, em, em.w, em.count_ptrs
      ensures SpaceOf(em.w) == old(SpaceOf(em.w))
      ensures EmitOutcome(em, old(em.seg), old(em.all), ReleaseTokens(scan, b, old(Seg())), true, st)
      ensures st.Done? ==> Valid() && held == NoneHeld() && EOBRUN == 0 && BE == 0
    {
      hide *;
      Parts();
      ghost var s0, a0, rel := em.seg, em.all, ReleaseTokens(scan, b, Seg());
      assert [] + rel == rel;
      if b.Ss != 0 {
        st := EmitEobrun(em, AcTable(scan), EOBRUN, BE, bit_buffer, held, s0, a0, []);
        if !st.Done? {
          return;
        }
        EmitDone(em, s0, a0, rel, true, st);
        EOBRUN, BE := 0, 0;
        held := NoneHeld();
        HoldsNone();
      } else {
        EmitNothing(em, s0, a0, []);
        NothingHeld();
        st := Done;
      }
      ValidAgain(s0, a0, rel);
    }

    lemma NothingHeld()
      requires Valid() && b.Ss == 0
      ensures held == NoneHeld() && EOBRUN == 0 && BE == 0
    {
    }

    lemma ValidAgain(s0: seq<Token>, a0: seq<Token>, sent: seq<Token>)
      requires Steady() && HoldsBack() && HasEmitted(em, s0, a0, sent)
      ensures Valid()
    {
    }

    lemma HoldsNone()
      requires held == NoneHeld() && EOBRUN == 0 && BE == 0
      ensures HoldsBack()
    {
    }

    // The finished bytes after a restart now.
    ghost function ClosedAfter(m: seq<Byte>): seq<Byte>
      requires ValidProg(scan, b) && SaneTables(em.tables)
      reads this, em, em.w
    {
      em.w.closed + Flushed(Closing(scan, b, em.tables, State())) + m
    }

    ghost predicate CanClose(m: seq<Byte>)
      requires ValidProg(scan, b) && SaneTables(em.tables)
      reads this, em, em.w
    {
      em.gather_statistics ||
      (AllSendable(em.tables, ReleaseTokens(scan, b, Seg())) && RoomyBytes(SpaceOf(em.w), ClosedAfter(m)))
    }

    lemma CloseMeans(m: seq<Byte>)
      requires Valid() && !em.gather_statistics
      ensures ValidProg(scan, b) && SaneTables(em.tables)
      ensures var sp, t, seg, rel := SpaceOf(em.w), em.tables, em.seg, ReleaseTokens(scan, b, Seg());
              && AllSendable(t, seg)
              && (CanClose(m) <==>
                    && CanSend(sp, t, [], seg + rel)
                    && (sp.suspending ==> |sp.closed + Flushed(TokensBits(t, seg + rel)) + m| < sp.room))
              && (CanClose(m) ==>
                    AllSendable(t, seg + rel) && ClosedAfter(m) == sp.closed + Flushed(TokensBits(t, seg + rel)) + m)
    {
      hide TokensBits, Flushed, Emitted, Release, AllSendable, Holds, Rest;
      Parts();
      RestartMeans(SpaceOf(em.w), em.tables, em.seg, ReleaseTokens(scan, b, Seg()), m);
    }

    // emit_restart
    method EmitRestart(restart_num: nat) returns (st: Status)
      requires Valid() && restart_num < 8
      modifies this, em, em.w, em.count_ptrs
      ensures st.Done? <==> old(CanClose(RestartMarker(restart_num)))
      ensures st.Done? ==>
        Valid() && Tally() == Passed(Fresh(scan), old(restarts_to_go), old(em.all + ReleaseTokens(scan, b, Seg())))
      ensures st.Done? ==> next_restart_num == old(next_restart_num) && em.seg == []
      ensures st.Done? ==>
        SpaceOf(em.w) == if em.gather_statistics then old(SpaceOf(em.w))
                         else old(Space(em.w.suspending, em.w.room, ClosedAfter(RestartMarker(restart_num))))
    {
      hide *;
      Parts();
      ghost var m := RestartMarker(restart_num);
      ghost var s0, a0, rel := em.seg, em.all, ReleaseTokens(scan, b, Seg());
      TallyIs();
      if em.gather_statistics {
        CountingCloses(m);
      } else {
        CloseMeans(m);
      }
      st := ReleaseHeld();
      EmitMeans(em, s0, a0, rel, true, st);
      if !st.Done? {
        return;
      }
      st := em.EndSegment(restart_num);
      if !st.Done? {
        return;
      }
      if b.Ss == 0 {
        last_dc_val := NoPredictions(scan);
      } else {
        EOBRUN, BE := 0, 0;
      }
      Restarted();
      TallyIs();
    }

    lemma Restarted()
      requires ValidProg(scan, b) && bit_buffer.Length == MAX_CORR_BITS && em.isDC == (b.Ss == 0)
      requires last_dc_val == NoPredictions(scan) && restarts_to_go <= scan.restart_interval && next_restart_num < 8
      requires held == NoneHeld() && EOBRUN == 0 && BE == 0 && em.Valid()
      ensures Valid() && Seg() == Fresh(scan)
    {
    }

    lemma TallyIs()
      ensures Tally() == Passed(Seg(), restarts_to_go, em.all)
      ensures SpaceOf(em.w) == Space(em.w.suspending, em.w.room, em.w.closed)
    {
    }

    lemma CountingCloses(m: seq<Byte>)
      requires Valid() && em.gather_statistics
      ensures CanClose(m)
    {
    }

    // What the blocks of an MCU send, by kind of scan.
    lemma StepParts(mcu: Mcu)
      requires Valid() && ValidMcu(scan, mcu)
      ensures ValidScan(scan) && |mcu| == |scan.membership| && (forall i | 0 <= i < |mcu| :: |mcu[i]| == DCTSIZE2)
      ensures ValidZs(scan, Reordered(mcu)) && |last_dc_val| == |scan.comps| && |Reordered(mcu)| == |mcu|
      ensures em.isDC == (b.Ss == 0)
      ensures var s, zs := Seg(), Reordered(mcu);
              && (b.Ss == 0 && b.Ah == 0 ==>
                    && StepTokens(scan, b, s, zs) == DcFirstTokens(scan, last_dc_val, zs, b.Al, |mcu|)
                    && StepState(scan, b, s, zs) == SegState(DcLast(scan, last_dc_val, zs, b.Al, |mcu|), held)
                    && (StepInRange(scan, b, s, zs) <==> DcInRange(scan, last_dc_val, zs, b.Al, |mcu|)))
              && (b.Ss == 0 && b.Ah != 0 ==>
                    StepTokens(scan, b, s, zs) == DcRefineTokens(zs, b.Al, |mcu|)
                    && StepState(scan, b, s, zs) == s && StepInRange(scan, b, s, zs))
      ensures b.Ss != 0 ==>
        && |mcu| == 1 && |mcu[0]| == DCTSIZE2 && ValidAc(b) && |scan.comps| == 1 && AcTable(scan) < NUM_HUFF_TBLS
        && var s, zs, tbl, z := Seg(), Reordered(mcu), AcTable(scan), Reorder(mcu[0]);
        && |z| == DCTSIZE2 && zs == [z]
        && StepTokens(scan, b, s, zs) == BandStep(held, CodeBand(z, b, tbl), tbl).0
        && StepState(scan, b, s, zs) == SegState(last_dc_val, BandStep(held, CodeBand(z, b, tbl), tbl).1)
        && (StepInRange(scan, b, s, zs) <==> BandInRange(z, b))
        && ValidHeld(held)
        && ValidHeld(BandStep(held, CodeBand(z, b, tbl), tbl).1)
      ensures b.Ah != 0 ==> StepInRange(scan, b, Seg(), Reordered(mcu))
    {
      hide BandStep, CodeBand, DcFirstTokens, DcLast, DcInRange, DcRefineTokens, FirstInRange, Reorder, HeldIn;
      if b.Ss != 0 {
        BandStepValid(held, Reorder(mcu[0]), b, AcTable(scan));
      }
    }

    lemma SegIs()
      ensures Seg() == SegState(last_dc_val, held)
    {
    }

    lemma HoldsThese()
      requires ValidHeld(held) && HeldIn(held, EOBRUN, BE, bit_buffer[..]) && b.Ss != 0
      ensures HoldsBack()
    {
    }

    lemma SteadyLast()
      requires ValidProg(scan, b) && bit_buffer.Length == MAX_CORR_BITS && em.isDC == (b.Ss == 0) && b.Ss == 0
      requires |last_dc_val| == |scan.comps| && restarts_to_go <= scan.restart_interval && next_restart_num < 8
      ensures Steady()
    {
    }

    // The blocks of an MCU.
    method EncodeStep(mcu: Mcu) returns (st: Status)
      requires Valid() && ValidMcu(scan, mcu)
      modifies this`last_dc_val, this`EOBRUN, this`BE, this`held, em, em.w, em.count_ptrs, bit_buffer
      ensures SpaceOf(em.w) == old(SpaceOf(em.w)) && ValidZs(scan, Reordered(mcu))
      ensures EmitOutcome(em, old(em.seg), old(em.all), StepTokens(scan, b, old(Seg()), Reordered(mcu)),
                          StepInRange(scan, b, old(Seg()), Reordered(mcu)), st)
      ensures st.Done? ==> Valid() && Seg() == StepState(scan, b, old(Seg()), Reordered(mcu))
    {
      hide *;
      Parts();
      StepParts(mcu);
      SegIs();
      ghost var s0, a0, zs := em.seg, em.all, Reordered(mcu);
      ghost var toks, fits := StepTokens(scan, b, Seg(), zs), StepInRange(scan, b, Seg(), zs);
      if b.Ss == 0 {
        if b.Ah == 0 {
          var last;
          st, last := EncodeDcFirst(em, scan, b.Al, last_dc_val, mcu, s0, a0);
          if st.Done? {
            last_dc_val := last;
            SteadyLast();
          }
        } else {
          st := EncodeDcRefine(em, scan, b.Al, mcu, s0, a0);
        }
      } else {
        ghost var next := BandStep(held, CodeBand(Reorder(mcu[0]), b, AcTable(scan)), AcTable(scan)).1;
        var eobrun, be;
        if b.Ah == 0 {
          st, eobrun, be := EncodeAcFirst(em, AcTable(scan), b, mcu[0], EOBRUN, BE, bit_buffer, held, s0, a0);
        } else {
          st, eobrun, be := EncodeAcRefine(em, AcTable(scan), b, mcu[0], EOBRUN, BE, bit_buffer, held, s0, a0);
        }
        if st.Done? {
          EOBRUN, BE := eobrun, be;
          held := next;
          HoldsThese();
        }
      }
      if st.Done? {
        EmitDone(em, s0, a0, toks, fits, st);
        ValidAgain(s0, a0, toks);
        SegIs();
      }
    }

    // The MCU is in range; in an output pass all codes are there, and its bytes stay below the room.
    ghost predicate Accepts(mcu: Mcu)
      requires Valid() && ValidMcu(scan, mcu)
      reads this, bit_buffer, em, em.w, em.count_ptrs
    {
      Parts();
      var zs := Reordered(mcu);
      && ValidZs(scan, zs) && McuFits(scan, b, Tally(), zs)
      && (em.gather_statistics ||
          (PEncodable(scan, b, em.tables, State(), zs) && Roomy(SpaceOf(em.w),
                                                                PAfterMcu(scan, b, em.tables, State(), zs))))
    }

    lemma AcceptsOpen(mcu: Mcu)
      requires Valid() && ValidMcu(scan, mcu) && !(scan.restart_interval != 0 && restarts_to_go == 0)
      ensures ValidZs(scan, Reordered(mcu)) && ValidProg(scan, b) && |Seg().last| == |scan.comps|
      ensures Accepts(mcu) <==>
        && StepInRange(scan, b, Seg(), Reordered(mcu))
        && (em.gather_statistics ||
            CanSend(SpaceOf(em.w), em.tables, [], em.seg + StepTokens(scan, b, Seg(), Reordered(mcu))))
    {
      hide StepTokens, StepState, StepInRange, AllSendable, ReleaseTokens, Flushed, Closing, TokensBits, SaneTables,
        ValidProg, ValidZs,
        Emitted, Rest, Holds, CanSend, PEncodable, PAfterMcu, McuFits, PassMcu, Steady, HoldsBack, Emitter.Valid,
            Reordered, BitsOf;
      Parts();
      StepParts(mcu);
      AfterMcuIs(scan, b, em.tables, State(), Tally(), Reordered(mcu));
      if !em.gather_statistics {
        CanSendMeans(SpaceOf(em.w), em.tables, em.seg, StepTokens(scan, b, Seg(), Reordered(mcu)));
      }
    }

    lemma AcceptsDue(mcu: Mcu)
      requires Valid() && ValidMcu(scan, mcu) && scan.restart_interval != 0 && restarts_to_go == 0
      ensures ValidZs(scan, Reordered(mcu)) && ValidProg(scan, b) && |Fresh(scan).last| == |scan.comps|
      ensures SaneTables(em.tables)
      ensures var m, toks := RestartMarker(next_restart_num), StepTokens(scan, b, Fresh(scan), Reordered(mcu));
              Accepts(mcu) <==>
                && CanClose(m) && StepInRange(scan, b, Fresh(scan), Reordered(mcu))
                && (em.gather_statistics || CanSend(Space(em.w.suspending, em.w.room, ClosedAfter(m)), em.tables, [],
                                                    [] + toks))
      ensures ClosedAfter(RestartMarker(next_restart_num))
           == State().closed + Flushed(Closing(scan, b, em.tables, State())) + RestartMarker(State().next_restart_num)
    {
      hide StepTokens, StepState, StepInRange, AllSendable, ReleaseTokens, Flushed, Closing, TokensBits, SaneTables,
        ValidProg, ValidZs,
        Emitted, Rest, Holds, CanSend, PEncodable, PAfterMcu, McuFits, PassMcu, Steady, HoldsBack, Emitter.Valid,
            Reordered, BitsOf;
      Parts();
      StepParts(mcu);
      AfterMcuIs(scan, b, em.tables, State(), Tally(), Reordered(mcu));
      if !em.gather_statistics {
        SendableNone(em.tables);
        NoTokens(em.tables);
        CanSendMeans(Space(em.w.suspending, em.w.room, ClosedAfter(RestartMarker(next_restart_num))), em.tables, [],
                     StepTokens(scan, b, Fresh(scan), Reordered(mcu)));
      }
    }

    lemma StateIs()
      ensures State() == PState(Seg(), restarts_to_go, next_restart_num, em.w.closed, em.w.bits)
      ensures SpaceOf(em.w) == Space(em.w.suspending, em.w.room, em.w.closed)
      ensures Tally() == Passed(Seg(), restarts_to_go, em.all)
    {
    }

    lemma ValidWith()
      requires ValidProg(scan, b) && bit_buffer.Length == MAX_CORR_BITS && em.isDC == (b.Ss == 0)
      requires |last_dc_val| == |scan.comps| && restarts_to_go <= scan.restart_interval && next_restart_num < 8
      requires (b.Ss != 0 ==> last_dc_val == NoPredictions(scan)) && HoldsBack() && em.Valid()
      ensures Valid()
    {
    }

    // The restart counters after an MCU.
    method CountMcu()
      requires Valid()
      modifies this`restarts_to_go, this`next_restart_num
      ensures Valid() && Seg() == old(Seg())
      ensures if scan.restart_interval == 0 then
                restarts_to_go == old(restarts_to_go) && next_restart_num == old(next_restart_num)
              else if old(restarts_to_go) == 0 then
                restarts_to_go == scan.restart_interval - 1 && next_restart_num == (old(next_restart_num) + 1) % 8
              else
                restarts_to_go == old(restarts_to_go) - 1 && next_restart_num == old(next_restart_num)
    {
      hide *;
      Parts();
      SegIs();
      if scan.restart_interval != 0 {
        if restarts_to_go == 0 {
          restarts_to_go := scan.restart_interval;
          next_restart_num := (next_restart_num + 1) % 8;
        }
        restarts_to_go := restarts_to_go - 1;
      }
      ValidWith();
      SegIs();
    }

    // encode_mcu_DC_first, encode_mcu_AC_first, encode_mcu_DC_refine or encode_mcu_AC_refine
    method EncodeMcu(mcu: Mcu) returns (st: Status)
      requires Valid() && ValidMcu(scan, mcu)
      modifies this, em, em.w, em.count_ptrs, bit_buffer
      ensures ValidZs(scan, Reordered(mcu)) && ValidProg(scan, b) && SaneTables(em.tables)
      ensures old(ValidPState(scan, State())) && old(ValidPassed(scan, Tally()))
      ensures st.Done? <==> old(Accepts(mcu))
      ensures st.Done? ==> Valid() && Tally() == PassMcu(scan, b, old(Tally()), Reordered(mcu))
      ensures st.Done? && !em.gather_statistics ==>
        State() == PAfterMcu(scan, b, em.tables, old(State()), Reordered(mcu))
      ensures st.Done? ==> em.w.room == old(em.w.room)
    {
      hide *;
      Parts();
      StateIs();
      StepParts(mcu);
      ghost var zs, s0, g0 := Reordered(mcu), State(), Tally();
      AfterMcuIs(scan, b, em.tables, s0, g0, zs);
      if scan.restart_interval != 0 && restarts_to_go == 0 {
        AcceptsDue(mcu);
        st := EmitRestart(next_restart_num);
        if !st.Done? {
          return;
        }
        StateIs();
        Parts();
      } else {
        AcceptsOpen(mcu);
      }
      ghost var seg1, sent1, all1 := Seg(), em.seg, em.all;
      ghost var toks := StepTokens(scan, b, seg1, zs);
      st := EncodeStep(mcu);
      EmitMeans(em, sent1, all1, toks, StepInRange(scan, b, seg1, zs), st);
      if !st.Done? {
        return;
      }
      CountMcu();
      StateIs();
      Parts();
      if !em.gather_statistics {
        BitsAfter(em.tables, sent1, toks);
        NoTokens(em.tables);
      }
    }

    // finish_pass_phuff: what is held goes out, and the last byte is filled.
    method FinishPass() returns (st: Status)
      requires Valid() && !em.gather_statistics
      modifies this, em, em.w, em.count_ptrs
      ensures ValidProg(scan, b) && SaneTables(em.tables)
      ensures st.Done? <==> old(CanClose([]))
      ensures st.Done? ==>
        em.w.Valid() && em.w.output == PFinished(scan, b, em.tables, old(State())) && em.w.put_bits == 0
    {
      hide *;
      Parts();
      ghost var s0, a0, rel := em.seg, em.all, ReleaseTokens(scan, b, Seg());
      CloseMeans([]);
      FinishedIs();
      st := ReleaseHeld();
      EmitMeans(em, s0, a0, rel, true, st);
      if !st.Done? {
        return;
      }
      Parts();
      ghost var f := SpaceOf(em.w).closed + Flushed(TokensBits(em.tables, em.seg));
      assert f + [] == f;
      st := em.EndScan();
    }

    lemma FinishedIs()
      requires ValidProg(scan, b) && SaneTables(em.tables)
      ensures ClosedAfter([]) == PFinished(scan, b, em.tables, State())
    {
    }
  }

  lemma NoTokens(t: CTables)
    requires SaneTables(t)
    ensures AllSendable(t, []) && TokensBits(t, []) == []
  {
  }
}
