// The sequential Huffman encoder (jchuff.c): encode_one_block, emit_restart,
// encode_mcu_huff and finish_pass_huff, with suspension.
module SeqEncoder {
  import opened Arith
  import opened Bits
  import opened Words
  import opened Errors
  import opened Tokens
  import opened Blocks
  import opened SeqCodec
  import opened BitWriter
  import opened TokenWriter
  import opened McuCodec

  // The number of bits of a magnitude.
  method CountBits(magnitude: nat) returns (nbits: nat)
    ensures nbits == NBits(magnitude)
  {
    var temp := magnitude;
    nbits := 0;
    while temp != 0
      invariant nbits + NBits(temp) == NBits(magnitude)
    {
      nbits := nbits + 1;
      temp := temp / 2;
    }
  }

  // ----- encode_one_block -----

  // The bits sent for a value: its magnitude's, or their complement.
  method Magnitude(v: int) returns (temp: nat, temp2: int)
    ensures temp == Abs(v) && temp2 == Coded(v)
  {
    var magnitude := v;
    temp2 := v;
    if v < 0 {
      magnitude := -v;
      temp2 := temp2 - 1;
    }
    temp := magnitude;
  }

  lemma DcTokensAre(diff: int, tbl: nat, n: nat, sent: seq<Token>)
    requires n == NBits(Abs(diff))
    ensures sent + DcTokens(diff, tbl) ==
            if n == 0 then sent + [Sym(DC(tbl), n)] else sent + [Sym(DC(tbl), n)] + [Raw(Coded(diff), n)]
  {
  }

  // The DC difference.
  method SendDc(w: BitWriter, t: CTables, diff: int, tbl: nat, ghost b0: Bits, ghost sent: seq<Token>)
    returns (st: Status)
    requires Sent(w, t, b0, sent) && tbl < NUM_HUFF_TBLS
    modifies w
    ensures SpaceOf(w) == old(SpaceOf(w))
    ensures Outcome(w, t, b0, sent + DcTokens(diff, tbl), NBits(Abs(diff)) <= MAX_COEF_BITS + 1, st)
  {
    hide *;
    Limits();
    var temp, temp2 := Magnitude(diff);
    var nbits := CountBits(temp);
    DcTokensAre(diff, tbl, nbits, sent);
    if nbits > MAX_COEF_BITS + 1 {
      st := Failed(BadDctCoef);
      OutcomeOutOfRange(w, t, b0, sent + DcTokens(diff, tbl));
      return;
    }
    st := SendSymbol(w, t, DC(tbl), nbits, b0, sent);
    if nbits != 0 {
      if !st.Done? {
        OutcomeStop(w, t, b0, sent + [Sym(DC(tbl), nbits)], [Raw(temp2, nbits)], true, true, st);
        return;
      }
      OutcomeDone(w, t, b0, sent + [Sym(DC(tbl), nbits)], true, st);
      st := SendRaw(w, t, temp2, nbits, b0, sent + [Sym(DC(tbl), nbits)]);
    }
  }

  lemma ValueTokensAre(v: int, r: nat, tbl: nat, sent: seq<Token>)
    ensures r > 15 ==> sent + ValueTokens(v, r, tbl) == sent + [Sym(AC(tbl), 0xF0)] + ValueTokens(v, r - 16, tbl)
    ensures r <= 15 ==>
      sent + ValueTokens(v, r, tbl) == sent + [Sym(AC(tbl), 16 * r + NBits(Abs(v)))] + [Raw(Coded(v), NBits(Abs(v)))]
  {
  }

  // An AC coefficient after a run of r0 zeros.
  method SendCoef(w: BitWriter, t: CTables, v: Coef, r0: nat, tbl: nat, ghost b0: Bits, ghost sent0: seq<Token>)
    returns (st: Status)
    requires Sent(w, t, b0, sent0) && tbl < NUM_HUFF_TBLS && v != 0
    modifies w
    ensures SpaceOf(w) == old(SpaceOf(w))
    ensures Outcome(w, t, b0, sent0 + ValueTokens(v, r0, tbl), NBits(Abs(v)) <= MAX_COEF_BITS, st)
  {
    hide *;
    Limits();
    var r: nat := r0;
    ghost var sent := sent0;
    while r > 15
      invariant Sent(w, t, b0, sent) && SpaceOf(w) == old(SpaceOf(w))
      invariant sent + ValueTokens(v, r, tbl) == sent0 + ValueTokens(v, r0, tbl)
    {
      ValueTokensAre(v, r, tbl, sent);
      st := SendSymbol(w, t, AC(tbl), 0xF0, b0, sent);
      sent := sent + [Sym(AC(tbl), 0xF0)];
      if !st.Done? {
        OutcomeStop(w, t, b0, sent, ValueTokens(v, r - 16, tbl), true, NBits(Abs(v)) <= MAX_COEF_BITS, st);
        return;
      }
      OutcomeDone(w, t, b0, sent, true, st);
      r := r - 16;
    }
    var temp, temp2 := Magnitude(v);
    var nbits := CountBits(temp);
    if nbits > MAX_COEF_BITS {
      st := Failed(BadDctCoef);
      OutcomeOutOfRange(w, t, b0, sent + ValueTokens(v, r, tbl));
      return;
    }
    ValueTokensAre(v, r, tbl, sent);
    SomeBits(v);
    st := SendSymbol(w, t, AC(tbl), 16 * r + nbits, b0, sent);
    sent := sent + [Sym(AC(tbl), 16 * r + nbits)];
    if !st.Done? {
      OutcomeStop(w, t, b0, sent, [Raw(temp2, nbits)], true, true, st);
      return;
    }
    OutcomeDone(w, t, b0, sent, true, st);
    st := SendRaw(w, t, temp2, nbits, b0, sent);
  }

  lemma SomeBits(v: int)
    ensures v != 0 ==> NBits(Abs(v)) > 0
  {
  }

  lemma AcTokensAre(z: Block, k: nat, r: nat, tbl: nat, sent: seq<Token>)
    requires |z| == DCTSIZE2 && k <= DCTSIZE2
    ensures k == DCTSIZE2 ==> sent + AcTokens(z, k, r, tbl) == if r > 0 then sent + [Sym(AC(tbl), 0)] else sent
    ensures k < DCTSIZE2 && z[k] == 0 ==> sent + AcTokens(z, k, r, tbl) == sent + AcTokens(z, k + 1, r + 1, tbl)
    ensures k < DCTSIZE2 && z[k] != 0 ==>
      sent + AcTokens(z, k, r, tbl) == sent + ValueTokens(z[k], r, tbl) + AcTokens(z, k + 1, 0, tbl)
  {
    if k < DCTSIZE2 && z[k] != 0 {
      AcTokensValue(z, k, r, tbl);
    }
  }

  // The AC coefficients below position k are in range.
  ghost predicate InRangeBelow(z: Block, k: nat)
    requires |z| == DCTSIZE2 && k <= DCTSIZE2
  {
    forall j: nat | 1 <= j < k :: NBits(Abs(z[j])) <= MAX_COEF_BITS
  }

  lemma InRangeNext(z: Block, k: nat)
    requires |z| == DCTSIZE2 && 1 <= k < DCTSIZE2 && InRangeBelow(z, k)
    ensures InRangeBelow(z, k + 1) <==> NBits(Abs(z[k])) <= MAX_COEF_BITS
    ensures z[k] == 0 ==> InRangeBelow(z, k + 1)
    ensures AcInRange(z) ==> NBits(Abs(z[k])) <= MAX_COEF_BITS
  {
  }

  lemma InRangeEnds(z: Block)
    requires |z| == DCTSIZE2
    ensures InRangeBelow(z, 1) && (InRangeBelow(z, DCTSIZE2) <==> AcInRange(z))
  {
  }

  // The AC coefficients of a block.
  method SendAc(w: BitWriter, t: CTables, block: Block, tbl: nat, ghost b0: Bits, ghost sent0: seq<Token>)
    returns (st: Status)
    requires Sent(w, t, b0, sent0) && tbl < NUM_HUFF_TBLS && |block| == DCTSIZE2
    modifies w
    ensures SpaceOf(w) == old(SpaceOf(w))
    ensures Outcome(w, t, b0, sent0 + AcTokens(Reorder(block), 1, 0, tbl), AcInRange(Reorder(block)), st)
  {
    hide *;
    Limits();
    ghost var z := Reorder(block);
    InRangeEnds(z);
    var r := 0;
    ghost var sent := sent0;
    for k := 1 to DCTSIZE2
      invariant Sent(w, t, b0, sent) && SpaceOf(w) == old(SpaceOf(w))
      invariant sent + AcTokens(z, k, r, tbl) == sent0 + AcTokens(z, 1, 0, tbl)
      invariant InRangeBelow(z, k)
    {
      AcTokensAre(z, k, r, tbl, sent);
      InRangeNext(z, k);
      var temp := block[Natural(k)];
      if temp == 0 {
        r := r + 1;
      } else {
        st := SendCoef(w, t, temp, r, tbl, b0, sent);
        sent := sent + ValueTokens(temp, r, tbl);
        if !st.Done? {
          OutcomeStop(w, t, b0, sent, AcTokens(z, k + 1, 0, tbl), NBits(Abs(temp)) <= MAX_COEF_BITS, AcInRange(z), st);
          return;
        }
        OutcomeDone(w, t, b0, sent, NBits(Abs(temp)) <= MAX_COEF_BITS, st);
        r := 0;
      }
    }
    AcTokensAre(z, DCTSIZE2, r, tbl, sent);
    if r > 0 {
      st := SendSymbol(w, t, AC(tbl), 0, b0, sent);
    } else {
      st := Done;
      OutcomeNothing(w, t, b0, sent);
    }
  }

  lemma BlockTokensAre(z: Block, last: int, dctbl: nat, actbl: nat, sent: seq<Token>)
    requires |z| == DCTSIZE2
    ensures sent + BlockTokens(z, last, dctbl, actbl) == sent + DcTokens(z[0] - last, dctbl) + AcTokens(z, 1, 0, actbl)
    ensures InRange(z, last) <==> NBits(Abs(z[0] - last)) <= MAX_COEF_BITS + 1 && AcInRange(z)
  {
  }

  // One block: the DC difference and the AC coefficients.
  method EncodeOneBlock(w: BitWriter, t: CTables, block: Block, last: int, dctbl: nat, actbl: nat,
                        ghost b0: Bits, ghost sent: seq<Token>) returns (st: Status)
    requires Sent(w, t, b0, sent) && dctbl < NUM_HUFF_TBLS && actbl < NUM_HUFF_TBLS && |block| == DCTSIZE2
    modifies w
    ensures SpaceOf(w) == old(SpaceOf(w))
    ensures Outcome(w, t, b0, sent + BlockTokens(Reorder(block), last, dctbl, actbl), InRange(Reorder(block), last), st)
  {
    hide *;
    ghost var z := Reorder(block);
    Limits();
    FirstOfZigzag(block);
    BlockTokensAre(z, last, dctbl, actbl, sent);
    ghost var dc, fits := DcTokens(z[0] - last, dctbl), NBits(Abs(z[0] - last)) <= MAX_COEF_BITS + 1;
    st := SendDc(w, t, block[0] - last, dctbl, b0, sent);
    if !st.Done? {
      OutcomeStop(w, t, b0, sent + dc, AcTokens(z, 1, 0, actbl), fits, InRange(z, last), st);
      return;
    }
    OutcomeDone(w, t, b0, sent + dc, fits, st);
    st := SendAc(w, t, block, actbl, b0, sent + dc);
  }

  lemma FirstOfZigzag(block: Block)
    requires |block| == DCTSIZE2
    ensures Reorder(block)[0] == block[0]
  {
  }

  // Finishes the segment and writes the restart marker.
  method EmitRestart(w: BitWriter, restart_num: nat) returns (ok: bool)
    requires w.Valid() && restart_num < 8
    modifies w
    ensures w.room == old(w.room)
    ensures ok <==> old(w.Fits(Flushed(w.bits) + [0xFF, RST0 + restart_num]))
    ensures ok ==>
      w.Valid() && w.bits == [] && w.closed == old(w.closed) + (Flushed(old(w.bits)) + [0xFF, RST0 + restart_num])
  {
    ghost var m: seq<Byte> := [0xFF, RST0 + restart_num];
    Assoc(w.closed, Flushed(w.bits), m);
    ok := w.FlushBits();
    if ok {
      ok := w.EmitMarker(RST0 + restart_num);
    }
  }

  lemma McuTokensNext(scan: Scan, last: seq<int>, mcu: Mcu, n: nat)
    requires ValidScan(scan) && ValidMcu(scan, mcu) && |last| == |scan.comps| && n < |mcu|
    ensures McuTokens(scan, last, mcu, n + 1) == McuTokens(scan, last, mcu, n) + TokensOf(scan, last, mcu, n)
    ensures McuInRange(scan, last, mcu, n + 1) <==>
      McuInRange(scan, last, mcu, n) && InRange(Reorder(mcu[n]), PredictionFor(scan, last, mcu, n))
  {
  }

  // What the first n blocks send comes first.
  lemma {:induction false} McuTokensPrefix(scan: Scan, last: seq<int>, mcu: Mcu, n: nat, m: nat)
    returns (more: seq<Token>)
    requires ValidScan(scan) && ValidMcu(scan, mcu) && |last| == |scan.comps| && n <= m <= |mcu|
    ensures McuTokens(scan, last, mcu, m) == McuTokens(scan, last, mcu, n) + more
    ensures McuInRange(scan, last, mcu, m) ==> McuInRange(scan, last, mcu, n)
  {
    hide *;
    more := [];
    if n < m {
      more := McuTokensPrefix(scan, last, mcu, n, m - 1);
      McuTokensNext(scan, last, mcu, m - 1);
      Assoc(McuTokens(scan, last, mcu, n), more, TokensOf(scan, last, mcu, m - 1));
      more := more + TokensOf(scan, last, mcu, m - 1);
    }
  }

  lemma BlockTables(scan: Scan, t: CTables, last: seq<int>, mcu: Mcu, n: nat)
    requires ValidScan(scan) && ValidMcu(scan, mcu) && |last| == |scan.comps| && n < |mcu|
    ensures n < |scan.membership| && scan.membership[n] < |scan.comps| && |mcu[n]| == DCTSIZE2
    ensures var c := scan.comps[scan.membership[n]];
            && c.dc_tbl_no < NUM_HUFF_TBLS && c.ac_tbl_no < NUM_HUFF_TBLS
            && TokensOf(scan, last, mcu, n)
                 == BlockTokens(Reorder(mcu[n]), PredictionFor(scan, last, mcu, n), c.dc_tbl_no, c.ac_tbl_no)
    ensures PredictionFor(scan, last, mcu, n) == Predictions(scan, last, mcu, n)[scan.membership[n]]
    ensures Predictions(scan, last, mcu, n + 1)
        == Predictions(scan, last, mcu, n)[scan.membership[n] := mcu[n][0] as int]
  {
  }

  lemma NoBlocks(scan: Scan, t: CTables, last: seq<int>, mcu: Mcu, w: BitWriter)
    requires ValidScan(scan) && ValidMcu(scan, mcu) && |last| == |scan.comps| && w.Valid() && SaneTables(t)
    ensures Sent(w, t, w.bits, McuTokens(scan, last, mcu, 0)) && McuInRange(scan, last, mcu, 0)
    ensures Predictions(scan, last, mcu, 0) == last && |mcu| == |scan.membership|
  {
    assert w.bits + TokensBits(t, []) == w.bits;
  }

  // The blocks of an MCU, one after the other.
  method EncodeBlocks(w: BitWriter, scan: Scan, t: CTables, last0: seq<int>, mcu: Mcu)
    returns (st: Status, last: seq<int>)
    requires ValidScan(scan) && ValidMcu(scan, mcu) && |last0| == |scan.comps| && w.Valid() && SaneTables(t)
    modifies w
    ensures SpaceOf(w) == old(SpaceOf(w))
    ensures Outcome(w, t, old(w.bits), McuTokens(scan, last0, mcu, |mcu|), McuInRange(scan, last0, mcu, |mcu|), st)
    ensures st.Done? ==> last == Predictions(scan, last0, mcu, |mcu|)
  {
    hide *;
    last := last0;
    Limits();
    NoBlocks(scan, t, last0, mcu, w);
    ghost var b0 := w.bits;
    for blkn := 0 to |mcu|
      invariant SpaceOf(w) == old(SpaceOf(w))
      invariant Sent(w, t, b0, McuTokens(scan, last0, mcu, blkn)) && McuInRange(scan, last0, mcu, blkn)
      invariant last == Predictions(scan, last0, mcu, blkn)
    {
      BlockTables(scan, t, last0, mcu, blkn);
      McuTokensNext(scan, last0, mcu, blkn);
      var ci := scan.membership[blkn];
      var comp := scan.comps[ci];
      st := EncodeOneBlock(w, t, mcu[blkn], last[ci], comp.dc_tbl_no, comp.ac_tbl_no, b0,
                           McuTokens(scan, last0, mcu, blkn));
      ghost var fits := InRange(Reorder(mcu[blkn]), PredictionFor(scan, last0, mcu, blkn));
      if !st.Done? {
        ghost var more := McuTokensPrefix(scan, last0, mcu, blkn + 1, |mcu|);
        OutcomeStop(w, t, b0, McuTokens(scan, last0, mcu, blkn + 1), more, fits, McuInRange(scan, last0, mcu, |mcu|),
                    st);
        return;
      }
      OutcomeDone(w, t, b0, McuTokens(scan, last0, mcu, blkn + 1), fits, st);
      last := last[ci := mcu[blkn][0] as int];
    }
    st := Done;
    OutcomeNothing(w, t, b0, McuTokens(scan, last0, mcu, |mcu|));
  }

  // ----- the encoder -----

  // Continuing an open segment in a fresh writer that holds only its leftover bits.
  lemma Continued(s: State, x: Bits)
    ensures Written(s) + Emitted(Rest(s.bits) + x) == s.closed + Emitted(s.bits + x)
    ensures Rest(Rest(s.bits) + x) == Rest(s.bits + x)
  {
    EmittedAppend(s.closed, Written(s), s.bits, x);
  }

  // A writer with finished bytes c and open bits b carries on from state s as from state s1.
  ghost predicate Loaded(c: seq<Byte>, b: Bits, s: State, s1: State) {
    forall x: Bits {:trigger b + x} ::
      Written(s) + (c + Emitted(b + x)) == s1.closed + Emitted(s1.bits + x) && Rest(b + x) == Rest(s1.bits + x)
  }

  // No restart: the writer goes on with the open segment.
  lemma LoadedOpen(s: State)
    ensures Loaded([], Rest(s.bits), s, s)
  {
    var b := Rest(s.bits);
    forall x: Bits {:trigger b + x}
      ensures Written(s) + ([] + Emitted(b + x)) == s.closed + Emitted(s.bits + x)
      ensures Rest(b + x) == Rest(s.bits + x)
    {
      Continued(s, x);
      assert [] + Emitted(b + x) == Emitted(b + x);
    }
  }

  // After a restart: the writer has finished the open segment and started a new one.
  lemma LoadedRestart(s: State, s1: State, m: seq<Byte>)
    requires s1.bits == [] && s1.closed == s.closed + Flushed(s.bits) + m
    ensures Loaded(Flushed(Rest(s.bits)) + m, [], s, s1)
    ensures Written(s) + (Flushed(Rest(s.bits)) + m) == s1.closed
  {
    var c := Flushed(Rest(s.bits)) + m;
    Continued(s, Ones(7));
    assert Written(s) + c == s1.closed by {
      Assoc(Written(s), Flushed(Rest(s.bits)), m);
    }
    forall x: Bits {:trigger [] + x}
      ensures Written(s) + (c + Emitted([] + x)) == s1.closed + Emitted(s1.bits + x)
      ensures Rest([] + x) == Rest(s1.bits + x)
    {
      Assoc(Written(s), c, Emitted([] + x));
    }
  }

  lemma LoadedAt(c: seq<Byte>, b: Bits, s: State, s1: State, x: Bits)
    requires Loaded(c, b, s, s1)
    ensures Written(s) + (c + Emitted(b + x)) == s1.closed + Emitted(s1.bits + x) && Rest(b + x) == Rest(s1.bits + x)
  {
    var y := b + x;
  }

  // The entropy encoder with its saved state and its destination: dest is what
  // has been written for good, free_in_buffer the room left behind it.
  class SeqEncoder {
    const scan: Scan
    const tables: CTables
    const suspending: bool
    const bufferSize: nat
    var put_buffer: Word32
    var put_bits: nat
    var last_dc_val: seq<int>
    var restarts_to_go: nat
    var next_restart_num: nat
    var dest: seq<Byte>
    var free_in_buffer: nat
    ghost var closed: seq<Byte>
    ghost var bits: Bits

    ghost function Abstract(): State
      reads this
    {
      State(last_dc_val, restarts_to_go, next_restart_num, closed, bits)
    }

    ghost predicate Valid()
      reads this
    {
      && ValidScan(scan) && SaneTables(tables) && ValidState(scan, Abstract())
      && put_bits == |Rest(bits)| && Holds(put_buffer, Rest(bits))
      && dest == Written(Abstract()) && free_in_buffer > 0 && bufferSize > 0
    }

    // start_pass_huff
    constructor (scan: Scan, tables: CTables, suspending: bool, bufferSize: nat, free: nat)
      requires ValidScan(scan) && SaneTables(tables) && bufferSize > 0 && free > 0
      ensures Valid() && Abstract() == Start(scan) && dest == [] && free_in_buffer == free
      ensures this.scan == scan && this.tables == tables && this.suspending == suspending
      ensures this.bufferSize == bufferSize
    {
      this.scan, this.tables, this.suspending, this.bufferSize := scan, tables, suspending, bufferSize;
      put_buffer, put_bits := 0, 0;
      last_dc_val := NoPredictions(scan);
      restarts_to_go := scan.restart_interval;
      next_restart_num := 0;
      dest, free_in_buffer := [], free;
      closed, bits := [], [];
      HoldsNothing();
    }

    // The bytes of the MCU stay below the free room.
    ghost predicate Room(mcu: Mcu)
      requires Valid() && ValidMcu(scan, mcu) && Encodable(scan, tables, Abstract(), mcu)
      reads this
    {
      suspending ==> |Written(AfterMcu(scan, tables, Abstract(), mcu))| - |dest| < free_in_buffer
    }

    ghost predicate Accepts(mcu: Mcu)
      requires Valid() && ValidMcu(scan, mcu)
      reads this
    {
      Encodable(scan, tables, Abstract(), mcu) && Room(mcu)
    }

    // The writer for the next MCU, after the restart marker if one is due.
    method LoadWriter() returns (ok: bool, w: BitWriter, last: seq<int>)
      requires Valid()
      ensures fresh(w) && SpaceOf(w).suspending == suspending
      ensures !ok ==> suspending && |AfterRestart(scan, Abstract()).closed| - |dest| >= free_in_buffer
      ensures ok ==> w.Valid() && Loaded(SpaceOf(w).closed, w.bits, Abstract(), AfterRestart(scan, Abstract()))
      ensures ok ==> SpaceOf(w).room == free_in_buffer && last == AfterRestart(scan, Abstract()).last
    {
      hide Emitted, Rest, Flushed, Holds, Loaded, SaneTables, ValidScan, Written;
      w := new BitWriter(suspending, bufferSize, free_in_buffer, put_buffer, put_bits, Rest(bits));
      last := last_dc_val;
      ok := true;
      if scan.restart_interval != 0 && restarts_to_go == 0 {
        ghost var m: seq<Byte> := [0xFF, RST0 + next_restart_num];
        LoadedRestart(Abstract(), AfterRestart(scan, Abstract()), m);
        assert w.closed + (Flushed(Rest(bits)) + m) == Flushed(Rest(bits)) + m;
        ok := EmitRestart(w, next_restart_num);
        last := NoPredictions(scan);
      } else {
        LoadedOpen(Abstract());
      }
    }

    lemma NoRoom(mcu: Mcu)
      requires Valid() && ValidMcu(scan, mcu)
      requires suspending && |AfterRestart(scan, Abstract()).closed| - |dest| >= free_in_buffer
      ensures !Accepts(mcu)
    {
    }

    // What the writer sends is what the MCU adds.
    lemma McuFits(w: BitWriter, mcu: Mcu)
      requires Valid() && ValidMcu(scan, mcu)
      requires Loaded(SpaceOf(w).closed, w.bits, Abstract(), AfterRestart(scan, Abstract()))
      requires SpaceOf(w).room == free_in_buffer && SpaceOf(w).suspending == suspending
      ensures var s1 := AfterRestart(scan, Abstract());
              var toks := McuTokens(scan, s1.last, mcu, |mcu|);
              McuInRange(scan, s1.last, mcu, |mcu|) && CanSend(SpaceOf(w), tables, w.bits, toks) <==> Accepts(mcu)
    {
      var s1 := AfterRestart(scan, Abstract());
      var toks := McuTokens(scan, s1.last, mcu, |mcu|);
      if AllSendable(tables, toks) {
        LoadedAt(w.closed, w.bits, Abstract(), s1, TokensBits(tables, toks));
      }
    }

    // The writer's state is the one to be saved.
    lemma CommitFacts(w: BitWriter, mcu: Mcu, b0: Bits)
      requires Valid() && ValidMcu(scan, mcu) && Accepts(mcu)
      requires Loaded(SpaceOf(w).closed, b0, Abstract(), AfterRestart(scan, Abstract()))
      requires SpaceOf(w).room == free_in_buffer && SpaceOf(w).suspending == suspending
      requires Sent(w, tables, b0, McuTokens(scan, AfterRestart(scan, Abstract()).last, mcu, |mcu|))
      ensures var s2 := AfterMcu(scan, tables, Abstract(), mcu);
              && dest + w.output == Written(s2) && w.put_bits == |Rest(s2.bits)| && Holds(w.put_buffer, Rest(s2.bits))
      ensures w.free_in_buffer > 0 && (suspending ==> |w.output| + w.free_in_buffer == free_in_buffer)
    {
      hide Predictions, McuTokens, TokensBits, Emitted, Rest, Flushed, Holds, Encodable;
      var s1 := AfterRestart(scan, Abstract());
      LoadedAt(w.closed, b0, Abstract(), s1, TokensBits(tables, McuTokens(scan, s1.last, mcu, |mcu|)));
    }

    lemma RestartCounters(mcu: Mcu)
      requires Valid() && ValidMcu(scan, mcu) && Accepts(mcu)
      ensures var s1, s2 := AfterRestart(scan, Abstract()), AfterMcu(scan, tables, Abstract(), mcu);
              && Encodable(scan, tables, Abstract(), mcu)
              && s2.last == Predictions(scan, s1.last, mcu, |mcu|)
              && ValidState(scan, s2)
              && if scan.restart_interval == 0 then
                   s2.restarts_to_go == restarts_to_go && s2.next_restart_num == next_restart_num
                 else if restarts_to_go == 0 then
                   s2.restarts_to_go == scan.restart_interval - 1 && s2.next_restart_num == (next_restart_num + 1) % 8
                 else
                   s2.restarts_to_go == restarts_to_go - 1 && s2.next_restart_num == next_restart_num
    {
      hide McuTokens, Predictions, TokensBits, Emitted, Flushed, Rest, McuInRange, Written, Holds;
    }

    // Makes what the writer did permanent.
    method Commit(w: BitWriter, last: seq<int>, mcu: Mcu, ghost b0: Bits)
      requires Valid() && ValidMcu(scan, mcu) && Accepts(mcu)
      requires Loaded(SpaceOf(w).closed, b0, Abstract(), AfterRestart(scan, Abstract()))
      requires SpaceOf(w).room == free_in_buffer && SpaceOf(w).suspending == suspending
      requires Sent(w, tables, b0, McuTokens(scan, AfterRestart(scan, Abstract()).last, mcu, |mcu|))
      requires last == Predictions(scan, AfterRestart(scan, Abstract()).last, mcu, |mcu|)
      modifies this
      ensures Valid() && Abstract() == AfterMcu(scan, tables, old(Abstract()), mcu)
      ensures suspending ==> free_in_buffer == old(free_in_buffer) - (|dest| - |old(dest)|)
    {
      hide Predictions, McuTokens, TokensBits, Emitted, Rest, Flushed, Holds, Encodable, AfterMcu, AfterRestart, Sent,
        Loaded, ValidMcu, ValidState, Written, Accepts, ValidScan, SaneTables;
      CommitFacts(w, mcu, b0);
      RestartCounters(mcu);
      ghost var s2 := AfterMcu(scan, tables, Abstract(), mcu);
      dest := dest + w.output;
      free_in_buffer := w.free_in_buffer;
      put_buffer, put_bits := w.put_buffer, w.put_bits;
      last_dc_val := last;
      if scan.restart_interval != 0 {
        if restarts_to_go == 0 {
          restarts_to_go := scan.restart_interval;
          next_restart_num := (next_restart_num + 1) % 8;
        }
        restarts_to_go := restarts_to_go - 1;
      }
      closed, bits := s2.closed, s2.bits;
    }

    lemma ReadyFor(mcu: Mcu)
      requires Valid() && ValidMcu(scan, mcu)
      ensures ValidScan(scan) && SaneTables(tables) && ValidState(scan, Abstract())
      ensures var s1 := AfterRestart(scan, Abstract());
              && |s1.last| == |scan.comps|
              && (Encodable(scan, tables, Abstract(), mcu) <==>
                   McuInRange(scan, s1.last, mcu, |mcu|) && AllSendable(tables, McuTokens(scan, s1.last, mcu, |mcu|)))
    {
    }

    // encode_mcu_huff: all of the MCU, or nothing of it.
    method EncodeMcu(mcu: Mcu) returns (st: Status)
      requires Valid() && ValidMcu(scan, mcu)
      modifies this
      ensures Valid()
      ensures st.Done? <==> old(Accepts(mcu))
      ensures st.Done? ==> Abstract() == AfterMcu(scan, tables, old(Abstract()), mcu)
      ensures st.Done? && suspending ==> free_in_buffer == old(free_in_buffer) - (|dest| - |old(dest)|)
      ensures !st.Done? ==> unchanged(this)
      ensures st.Failed? ==> old(!Encodable(scan, tables, Abstract(), mcu))
      ensures st.Suspended? ==> suspending
    {
      hide *;
      ReadyFor(mcu);
      var ok, w, last := LoadWriter();
      if !ok {
        NoRoom(mcu);
        return Suspended;
      }
      ghost var b0 := w.bits;
      McuFits(w, mcu);
      ghost var toks, fits := McuTokens(scan, last, mcu, |mcu|), McuInRange(scan, last, mcu, |mcu|);
      st, last := EncodeBlocks(w, scan, tables, last, mcu);
      OutcomeMeans(w, tables, b0, toks, fits, st);
      if st.Done? {
        Commit(w, last, mcu, b0);
      }
    }

    // The application takes the bytes and hands over free bytes of room.
    method MakeRoom(free: nat)
      requires Valid() && free > 0
      modifies this`free_in_buffer
      ensures Valid() && free_in_buffer == free && Abstract() == old(Abstract())
    {
      free_in_buffer := free;
    }

    // finish_pass_huff: nobody can ask it to try again, so running out of room is fatal.
    method FinishPass() returns (st: Status)
      requires Valid()
      modifies this
      ensures Valid()
      ensures st.Done? <==> !suspending || |Finished(old(Abstract()))| - |old(dest)| < old(free_in_buffer)
      ensures st.Done? ==> dest == Finished(old(Abstract())) && put_bits == 0
      ensures !st.Done? ==> st == Failed(CantSuspend) && dest == old(dest)
    {
      hide Emitted, Rest, Holds, SaneTables, ValidScan;
      Continued(Abstract(), Ones(7));
      var w := new BitWriter(suspending, bufferSize, free_in_buffer, put_buffer, put_bits, Rest(bits));
      var ok := w.FlushBits();
      if !ok {
        return Failed(CantSuspend);
      }
      dest := dest + w.output;
      free_in_buffer := w.free_in_buffer;
      put_buffer, put_bits := w.put_buffer, w.put_bits;
      closed, bits := dest, [];
      NothingOpen();
      return Done;
    }
  }

  lemma NothingOpen()
    ensures Emitted([]) == [] && Rest([]) == []
  {
  }

  // The encoder has done the first n MCUs of the scan.
  ghost predicate DoneWith(e: SeqEncoder, mcus: seq<Mcu>, n: nat)
    reads e
  {
    && e.Valid() && n <= |mcus| && AllEncodable(e.scan, e.tables, mcus, n)
    && e.Abstract() == StateAt(e.scan, e.tables, mcus, n)
  }

  lemma DoneWithNone(e: SeqEncoder, mcus: seq<Mcu>)
    requires e.Valid() && e.Abstract() == Start(e.scan)
    ensures DoneWith(e, mcus, 0)
  {
  }

  lemma DoneWithNext(e: SeqEncoder, mcus: seq<Mcu>, n: nat)
    requires DoneWith(e, mcus, n) && n < |mcus| && AllEncodable(e.scan, e.tables, mcus, |mcus|)
    ensures e.Valid() && e.Abstract() == StateAt(e.scan, e.tables, mcus, n)
    ensures ValidMcu(e.scan, mcus[n]) && Encodable(e.scan, e.tables, e.Abstract(), mcus[n])
    ensures AllEncodable(e.scan, e.tables, mcus, n + 1)
    ensures StateAt(e.scan, e.tables, mcus, n + 1) == AfterMcu(e.scan, e.tables, e.Abstract(), mcus[n])
  {
    AllEncodablePrefix(e.scan, e.tables, mcus, n, |mcus|);
    AllEncodablePrefix(e.scan, e.tables, mcus, n + 1, |mcus|);
  }

  lemma DoneWithMore(e: SeqEncoder, mcus: seq<Mcu>, n: nat)
    requires e.Valid() && n <= |mcus| && AllEncodable(e.scan, e.tables, mcus, n)
    requires e.Abstract() == StateAt(e.scan, e.tables, mcus, n)
    ensures DoneWith(e, mcus, n)
  {
  }

  lemma DoneWithBytes(e: SeqEncoder, mcus: seq<Mcu>, n: nat)
    requires DoneWith(e, mcus, n)
    ensures n <= |mcus| && AllEncodable(e.scan, e.tables, mcus, n)
    ensures e.dest == Written(StateAt(e.scan, e.tables, mcus, n))
  {
  }

  // Drives the encoder over a scan: whenever it suspends, the application takes
  // what was written and hands over the next portion of room. The bytes depend
  // on the MCUs alone, not on the portions.
  method EncodeScan(e: SeqEncoder, mcus: seq<Mcu>, rooms: seq<nat>) returns (done: nat)
    requires e.Valid() && e.Abstract() == Start(e.scan) && AllEncodable(e.scan, e.tables, mcus, |mcus|)
    requires forall i | 0 <= i < |rooms| :: rooms[i] > 0
    modifies e
    ensures DoneWith(e, mcus, done)
    ensures e.dest == Written(StateAt(e.scan, e.tables, mcus, done))
    ensures done < |mcus| ==> e.suspending && !e.Accepts(mcus[done])
  {
    hide *;
    done := 0;
    var i := 0;
    DoneWithNone(e, mcus);
    while done < |mcus|
      invariant 0 <= i <= |rooms| && done <= |mcus| && DoneWith(e, mcus, done)
      decreases |mcus| - done, |rooms| - i
    {
      DoneWithNext(e, mcus, done);
      var st := e.EncodeMcu(mcus[done]);
      if st.Done? {
        done := done + 1;
        DoneWithMore(e, mcus, done);
      } else if i < |rooms| {
        e.MakeRoom(rooms[i]);
        i := i + 1;
        DoneWithMore(e, mcus, done);
      } else {
        DoneWithMore(e, mcus, done);
        DoneWithBytes(e, mcus, done);
        return;
      }
    }
    DoneWithBytes(e, mcus, done);
  }
}
