// The progressive Huffman encoder (jcphuff.c): the four encode_mcu routines,
// emit_eobrun, emit_restart and the two finish routines.
module ProgEncoder {
  import opened Arith
  import opened Bits
  import opened Errors
  import opened Tokens
  import opened Blocks
  import opened SeqCodec
  import opened BitWriter
  import opened TokenWriter
  import opened McuCodec
  import opened ProgCodec
  import opened ProgRefine
  import opened ProgBands
  import opened ProgScan
  import opened ProgEmitter
  import SeqEncoder

  // ----- held EOBs -----

  // What has been emitted of a block whose symbols so far are x: the held EOBs come first.
  function Led(e: Held, x: seq<Token>, tbl: nat): seq<Token> {
    if x == [] then [] else Release(e, tbl) + x
  }

  // What is still held then.
  function StillHeld(e: Held, x: seq<Token>): Held {
    if x == [] then e else NoneHeld()
  }

  lemma LedNext(e: Held, x: seq<Token>, v: seq<Token>, tbl: nat, more: seq<Token>)
    requires v != []
    ensures Led(e, x, tbl) + Release(StillHeld(e, x), tbl) + v == Led(e, x + v, tbl)
    ensures x + v != [] && x + v + more == x + (v + more)
    ensures StillHeld(e, x + v) == NoneHeld()
  {
    hide EobTokens, RawBits;
    if x == [] {
      assert x + v == v;
    } else {
      assert Release(NoneHeld(), tbl) == [];
      Assoc(Release(e, tbl), x, v);
    }
  }

  // A whole block, by the symbols x it sends.
  lemma LedAll(e: Held, code: Coded, tbl: nat)
    ensures var s := BandStep(e, code, tbl);
            var e1 := StillHeld(e, code.toks);
            if !code.eob then s == (Led(e, code.toks, tbl), e1)
            else if Overfull(Hold(e1, code.tail)) then
              s == (Led(e, code.toks, tbl) + Release(Hold(e1, code.tail), tbl), NoneHeld())
            else s == (Led(e, code.toks, tbl), Hold(e1, code.tail))
  {
    hide Overfull, EobTokens, RawBits;
  }

  // The held EOBs in the encoder's own terms.
  ghost predicate HeldIn(e: Held, eobrun: nat, be: nat, buffer: seq<bool>) {
    e.run == eobrun && be == |e.bits| <= |buffer| && buffer[..be] == e.bits
  }

  // emit_eobrun: the EOB symbol and its bits, then the correction bits.
  method EmitEobrun(em: Emitter, tbl: nat, eobrun: nat, be: nat, bit_buffer: array<bool>,
                    ghost e: Held, ghost s0: seq<Token>, ghost a0: seq<Token>, ghost sent: seq<Token>)
    returns (st: Status)
    requires HasEmitted(em, s0, a0, sent) && tbl < NUM_HUFF_TBLS && !em.isDC
    requires HeldIn(e, eobrun, be, bit_buffer[..]) && eobrun <= 0x7FFF
    modifies em, em.w, em.count_ptrs
    ensures SpaceOf(em.w) == old(SpaceOf(em.w))
    ensures bit_buffer[..] == old(bit_buffer[..])
    ensures EmitOutcome(em, s0, a0, sent + Release(e, tbl), true, st)
    ensures st.Failed? ==> st.error == HuffMissingCode
  {
    hide HasEmitted, EmitOutcome, SpaceOf, EobTokens, RawBits, NBits, Release, Pow2, ToBits, Val;
    if eobrun > 0 {
      var temp: nat, nbits: nat := eobrun / 2, 0;
      NBitsHalf(eobrun);
      while temp != 0
        invariant nbits + NBits(temp) == NBits(eobrun) - 1
        modifies {}
      {
        NBitsHalf(temp);
        temp := temp / 2;
        nbits := nbits + 1;
      }
      NBitsZero();
      EobValue(eobrun, nbits);
      if nbits > 14 {
        // The safety check: JERR_HUFF_MISSING_CODE cannot happen here.
        assert false;
      }
      ReleaseParts(e, tbl, nbits, sent);
      ghost var sym, raw := [Sym(AC(tbl), 16 * nbits)], if nbits > 0 then [Raw(eobrun, nbits)] else [];
      st := PutSymbol(em, tbl, 16 * nbits, s0, a0, sent);
      if !st.Done? {
        EmitStop(em, s0, a0, sent + sym, raw + RawBits(e.bits), true, true, st);
        return;
      }
      EmitDone(em, s0, a0, sent + sym, true, st);
      if nbits != 0 {
        st := PutRaw(em, eobrun, nbits, s0, a0, sent + sym);
        if !st.Done? {
          EmitStop(em, s0, a0, sent + sym + raw, RawBits(e.bits), true, true, st);
          return;
        }
        EmitDone(em, s0, a0, sent + sym + raw, true, st);
      } else {
        assert sent + sym + raw == sent + sym;
      }
      assert bit_buffer[0..be] == e.bits;
      st := EmitBufferedBits(em, bit_buffer, 0, be, s0, a0, sent + sym + raw);
    } else {
      EmptyRelease(e, tbl, sent);
      EmitNothing(em, s0, a0, sent);
      st := Done;
    }
  }

  lemma NBitsHalf(n: nat)
    requires n > 0
    ensures NBits(n) == 1 + NBits(n / 2)
  {
  }

  lemma NBitsZero()
    ensures NBits(0) == 0
  {
  }

  lemma ReleaseParts(e: Held, tbl: nat, nbits: nat, sent: seq<Token>)
    requires e.run > 0 && nbits == NBits(e.run) - 1
    ensures var sym, raw := [Sym(AC(tbl), 16 * nbits)], if nbits > 0 then [Raw(e.run, nbits)] else [];
            && sent + Release(e, tbl) == sent + sym + (raw + RawBits(e.bits))
            && sent + Release(e, tbl) == sent + sym + raw + RawBits(e.bits)
  {
  }

  lemma EmptyRelease(e: Held, tbl: nat, sent: seq<Token>)
    requires e.run == 0
    ensures sent + Release(e, tbl) == sent
  {
  }

  // ----- encode_mcu_AC_first -----

  // A coefficient after a run of r0 zeros; temp is its magnitude, temp2 what is sent for it.
  method PutValue(em: Emitter, tbl: nat, temp: nat, temp2: int, r0: nat, ghost v: int,
                  ghost s0: seq<Token>, ghost a0: seq<Token>, ghost sent0: seq<Token>) returns (st: Status)
    requires HasEmitted(em, s0, a0, sent0) && tbl < NUM_HUFF_TBLS && !em.isDC
    requires v != 0 && temp == Abs(v) && temp2 == Tokens.Coded(v)
    modifies em, em.w, em.count_ptrs
    ensures SpaceOf(em.w) == old(SpaceOf(em.w))
    ensures EmitOutcome(em, s0, a0, sent0 + ValueTokens(v, r0, tbl), NBits(Abs(v)) <= MAX_COEF_BITS, st)
  {
    hide *;
    Limits();
    AcRef(em, tbl);
    var r: nat := r0;
    ghost var sent := sent0;
    while r > 15
      invariant HasEmitted(em, s0, a0, sent) && SpaceOf(em.w) == old(SpaceOf(em.w))
      invariant sent + ValueTokens(v, r, tbl) == sent0 + ValueTokens(v, r0, tbl)
    {
      SeqEncoder.ValueTokensAre(v, r, tbl, sent);
      st := PutSymbol(em, tbl, 0xF0, s0, a0, sent);
      sent := sent + [Sym(AC(tbl), 0xF0)];
      if !st.Done? {
        EmitStop(em, s0, a0, sent, ValueTokens(v, r - 16, tbl), true, NBits(Abs(v)) <= MAX_COEF_BITS, st);
        return;
      }
      EmitDone(em, s0, a0, sent, true, st);
      r := r - 16;
    }
    SeqEncoder.SomeBits(v);
    var nbits := SeqEncoder.CountBits(temp);
    if nbits > MAX_COEF_BITS {
      st := Failed(BadDctCoef);
      EmitOutOfRange(em, s0, a0, sent + ValueTokens(v, r, tbl), BadDctCoef);
      return;
    }
    SeqEncoder.ValueTokensAre(v, r, tbl, sent);
    st := PutSymbol(em, tbl, 16 * r + nbits, s0, a0, sent);
    sent := sent + [Sym(AC(tbl), 16 * r + nbits)];
    if !st.Done? {
      EmitStop(em, s0, a0, sent, [Raw(temp2, nbits)], true, true, st);
      return;
    }
    EmitDone(em, s0, a0, sent, true, st);
    st := PutRaw(em, temp2, nbits, s0, a0, sent);
  }

  lemma AcRef(em: Emitter, tbl: nat)
    ensures em.Ref(tbl) == if em.isDC then DC(tbl) else AC(tbl)
  {
  }

  // The point transform the way it is computed: shift the magnitude, then restore the sign.
  method Transform(v: Coef, Al: nat) returns (temp: nat, temp2: int)
    ensures temp == Abs(PT(v, Al)) && (PT(v, Al) != 0 ==> temp2 == Tokens.Coded(PT(v, Al)))
    ensures (temp == 0 <==> PT(v, Al) == 0)
    ensures temp == Level(v, Al)
  {
    var c: int := v;
    if c < 0 {
      temp := Quot(-c, Pow2(Al));
      temp2 := -1 - temp;
    } else {
      temp := Quot(v, Pow2(Al));
      temp2 := temp;
    }
  }

  // The coefficients below k are in range.
  ghost predicate FirstBelow(z: Block, b: Band, k: nat)
    requires |z| == DCTSIZE2 && b.Se < DCTSIZE2 && k <= b.Se + 1
  {
    forall j: nat | b.Ss <= j < k :: NBits(Abs(PT(z[j], b.Al))) <= MAX_COEF_BITS
  }

  lemma FirstBelowNext(z: Block, b: Band, k: nat)
    requires |z| == DCTSIZE2 && b.Se < DCTSIZE2 && b.Ss <= k <= b.Se && FirstBelow(z, b, k)
    ensures FirstBelow(z, b, k + 1) <==> NBits(Abs(PT(z[k], b.Al))) <= MAX_COEF_BITS
    ensures PT(z[k], b.Al) == 0 ==> FirstBelow(z, b, k + 1)
    ensures FirstInRange(z, b) ==> NBits(Abs(PT(z[k], b.Al))) <= MAX_COEF_BITS
  {
    hide PT;
  }

  lemma FirstBelowEnds(z: Block, b: Band)
    requires |z| == DCTSIZE2 && b.Se < DCTSIZE2 && b.Ss <= b.Se
    ensures FirstBelow(z, b, b.Ss) && (FirstBelow(z, b, b.Se + 1) <==> FirstInRange(z, b))
  {
    hide PT;
  }

  lemma AcFits(b: Band)
    requires ValidAc(b)
    ensures 1 <= b.Ss <= b.Se < DCTSIZE2 == 64 && b.Al <= 13 && MAX_CORR_BITS == 1000
  {
  }

  lemma ValueTokensNonempty(v: int, r: nat, tbl: nat)
    ensures ValueTokens(v, r, tbl) != []
  {
  }

  lemma FirstCode(z: Block, b: Band, tbl: nat)
    requires |z| == DCTSIZE2 && ValidAc(b) && b.Ah == 0
    ensures CodeBand(z, b, tbl) == Coded(FirstTokens(z, b.Ss, 0, b, tbl), FirstRun(z, b.Ss, 0, b) > 0, [])
    ensures BandInRange(z, b) <==> FirstInRange(z, b)
  {
  }

  // What is behind the symbols of a block.
  ghost function Remainder(e: Held, code: Coded, tbl: nat): seq<Token> {
    var e1 := StillHeld(e, code.toks);
    if code.eob && Overfull(Hold(e1, code.tail)) then Release(Hold(e1, code.tail), tbl) else []
  }

  lemma StepIs(e: Held, code: Coded, tbl: nat)
    ensures BandStep(e, code, tbl).0 == Led(e, code.toks, tbl) + Remainder(e, code, tbl)
  {
    LedAll(e, code, tbl);
  }

  // Cut off before the end of a block: the rest of what it sends.
  lemma LedCut(e: Held, code: Coded, x: seq<Token>, more: seq<Token>, tbl: nat) returns (rest: seq<Token>)
    requires x + more == code.toks && x != []
    ensures Led(e, x, tbl) + rest == BandStep(e, code, tbl).0
  {
    StepIs(e, code, tbl);
    rest := more + Remainder(e, code, tbl);
    Assoc(Release(e, tbl), x, more);
    Assoc(Led(e, x, tbl), more, Remainder(e, code, tbl));
  }

  // ... in the middle of releasing the held EOBs.
  lemma LedCutEarly(e: Held, code: Coded, x: seq<Token>, v: seq<Token>, more: seq<Token>, tbl: nat)
    returns (rest: seq<Token>)
    requires x + (v + more) == code.toks && v != []
    ensures Led(e, x, tbl) + Release(StillHeld(e, x), tbl) + rest == BandStep(e, code, tbl).0
  {
    LedNext(e, x, v, tbl, more);
    rest := LedCut(e, code, x + v, more, tbl);
    rest := v + rest;
    Assoc(Led(e, x, tbl) + Release(StillHeld(e, x), tbl), v, more + Remainder(e, code, tbl));
    var y := BandStep(e, code, tbl).0;
    assert Led(e, x + v, tbl) == Led(e, x, tbl) + Release(StillHeld(e, x), tbl) + v;
  }

  lemma HeldParts(e: Held, eobrun: nat, be: nat, buffer: seq<bool>)
    requires HeldIn(e, eobrun, be, buffer)
    ensures e.run == eobrun && be == |e.bits| <= |buffer| && buffer[..be] == e.bits
  {
  }

  // The end of a block: its EOB is held, unless something would overflow.
  method HoldBand(em: Emitter, tbl: nat, EOBRUN: nat, BE: nat, bit_buffer: array<bool>, pending: bool, BR: nat,
                  ghost e: Held, ghost code: Coded, ghost s0: seq<Token>, ghost a0: seq<Token>)
    returns (st: Status, eobrun: nat, be: nat)
    requires HasEmitted(em, s0, a0, Led(e, code.toks, tbl)) && tbl < NUM_HUFF_TBLS && !em.isDC
    requires HeldIn(StillHeld(e, code.toks), EOBRUN, BE, bit_buffer[..]) && ValidHeld(StillHeld(e, code.toks))
    requires pending == code.eob && BE + BR <= bit_buffer.Length && bit_buffer[BE..BE + BR] == code.tail
    requires (!pending ==> BR == 0)
    modifies em, em.w, em.count_ptrs
    ensures SpaceOf(em.w) == old(SpaceOf(em.w)) && bit_buffer[..] == old(bit_buffer[..])
    ensures EmitOutcome(em, s0, a0, BandStep(e, code, tbl).0, true, st)
    ensures st.Done? ==> HeldIn(BandStep(e, code, tbl).1, eobrun, be, bit_buffer[..])
  {
    hide HasEmitted, EmitOutcome, SpaceOf, EobTokens, RawBits, Release, Led, StillHeld, BandStep;
    LedAll(e, code, tbl);
    eobrun, be := EOBRUN, BE;
    ghost var sent, held := Led(e, code.toks, tbl), StillHeld(e, code.toks);
    if pending {
      eobrun := eobrun + 1;
      be := be + BR;
      held := Hold(held, code.tail);
      assert bit_buffer[..be] == bit_buffer[..BE] + bit_buffer[BE..BE + BR];
      if eobrun == 0x7FFF || be > MAX_CORR_BITS - DCTSIZE2 + 1 {
        st := EmitEobrun(em, tbl, eobrun, be, bit_buffer, held, s0, a0, sent);
        eobrun, be := 0, 0;
        return;
      }
    }
    EmitNothing(em, s0, a0, sent);
    st := Done;
  }

  // The block of an AC scan's MCU, first pass. EOBRUN and BE come and go as values.
  method EncodeAcFirst(em: Emitter, tbl: nat, b: Band, block: Block, EOBRUN: nat, BE: nat, bit_buffer: array<bool>,
                       ghost e: Held, ghost s0: seq<Token>, ghost a0: seq<Token>)
    returns (st: Status, eobrun: nat, be: nat)
    requires HasEmitted(em, s0, a0, []) && tbl < NUM_HUFF_TBLS && !em.isDC && ValidAc(b) && b.Ah == 0
    requires |block| == DCTSIZE2
    requires HeldIn(e, EOBRUN, BE, bit_buffer[..]) && ValidHeld(e)
    modifies em, em.w, em.count_ptrs
    ensures SpaceOf(em.w) == old(SpaceOf(em.w)) && bit_buffer[..] == old(bit_buffer[..])
    ensures EmitOutcome(em, s0, a0, BandStep(e, CodeBand(Reorder(block), b, tbl), tbl).0,
                        BandInRange(Reorder(block), b), st)
    ensures st.Done? ==> HeldIn(BandStep(e, CodeBand(Reorder(block), b, tbl), tbl).1, eobrun, be, bit_buffer[..])
  {
    hide *;
    Limits();
    AcFits(b);
    ghost var z, buf := Reorder(block), bit_buffer[..];
    ghost var code := CodeBand(z, b, tbl);
    FirstCode(z, b, tbl);
    FirstBelowEnds(z, b);
    LedNone(e, tbl);
    eobrun, be := EOBRUN, BE;
    var r := 0;
    ghost var x: seq<Token> := [];
    var k := b.Ss;
    while k <= b.Se
      invariant b.Ss <= k <= b.Se + 1 && SpaceOf(em.w) == old(SpaceOf(em.w)) && bit_buffer[..] == buf
      invariant HasEmitted(em, s0, a0, Led(e, x, tbl)) && HeldIn(StillHeld(e, x), eobrun, be, buf)
      invariant x + FirstTokens(z, k, r, b, tbl) == code.toks && FirstRun(z, k, r, b) == FirstRun(z, b.Ss, 0, b)
      invariant FirstBelow(z, b, k)
      decreases b.Se - k
    {
      FirstTokensParts(z, k, r, b, tbl, []);
      FirstBelowNext(z, b, k);
      var temp, temp2 := Transform(block[Natural(k)], b.Al);
      if temp == 0 {
        r := r + 1;
      } else {
        ghost var v := PT(z[k], b.Al);
        ghost var val, more := ValueTokens(v, r, tbl), FirstTokens(z, k + 1, 0, b, tbl);
        assert FirstTokens(z, k, r, b, tbl) + [] == FirstTokens(z, k, r, b, tbl) && more + [] == more;
        ValueTokensNonempty(v, r, tbl);
        LedNext(e, x, val, tbl, more);
        HeldSmall(e, x);
        HeldParts(StillHeld(e, x), eobrun, be, buf);
        ghost var sent := Led(e, x, tbl);
        st := EmitEobrun(em, tbl, eobrun, be, bit_buffer, StillHeld(e, x), s0, a0, sent);
        sent := sent + Release(StillHeld(e, x), tbl);
        if !st.Done? {
          ghost var rest := LedCutEarly(e, code, x, val, more, tbl);
          EmitStop(em, s0, a0, sent, rest, true, BandInRange(z, b), st);
          return;
        }
        EmitDone(em, s0, a0, sent, true, st);
        eobrun, be := 0, 0;
        st := PutValue(em, tbl, temp, temp2, r, v, s0, a0, sent);
        ghost var fits := NBits(Abs(v)) <= MAX_COEF_BITS;
        if !st.Done? {
          ghost var rest := LedCut(e, code, x + val, more, tbl);
          EmitStop(em, s0, a0, Led(e, x + val, tbl), rest, fits, BandInRange(z, b), st);
          return;
        }
        EmitDone(em, s0, a0, Led(e, x + val, tbl), fits, st);
        NoneHeldIn(buf);
        x := x + val;
        r := 0;
      }
      k := k + 1;
    }
    FirstTokensParts(z, k, r, b, tbl, []);
    assert FirstTokens(z, k, r, b, tbl) + [] == FirstTokens(z, k, r, b, tbl) && x + [] == x;
    HeldSmall(e, x);
    HeldParts(StillHeld(e, x), eobrun, be, buf);
    assert bit_buffer[be..be + 0] == [];
    st, eobrun, be := HoldBand(em, tbl, eobrun, be, bit_buffer, r > 0, 0, e, code, s0, a0);
  }

  lemma LedNone(e: Held, tbl: nat)
    ensures Led(e, [], tbl) == [] && StillHeld(e, []) == e
    ensures forall t: seq<Token> :: [] + t == t
  {
  }

  lemma HeldSmall(e: Held, x: seq<Token>)
    requires ValidHeld(e)
    ensures StillHeld(e, x).run < 0x7FFF && ValidHeld(StillHeld(e, x))
  {
  }

  lemma NoneHeldIn(buffer: seq<bool>)
    ensures HeldIn(NoneHeld(), 0, 0, buffer)
  {
  }

  // ----- encode_mcu_AC_refine -----

  // The pre-pass: magnitudes after the transform, and the index of the last new coefficient.
  method PrePass(b: Band, block: Block) returns (absvalues: array<nat>, EOB: nat)
    requires ValidAc(b) && |block| == DCTSIZE2
    ensures fresh(absvalues) && absvalues.Length == DCTSIZE2
    ensures forall k: nat | b.Ss <= k <= b.Se :: absvalues[k] == Level(Reorder(block)[k], b.Al)
    ensures EOB == LastNew(Reorder(block), b.Se, b)
  {
    hide Level, Natural, PT;
    absvalues := new nat[DCTSIZE2](_ => 0);
    EOB := 0;
    ghost var z := Reorder(block);
    var k := b.Ss;
    while k <= b.Se
      invariant b.Ss <= k <= b.Se + 1
      invariant forall j: nat | b.Ss <= j < k :: absvalues[j] == Level(z[j], b.Al)
      invariant EOB == LastNew(z, k - 1, b)
      decreases b.Se - k
    {
      var temp, temp2 := Transform(block[Natural(k)], b.Al);
      absvalues[k] := temp;
      if temp == 1 {
        EOB := k;
      }
      k := k + 1;
    }
  }

  // The tokens that go with a code: its symbol, the sign of a new coefficient,
  // and the correction bits before it.
  function WithCode(symbol: nat, signs: seq<Token>, br: Bits, tbl: nat): (v: seq<Token>)
    ensures v != []
  {
    [Sym(AC(tbl), symbol)] + (signs + RawBits(br))
  }

  // Sends a code, after the held EOBs. Of what cannot be sent, the whole block cannot either.
  method PutCode(em: Emitter, tbl: nat, eobrun: nat, be: nat, bit_buffer: array<bool>, symbol: nat, newly: bool,
                 sign: nat,
                 start: nat, BR: nat, ghost e: Held, ghost code: Coded, ghost x: seq<Token>, ghost more: seq<Token>,
                 ghost s0: seq<Token>, ghost a0: seq<Token>) returns (st: Status)
    requires HasEmitted(em, s0, a0, Led(e, x, tbl)) && tbl < NUM_HUFF_TBLS && !em.isDC && symbol < 256
    requires HeldIn(StillHeld(e, x), eobrun, be, bit_buffer[..]) && ValidHeld(e) && start + BR <= bit_buffer.Length
    requires x + (WithCode(symbol, if newly then [Raw(sign, 1)] else [], bit_buffer[start..start + BR], tbl) + more)
        == code.toks
    modifies em, em.w, em.count_ptrs
    ensures SpaceOf(em.w) == old(SpaceOf(em.w)) && bit_buffer[..] == old(bit_buffer[..])
    ensures st.Done? ==> HasEmitted(em, s0, a0,
      Led(e, x + WithCode(symbol, if newly then [Raw(sign, 1)] else [], old(bit_buffer[start..start + BR]), tbl), tbl))
    ensures !st.Done? ==> EmitOutcome(em, s0, a0, BandStep(e, code, tbl).0, true, st)
  {
    hide *;
    ghost var buf, br := bit_buffer[..], bit_buffer[start..start + BR];
    ghost var signs: seq<Token> := if newly then [Raw(sign, 1)] else [];
    ghost var sym, raws := [Sym(AC(tbl), symbol)], RawBits(br);
    AcRef(em, tbl);
    CodeParts(symbol, signs, br, tbl, x, more);
    HeldSmall(e, x);
    HeldParts(StillHeld(e, x), eobrun, be, buf);
    LedNext(e, x, sym, tbl, signs + (raws + more));
    ghost var sent := Led(e, x, tbl);
    st := EmitEobrun(em, tbl, eobrun, be, bit_buffer, StillHeld(e, x), s0, a0, sent);
    sent := sent + Release(StillHeld(e, x), tbl);
    if !st.Done? {
      ghost var rest := LedCutEarly(e, code, x, sym, signs + (raws + more), tbl);
      EmitStop(em, s0, a0, sent, rest, true, true, st);
      return;
    }
    EmitDone(em, s0, a0, sent, true, st);
    st := PutSymbol(em, tbl, symbol, s0, a0, sent);
    if !st.Done? {
      ghost var rest := LedCut(e, code, x + sym, signs + (raws + more), tbl);
      EmitStop(em, s0, a0, Led(e, x + sym, tbl), rest, true, true, st);
      return;
    }
    EmitDone(em, s0, a0, Led(e, x + sym, tbl), true, st);
    LedMore(e, x + sym, signs, tbl);
    if newly {
      st := PutRaw(em, sign, 1, s0, a0, Led(e, x + sym, tbl));
      if !st.Done? {
        ghost var rest := LedCut(e, code, x + sym + signs, raws + more, tbl);
        EmitStop(em, s0, a0, Led(e, x + sym + signs, tbl), rest, true, true, st);
        return;
      }
      EmitDone(em, s0, a0, Led(e, x + sym + signs, tbl), true, st);
    }
    LedMore(e, x + sym + signs, raws, tbl);
    assert bit_buffer[start..start + BR] == buf[start..start + BR];
    st := EmitBufferedBits(em, bit_buffer, start, BR, s0, a0, Led(e, x + sym + signs, tbl));
    if !st.Done? {
      ghost var rest := LedCut(e, code, x + sym + signs + raws, more, tbl);
      EmitStop(em, s0, a0, Led(e, x + sym + signs + raws, tbl), rest, true, true, st);
      return;
    }
    EmitDone(em, s0, a0, Led(e, x + sym + signs + raws, tbl), true, st);
  }

  lemma LedMore(e: Held, x: seq<Token>, v: seq<Token>, tbl: nat)
    requires x != []
    ensures Led(e, x, tbl) + v == Led(e, x + v, tbl) && x + v != []
  {
    Assoc(Release(e, tbl), x, v);
  }

  lemma CodeParts(symbol: nat, signs: seq<Token>, br: Bits, tbl: nat, x: seq<Token>, more: seq<Token>)
    ensures var sym, raws := [Sym(AC(tbl), symbol)], RawBits(br);
            && x + (WithCode(symbol, signs, br, tbl) + more) == x + (sym + (signs + (raws + more)))
            && x + (WithCode(symbol, signs, br, tbl) + more) == x + sym + (signs + (raws + more))
            && x + (WithCode(symbol, signs, br, tbl) + more) == x + sym + signs + (raws + more)
            && x + (WithCode(symbol, signs, br, tbl) + more) == x + sym + signs + raws + more
            && x + WithCode(symbol, signs, br, tbl) == x + sym + signs + raws
            && sym != [] && x + sym != [] && x + sym + signs != [] && x + sym + signs + raws != []
            && (signs == [] ==> x + sym + signs == x + sym)
  {
    hide RawBits;
  }

  lemma RefineCode(z: Block, b: Band, tbl: nat)
    requires |z| == DCTSIZE2 && ValidAc(b) && b.Ah != 0
    ensures var e := RefineTail(z, b.Ss, 0, [], b);
            CodeBand(z, b, tbl) == Coded(RefineTokens(z, b.Ss, 0, [], b, tbl), e.0 > 0 || e.1 != [], e.1)
    ensures BandInRange(z, b)
  {
  }

  // Where the main loop stands: x has been sent, r zeros and the correction bits
  // br are pending; br follows the held bits, if these have not been sent.
  ghost predicate Refined(z: Block, b: Band, tbl: nat, code: Coded, x: seq<Token>, k: nat, r: nat, br: Bits) {
    && |z| == DCTSIZE2 && ValidAc(b) && b.Ss <= k <= b.Se + 1
    && x + RefineTokens(z, k, r, br, b, tbl) == code.toks
    && RefineTail(z, k, r, br, b) == RefineTail(z, b.Ss, 0, [], b)
    && |br| <= k - b.Ss
  }

  lemma RefinedStart(z: Block, b: Band, tbl: nat)
    requires |z| == DCTSIZE2 && ValidAc(b) && b.Ah != 0
    ensures Refined(z, b, tbl, CodeBand(z, b, tbl), [], b.Ss, 0, [])
  {
    RefineCode(z, b, tbl);
    assert [] + RefineTokens(z, b.Ss, 0, [], b, tbl) == RefineTokens(z, b.Ss, 0, [], b, tbl);
  }

  lemma RefinedZero(z: Block, b: Band, tbl: nat, code: Coded, x: seq<Token>, k: nat, r: nat, br: Bits)
    requires Refined(z, b, tbl, code, x, k, r, br) && k <= b.Se && Level(z[k], b.Al) == 0
    ensures Refined(z, b, tbl, code, x, k + 1, r + 1, br)
  {
    RefineTokensParts(z, k, r, br, b, tbl, []);
  }

  lemma RefinedKnown(z: Block, b: Band, tbl: nat, code: Coded, x: seq<Token>, k: nat, r: nat, br: Bits)
    requires Refined(z, b, tbl, code, x, k, r, br) && k <= b.Se && Level(z[k], b.Al) > 1
    requires !(r > 15 && k <= LastNew(z, b.Se, b))
    ensures Refined(z, b, tbl, code, x, k + 1, r, br + [Level(z[k], b.Al) % 2 == 1])
  {
    RefineTokensParts(z, k, r, br, b, tbl, []);
  }

  lemma RefinedRun(z: Block, b: Band, tbl: nat, code: Coded, x: seq<Token>, k: nat, r: nat, br: Bits)
    returns (more: seq<Token>)
    requires Refined(z, b, tbl, code, x, k, r, br) && k <= b.Se && Level(z[k], b.Al) != 0 && r > 15
    requires k <= LastNew(z, b.Se, b)
    ensures x + (WithCode(0xF0, [], br, tbl) + more) == code.toks
    ensures Refined(z, b, tbl, code, x + WithCode(0xF0, [], br, tbl), k, r - 16, [])
  {
    RefineTokensParts(z, k, r, br, b, tbl, []);
    more := RefineTokens(z, k, r - 16, [], b, tbl);
    CodeParts(0xF0, [], br, tbl, x, more);
    assert more + [] == more && RefineTokens(z, k, r, br, b, tbl) + [] == RefineTokens(z, k, r, br, b, tbl);
    assert [] + (RawBits(br) + more) == RawBits(br) + more;
  }

  lemma RefinedNew(z: Block, b: Band, tbl: nat, code: Coded, x: seq<Token>, k: nat, r: nat, br: Bits)
    returns (more: seq<Token>)
    requires Refined(z, b, tbl, code, x, k, r, br) && k <= b.Se && Level(z[k], b.Al) == 1
    requires !(r > 15 && k <= LastNew(z, b.Se, b))
    ensures r <= 15
    ensures var v := WithCode(16 * r + 1, [Raw(if z[k] < 0 then 0 else 1, 1)], br, tbl);
            x + (v + more) == code.toks && Refined(z, b, tbl, code, x + v, k + 1, 0, [])
  {
    RefineTokensParts(z, k, r, br, b, tbl, []);
    more := RefineTokens(z, k + 1, 0, [], b, tbl);
    CodeParts(16 * r + 1, [Raw(if z[k] < 0 then 0 else 1, 1)], br, tbl, x, more);
    assert more + [] == more && RefineTokens(z, k, r, br, b, tbl) + [] == RefineTokens(z, k, r, br, b, tbl);
  }

  lemma RefinedEnd(z: Block, b: Band, tbl: nat, x: seq<Token>, r: nat, br: Bits)
    requires |z| == DCTSIZE2 && ValidAc(b) && b.Ah != 0 && Refined(z, b, tbl, CodeBand(z, b, tbl), x, b.Se + 1, r, br)
    ensures CodeBand(z, b, tbl) == Coded(x, r > 0 || br != [], br)
  {
    RefineCode(z, b, tbl);
    RefineTokensParts(z, b.Se + 1, r, br, b, tbl, []);
    assert x + [] == x && RefineTokens(z, b.Se + 1, r, br, b, tbl) + [] == RefineTokens(z, b.Se + 1, r, br, b, tbl);
  }

  lemma RefinedBounds(z: Block, b: Band, tbl: nat, code: Coded, x: seq<Token>, k: nat, r: nat, br: Bits, e: Held)
    requires Refined(z, b, tbl, code, x, k, r, br) && ValidHeld(e)
    ensures b.Ss <= k <= b.Se + 1 && |br| <= k - b.Ss && |StillHeld(e, x).bits| + |br| <= MAX_CORR_BITS
    ensures k <= b.Se ==> |StillHeld(e, x).bits| + |br| < MAX_CORR_BITS
  {
  }

  // The correction bits br in the buffer, from start on.
  ghost predicate BitsAt(buffer: seq<bool>, start: nat, n: nat, br: Bits) {
    start + n <= |buffer| && buffer[start..start + n] == br
  }

  // One more correction bit.
  lemma BitAdded(buffer: seq<bool>, start: nat, n: nat, br: Bits, bit: bool, e: Held, eobrun: nat, be: nat)
    requires BitsAt(buffer, start, n, br) && start + n < |buffer| && be <= start && HeldIn(e, eobrun, be, buffer)
    ensures BitsAt(buffer[start + n := bit], start, n + 1, br + [bit])
    ensures HeldIn(e, eobrun, be, buffer[start + n := bit])
  {
    assert buffer[start + n := bit][start..start + n + 1] == buffer[start..start + n] + [bit];
  }

  // The block of an AC scan's MCU, refinement.
  method EncodeAcRefine(em: Emitter, tbl: nat, b: Band, block: Block, EOBRUN: nat, BE: nat, bit_buffer: array<bool>,
                        ghost e: Held, ghost s0: seq<Token>, ghost a0: seq<Token>)
    returns (st: Status, eobrun: nat, be: nat)
    requires HasEmitted(em, s0, a0, []) && tbl < NUM_HUFF_TBLS && !em.isDC && ValidAc(b) && b.Ah != 0
    requires |block| == DCTSIZE2
    requires HeldIn(e, EOBRUN, BE, bit_buffer[..]) && ValidHeld(e) && bit_buffer.Length == MAX_CORR_BITS
    modifies em, em.w, em.count_ptrs, bit_buffer
    ensures SpaceOf(em.w) == old(SpaceOf(em.w))
    ensures EmitOutcome(em, s0, a0, BandStep(e, CodeBand(Reorder(block), b, tbl), tbl).0, true, st)
    ensures st.Done? ==> HeldIn(BandStep(e, CodeBand(Reorder(block), b, tbl), tbl).1, eobrun, be, bit_buffer[..])
  {
    hide *;
    Limits();
    AcFits(b);
    ghost var z := Reorder(block);
    ghost var code := CodeBand(z, b, tbl);
    var absvalues, EOB := PrePass(b, block);
    LedNone(e, tbl);
    RefinedStart(z, b, tbl);
    eobrun, be := EOBRUN, BE;
    HeldParts(e, eobrun, be, bit_buffer[..]);
    var r: nat, BR: nat, BR_start: nat := 0, 0, BE;
    ghost var x: seq<Token>, br: Bits := [], [];
    NoBitsAt(bit_buffer[..], BR_start);
    var k := b.Ss;
    while k <= b.Se
      invariant b.Ss <= k <= b.Se + 1 && SpaceOf(em.w) == old(SpaceOf(em.w))
      invariant forall j: nat | b.Ss <= j <= b.Se :: absvalues[j] == Level(z[j], b.Al)
      invariant HasEmitted(em, s0, a0, Led(e, x, tbl)) && HeldIn(StillHeld(e, x), eobrun, be, bit_buffer[..])
      invariant Refined(z, b, tbl, code, x, k, r, br)
      invariant BR_start == be && BitsAt(bit_buffer[..], BR_start, BR, br)
      decreases b.Se - k
    {
      var temp := absvalues[k];
      if temp == 0 {
        RefinedZero(z, b, tbl, code, x, k, r, br);
        r := r + 1;
      } else {
        while r > 15 && k <= EOB
          invariant SpaceOf(em.w) == old(SpaceOf(em.w))
          invariant forall j: nat | b.Ss <= j <= b.Se :: absvalues[j] == Level(z[j], b.Al)
          invariant HasEmitted(em, s0, a0, Led(e, x, tbl)) && HeldIn(StillHeld(e, x), eobrun, be, bit_buffer[..])
          invariant Refined(z, b, tbl, code, x, k, r, br)
          invariant BR_start == be && BitsAt(bit_buffer[..], BR_start, BR, br)
          decreases r
        {
          ghost var more := RefinedRun(z, b, tbl, code, x, k, r, br);
          BitsAtParts(bit_buffer, BR_start, BR, br);
          ghost var v := WithCode(0xF0, [], br, tbl);
          st := PutCode(em, tbl, eobrun, be, bit_buffer, 0xF0, false, 0, BR_start, BR, e, code, x, more, s0, a0);
          if !st.Done? {
            return;
          }
          LedNone(e, tbl);
          AfterCode(e, x, v, bit_buffer[..]);
          x := x + v;
          eobrun, be, BR_start, BR, br := 0, 0, 0, 0, [];
          r := r - 16;
        }
        if temp > 1 {
          RefinedBounds(z, b, tbl, code, x, k, r, br, e);
          HeldParts(StillHeld(e, x), eobrun, be, bit_buffer[..]);
          BitsAtParts(bit_buffer, BR_start, BR, br);
          RefinedKnown(z, b, tbl, code, x, k, r, br);
          BitAdded(bit_buffer[..], BR_start, BR, br, temp % 2 == 1, StillHeld(e, x), eobrun, be);
          ghost var was := bit_buffer[..];
          bit_buffer[BR_start + BR] := temp % 2 == 1;
          assert bit_buffer[..] == was[BR_start + BR := temp % 2 == 1];
          br := br + [temp % 2 == 1];
          BR := BR + 1;
        } else {
          ghost var more := RefinedNew(z, b, tbl, code, x, k, r, br);
          BitsAtParts(bit_buffer, BR_start, BR, br);
          temp := if block[Natural(k)] < 0 then 0 else 1;
          ghost var v := WithCode(16 * r + 1, [Raw(temp, 1)], br, tbl);
          st := PutCode(em, tbl, eobrun, be, bit_buffer, 16 * r + 1, true, temp, BR_start, BR, e, code, x, more, s0,
                        a0);
          if !st.Done? {
            return;
          }
          AfterCode(e, x, v, bit_buffer[..]);
          x := x + v;
          eobrun, be, BR_start, BR, br := 0, 0, 0, 0, [];
          r := 0;
        }
      }
      k := k + 1;
    }
    RefinedEnd(z, b, tbl, x, r, br);
    BitsAtParts(bit_buffer, BR_start, BR, br);
    HeldSmall(e, x);
    st, eobrun, be := HoldBand(em, tbl, eobrun, be, bit_buffer, r > 0 || BR > 0, BR, e, code, s0, a0);
  }

  lemma BitsAtParts(buffer: array<bool>, start: nat, n: nat, br: Bits)
    requires BitsAt(buffer[..], start, n, br)
    ensures start + n <= buffer.Length && buffer[start..start + n] == br && |br| == n
  {
  }

  lemma AfterCode(e: Held, x: seq<Token>, v: seq<Token>, buffer: seq<bool>)
    requires v != []
    ensures HeldIn(StillHeld(e, x + v), 0, 0, buffer) && BitsAt(buffer, 0, 0, [])
  {
  }

  lemma NoBitsAt(buffer: seq<bool>, start: nat)
    requires start <= |buffer|
    ensures BitsAt(buffer, start, 0, [])
  {
  }

  // ----- encode_mcu_DC_first and encode_mcu_DC_refine -----

  lemma DcRef(em: Emitter, tbl: nat)
    ensures em.Ref(tbl) == if em.isDC then DC(tbl) else AC(tbl)
  {
  }

  // A DC difference.
  method PutDc(em: Emitter, tbl: nat, diff: int, ghost s0: seq<Token>, ghost a0: seq<Token>, ghost sent: seq<Token>)
    returns (st: Status)
    requires HasEmitted(em, s0, a0, sent) && tbl < NUM_HUFF_TBLS && em.isDC
    modifies em, em.w, em.count_ptrs
    ensures SpaceOf(em.w) == old(SpaceOf(em.w))
    ensures EmitOutcome(em, s0, a0, sent + DcTokens(diff, tbl), NBits(Abs(diff)) <= MAX_COEF_BITS + 1, st)
  {
    hide *;
    Limits();
    DcRef(em, tbl);
    var temp, temp2 := SeqEncoder.Magnitude(diff);
    var nbits := SeqEncoder.CountBits(temp);
    SeqEncoder.DcTokensAre(diff, tbl, nbits, sent);
    if nbits > MAX_COEF_BITS + 1 {
      st := Failed(BadDctCoef);
      EmitOutOfRange(em, s0, a0, sent + DcTokens(diff, tbl), BadDctCoef);
      return;
    }
    st := PutSymbol(em, tbl, nbits, s0, a0, sent);
    if nbits != 0 {
      if !st.Done? {
        EmitStop(em, s0, a0, sent + [Sym(DC(tbl), nbits)], [Raw(temp2, nbits)], true, true, st);
        return;
      }
      EmitDone(em, s0, a0, sent + [Sym(DC(tbl), nbits)], true, st);
      st := PutRaw(em, temp2, nbits, s0, a0, sent + [Sym(DC(tbl), nbits)]);
    }
  }

  lemma DcStep(scan: Scan, last: seq<int>, mcu: Mcu, al: nat, n: nat)
    requires ValidScan(scan) && ValidMcu(scan, mcu) && |last| == |scan.comps| && n < |mcu|
    ensures ValidZs(scan, Reordered(mcu)) && |mcu| == |scan.membership| && |mcu[n]| == DCTSIZE2 == 64
    ensures scan.membership[n] < |scan.comps| && scan.comps[scan.membership[n]].dc_tbl_no < NUM_HUFF_TBLS
    ensures var zs := Reordered(mcu);
            var ci := scan.membership[n];
            var diff := DcShift(mcu[n][0], al) - DcLast(scan, last, zs, al, n)[ci];
            && DcFirstTokens(scan, last, zs, al, n + 1)
                == DcFirstTokens(scan, last, zs, al, n) + DcTokens(diff, scan.comps[ci].dc_tbl_no)
            && DcLast(scan, last, zs, al, n + 1) == DcLast(scan, last, zs, al, n)[ci := DcShift(mcu[n][0], al)]
            && (DcInRange(scan, last, zs, al, n + 1) <==>
                  DcInRange(scan, last, zs, al, n) && NBits(Abs(diff)) <= MAX_COEF_BITS + 1)
            && DcRefineTokens(zs, al, n + 1) == DcRefineTokens(zs, al, n) + [Raw(DcShift(mcu[n][0], al), 1)]
  {
    hide DcTokens, NBits, DcShift, Reorder;
    SeqEncoder.FirstOfZigzag(mcu[n]);
  }

  lemma DcStart(scan: Scan, last: seq<int>, mcu: Mcu, al: nat)
    requires ValidScan(scan) && ValidMcu(scan, mcu) && |last| == |scan.comps|
    ensures ValidZs(scan, Reordered(mcu)) && |mcu| == |scan.membership|
    ensures (forall i | 0 <= i < |mcu| :: |mcu[i]| == DCTSIZE2)
    ensures var zs := Reordered(mcu);
            && DcFirstTokens(scan, last, zs, al, 0) == [] && DcLast(scan, last, zs, al, 0) == last
            && DcInRange(scan, last, zs, al, 0) && DcRefineTokens(zs, al, 0) == []
  {
  }

  lemma {:induction false} DcPrefix(scan: Scan, last: seq<int>, zs: Zigzags, al: nat, n: nat, m: nat)
    returns (more: seq<Token>, more2: seq<Token>)
    requires ValidScan(scan) && ValidZs(scan, zs) && |last| == |scan.comps| && n <= m <= |zs|
    ensures DcFirstTokens(scan, last, zs, al, m) == DcFirstTokens(scan, last, zs, al, n) + more
    ensures DcRefineTokens(zs, al, m) == DcRefineTokens(zs, al, n) + more2
    ensures DcInRange(scan, last, zs, al, m) ==> DcInRange(scan, last, zs, al, n)
  {
    hide DcTokens, DcDiff, NBits, DcShift;
    more, more2 := [], [];
    if n < m {
      more, more2 := DcPrefix(scan, last, zs, al, n, m - 1);
      more := more + DcTokens(DcDiff(scan, last, zs, al, m - 1), scan.comps[scan.membership[m - 1]].dc_tbl_no);
      more2 := more2 + [Raw(DcShift(zs[m - 1][0], al), 1)];
    }
  }

  method EncodeDcFirst(em: Emitter, scan: Scan, Al: nat, last0: seq<int>, mcu: Mcu, ghost s0: seq<Token>,
                       ghost a0: seq<Token>)
    returns (st: Status, last: seq<int>)
    requires HasEmitted(em, s0, a0, []) && em.isDC && ValidScan(scan) && ValidMcu(scan, mcu) && |last0| == |scan.comps|
    requires forall i | 0 <= i < |mcu| :: |mcu[i]| == DCTSIZE2
    requires ValidZs(scan, Reordered(mcu)) && |mcu| == |scan.membership|
    modifies em, em.w, em.count_ptrs
    ensures SpaceOf(em.w) == old(SpaceOf(em.w))
    ensures EmitOutcome(em, s0, a0, DcFirstTokens(scan, last0, Reordered(mcu), Al, |mcu|),
                        DcInRange(scan, last0, Reordered(mcu), Al, |mcu|), st)
    ensures st.Done? ==> last == DcLast(scan, last0, Reordered(mcu), Al, |mcu|)
  {
    hide *;
    ghost var zs := Reordered(mcu);
    DcStart(scan, last0, mcu, Al);
    last := last0;
    for blkn := 0 to |mcu|
      invariant SpaceOf(em.w) == old(SpaceOf(em.w)) && last == DcLast(scan, last0, zs, Al, blkn)
      invariant HasEmitted(em, s0, a0, DcFirstTokens(scan, last0, zs, Al, blkn)) && DcInRange(scan, last0, zs, Al, blkn)
    {
      DcStep(scan, last0, mcu, Al, blkn);
      var ci := scan.membership[blkn];
      var temp2 := DcShift(mcu[blkn][0], Al);
      var temp := temp2 - last[ci];
      last := last[ci := temp2];
      ghost var fits := NBits(Abs(temp)) <= MAX_COEF_BITS + 1;
      st := PutDc(em, scan.comps[ci].dc_tbl_no, temp, s0, a0, DcFirstTokens(scan, last0, zs, Al, blkn));
      if !st.Done? {
        ghost var more, more2 := DcPrefix(scan, last0, zs, Al, blkn + 1, |mcu|);
        EmitStop(em, s0, a0, DcFirstTokens(scan, last0, zs, Al, blkn + 1), more, fits,
                 DcInRange(scan, last0, zs, Al, |mcu|), st);
        return;
      }
      EmitDone(em, s0, a0, DcFirstTokens(scan, last0, zs, Al, blkn + 1), fits, st);
    }
    EmitNothing(em, s0, a0, DcFirstTokens(scan, last0, zs, Al, |mcu|));
    st := Done;
  }

  method EncodeDcRefine(em: Emitter, scan: Scan, Al: nat, mcu: Mcu, ghost s0: seq<Token>, ghost a0: seq<Token>)
    returns (st: Status)
    requires HasEmitted(em, s0, a0, []) && ValidScan(scan) && ValidMcu(scan, mcu)
    requires forall i | 0 <= i < |mcu| :: |mcu[i]| == DCTSIZE2
    requires ValidZs(scan, Reordered(mcu))
    modifies em, em.w, em.count_ptrs
    ensures SpaceOf(em.w) == old(SpaceOf(em.w))
    ensures EmitOutcome(em, s0, a0, DcRefineTokens(Reordered(mcu), Al, |mcu|), true, st)
  {
    hide *;
    ghost var zs, none := Reordered(mcu), NoPredictions(scan);
    DcStart(scan, none, mcu, Al);
    for blkn := 0 to |mcu|
      invariant SpaceOf(em.w) == old(SpaceOf(em.w))
      invariant HasEmitted(em, s0, a0, DcRefineTokens(zs, Al, blkn))
    {
      DcStep(scan, none, mcu, Al, blkn);
      var temp := DcShift(mcu[blkn][0], Al);
      st := PutRaw(em, temp, 1, s0, a0, DcRefineTokens(zs, Al, blkn));
      if !st.Done? {
        ghost var more, more2 := DcPrefix(scan, none, zs, Al, blkn + 1, |mcu|);
        EmitStop(em, s0, a0, DcRefineTokens(zs, Al, blkn + 1), more2, true, true, st);
        return;
      }
      EmitDone(em, s0, a0, DcRefineTokens(zs, Al, blkn + 1), true, st);
    }
    EmitNothing(em, s0, a0, DcRefineTokens(zs, Al, |mcu|));
    st := Done;
  }
}
