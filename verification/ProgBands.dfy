// Runs of blocks that end with an EOB (section G.1.2.2 of ITU-T T.81): the
// encoder holds back the EOBs and the correction bits of such blocks (EOBRUN and
// BE of jcphuff.c) until something else has to be sent, the decoder counts down.
module ProgBands {
  import opened Arith
  import opened Bits
  import opened HuffTable
  import opened Tokens
  import opened BitSource
  import opened Blocks
  import opened SeqCodec
  import opened ProgCodec
  import opened ProgRefine

  const MAX_CORR_BITS := 1000

  // ----- one block -----

  // What is sent of a block: its symbols, whether an EOB follows them, and the
  // correction bits that go with the EOB.
  datatype Coded = Coded(toks: seq<Token>, eob: bool, tail: Bits)

  function CodeBand(c: Block, b: Band, tbl: nat): Coded
    requires |c| == DCTSIZE2 && ValidAc(b)
  {
    if b.Ah == 0 then Coded(FirstTokens(c, b.Ss, 0, b, tbl), FirstRun(c, b.Ss, 0, b) > 0, [])
    else
      var e := RefineTail(c, b.Ss, 0, [], b);
      Coded(RefineTokens(c, b.Ss, 0, [], b, tbl), e.0 > 0 || e.1 != [], e.1)
  }

  // What the encoder accepts of a block.
  predicate BandInRange(c: Block, b: Band)
    requires |c| == DCTSIZE2 && ValidAc(b)
  {
    b.Ah == 0 ==> FirstInRange(c, b)
  }

  // decode_mcu_AC_first and decode_mcu_AC_refine: d bands are still to be passed over.
  function ReadBand(src: Src, t: HuffTbl, z: Block, d: nat, b: Band): (r: BandRead)
    requires WellTyped(t) && Legal(t.bits) && |z| == DCTSIZE2 && ValidAc(b)
    ensures |r.block| == DCTSIZE2
  {
    if b.Ah == 0 then
      if d > 0 then BandRead(z, d - 1, src) else ReadFirst(src, t, z, b.Ss, b)
    else if d > 0 then
      var e := CorrectRest(src, z, b.Ss, b);
      BandRead(e.0, d - 1, e.1)
    else ReadRefine(src, t, z, b.Ss, b)
  }

  // Without symbols, the first pass has nothing to write.
  lemma {:induction false} FirstQuiet(c: Block, k: nat, r: nat, b: Band, tbl: nat)
    requires |c| == DCTSIZE2 && b.Se < DCTSIZE2 && FirstTokens(c, k, r, b, tbl) == []
    ensures forall j: nat | k <= j <= b.Se :: PT(c[j], b.Al) == 0
    ensures FirstRun(c, k, r, b) == if k <= b.Se then r + (b.Se + 1 - k) else r
    decreases b.Se + 1 - k
  {
    hide PT;
    if k <= b.Se {
      ValueTokensSome(PT(c[k], b.Al), r, tbl);
      FirstQuiet(c, k + 1, r + 1, b, tbl);
    }
  }

  lemma ValueTokensSome(v: int, r: nat, tbl: nat)
    ensures ValueTokens(v, r, tbl) != []
  {
  }

  // Without symbols, a refinement consists of correction bits.
  lemma {:induction false} RefineQuiet(c: Block, b: Band, k: nat, r: nat, br: Bits, tbl: nat)
    requires |c| == DCTSIZE2 && b.Se < DCTSIZE2 && Pending(c, b, b.Ss, k, r, br)
    requires RefineTokens(c, k, r, br, b, tbl) == []
    ensures var e := RefineTail(c, k, r, br, b); Pending(c, b, b.Ss, b.Se + 1, e.0, e.1)
    decreases b.Se + 1 - k
  {
    hide *;
    PendingParts(c, b, b.Ss, k, r, br);
    RefineTokensParts(c, k, r, br, b, tbl, []);
    if k <= b.Se {
      if Level(c[k], b.Al) == 0 {
        PendingZero(c, b, b.Ss, k, r, br);
        RefineQuiet(c, b, k + 1, r + 1, br, tbl);
      } else if !(r > 15 && k <= LastNew(c, b.Se, b)) && Level(c[k], b.Al) > 1 {
        PendingKnown(c, b, b.Ss, k, r, br);
        RefineQuiet(c, b, k + 1, r, br + [Level(c[k], b.Al) % 2 == 1], tbl);
      }
    }
  }

  // The stretch left at the end is empty exactly if the last coefficient was sent.
  lemma TailLength(c: Block, b: Band, p: nat, r: nat, br: Bits)
    requires |c| == DCTSIZE2 && b.Se < DCTSIZE2 && Pending(c, b, p, b.Se + 1, r, br)
    ensures b.Ss <= p <= b.Se + 1 && r + |br| == b.Se + 1 - p
  {
    hide Level, LastNew, ProgRefine.Zeros, Corrections, NoneNew;
    StretchLength(c, p, b.Se + 1, b.Al);
  }

  // A block inside an EOB run: its correction bits are all it takes.
  lemma ReadInRun(t: CTables, h: HuffTbl, tbl: nat, c: Block, z: Block, d: nat, b: Band, rest: Bits)
    requires WellTyped(h) && Legal(h.bits) && ValidAc(b) && Before(z, c, b) && d > 0
    requires CodeBand(c, b, tbl).toks == []
    ensures CodeBand(c, b, tbl).eob && |z| == |c| == DCTSIZE2
    ensures ReadBand(Src(CodeBand(c, b, tbl).tail + rest, false), h, z, d, b)
        == BandRead(After(z, c, b), d - 1, Src(rest, false))
  {
    hide FirstTokens, FirstRun, RefineTokens, RefineTail, CorrectRest, Mixed, NoneNew, Corrections;
    if b.Ah == 0 {
      FirstQuiet(c, b.Ss, 0, b, tbl);
      MixedZeros(z, c, b, b.Ss, b.Se + 1);
      MixedNone(z, c, b);
      assert [] + rest == rest;
    } else {
      PendingNone(c, b, b.Ss);
      RefineQuiet(c, b, b.Ss, 0, [], tbl);
      var e := RefineTail(c, b.Ss, 0, [], b);
      PendingParts(c, b, b.Ss, b.Se + 1, e.0, e.1);
      TailLength(c, b, b.Ss, e.0, e.1);
      CorrectRestBack(z, c, b, b.Ss, rest);
      MixedNone(z, c, b);
    }
  }

  lemma MixedNone(z: Block, c: Block, b: Band)
    requires |z| == |c| == DCTSIZE2
    ensures Mixed(z, c, b.Ss, b.Ss, b.Al) == z && Half(z, c, b, b.Ss) == z
  {
  }

  // A block with symbols, or the first one of an EOB run of n blocks.
  lemma ReadFreshEob(t: CTables, h: HuffTbl, tbl: nat, c: Block, z: Block, b: Band, n: nat, more: seq<Token>,
                     rest: Bits)
    requires AcPair(t, h, tbl) && ValidAc(b) && Before(z, c, b) && BandInRange(c, b) && CodeBand(c, b, tbl).eob
    requires 0 < n < 0x8000
    requires AllSendable(t, CodeBand(c, b, tbl).toks + (EobTokens(n, tbl) + (RawBits(CodeBand(c, b, tbl).tail) + more)))
    ensures WellTyped(h) && Legal(h.bits) && SaneTables(t) && AllSendable(t, more)
    ensures var code := CodeBand(c, b, tbl);
            ReadBand(Sending(t, code.toks + (EobTokens(n, tbl) + (RawBits(code.tail) + more)), rest), h, z, 0, b)
              == BandRead(After(z, c, b), n - 1, Sending(t, more, rest))
  {
    hide FirstTokens, FirstRun, RefineTokens, RefineTail, Mixed, NoneNew, Corrections, EobTokens, RawBits, Sending,
      AllSendable,
      Legal, WellTyped, AcPair, Pow2, Peek, Skip, ReadFirst, ReadRefine, CorrectRest, FirstInRange, AtSymbol;
    var code := CodeBand(c, b, tbl);
    var tail := RawBits(code.tail) + more;
    MixedNone(z, c, b);
    if b.Ah == 0 {
      FirstBack(t, h, tbl, c, z, b.Ss, 0, b, EobTokens(n, tbl) + tail, rest);
      var nbits, mid := SendingEob(t, h, tbl, n, tail, rest);
      ReadFirstEob(Sending(t, EobTokens(n, tbl) + tail, rest), h, After(z, c, b), b.Se + 1 - FirstRun(c, b.Ss, 0, b),
                   b, nbits, mid);
      NoBits(t, more, rest);
    } else {
      PendingNone(c, b, b.Ss);
      var e := RefineTail(c, b.Ss, 0, [], b);
      var p := RefineBack(t, h, tbl, z, c, b, b.Ss, b.Ss, 0, [], EobTokens(n, tbl) + tail, rest);
      TailLength(c, b, p, e.0, e.1);
      PendingParts(c, b, p, b.Se + 1, e.0, e.1);
      var nbits, mid := SendingEob(t, h, tbl, n, tail, rest);
      ReadRefineEob(Sending(t, EobTokens(n, tbl) + tail, rest), h, Half(z, c, b, p), p, b, nbits, mid);
      SendingBits(t, code.tail, more, rest);
      CorrectRestBack(z, c, b, p, Sending(t, more, rest).bits);
    }
  }

  lemma NoBits(t: CTables, more: seq<Token>, rest: Bits)
    requires SaneTables(t) && AllSendable(t, RawBits([]) + more)
    ensures AllSendable(t, more) && Sending(t, RawBits([]) + more, rest) == Sending(t, more, rest)
  {
    assert RawBits([]) + more == more;
  }

  // A block whose last coefficient was sent.
  lemma ReadFreshFull(t: CTables, h: HuffTbl, tbl: nat, c: Block, z: Block, b: Band, more: seq<Token>, rest: Bits)
    requires AcPair(t, h, tbl) && ValidAc(b) && Before(z, c, b) && BandInRange(c, b) && !CodeBand(c, b, tbl).eob
    requires AllSendable(t, CodeBand(c, b, tbl).toks + more)
    ensures WellTyped(h) && Legal(h.bits) && SaneTables(t) && AllSendable(t, more)
    ensures ReadBand(Sending(t, CodeBand(c, b, tbl).toks + more, rest), h, z, 0, b)
        == BandRead(After(z, c, b), 0, Sending(t, more, rest))
  {
    hide FirstTokens, FirstRun, RefineTokens, RefineTail, Mixed, NoneNew, Corrections, Sending, AllSendable,
      Legal, WellTyped, AcPair, Pow2, Peek, Skip, ReadFirst, ReadRefine, CorrectRest, FirstInRange, AtSymbol;
    MixedNone(z, c, b);
    if b.Ah == 0 {
      FirstBack(t, h, tbl, c, z, b.Ss, 0, b, more, rest);
      ReadFirstDone(Sending(t, more, rest), h, After(z, c, b), b.Se + 1, b);
    } else {
      PendingNone(c, b, b.Ss);
      var e := RefineTail(c, b.Ss, 0, [], b);
      var p := RefineBack(t, h, tbl, z, c, b, b.Ss, b.Ss, 0, [], more, rest);
      TailLength(c, b, p, e.0, e.1);
      ReadRefineDone(Sending(t, more, rest), h, Half(z, c, b, p), p, b);
    }
  }

  // ----- runs of blocks -----

  // What the encoder holds back: EOBRUN, and the BE correction bits.
  datatype Held = Held(run: nat, bits: Bits)

  function NoneHeld(): Held {
    Held(0, [])
  }

  // emit_eobrun
  function Release(e: Held, tbl: nat): seq<Token> {
    if e.run > 0 then EobTokens(e.run, tbl) + RawBits(e.bits) else []
  }

  // One more block that ends with an EOB.
  function Hold(e: Held, tail: Bits): Held {
    Held(e.run + 1, e.bits + tail)
  }

  // The EOBs have to be sent before the counter or the bit buffer overflows.
  predicate Overfull(e: Held) {
    e.run == 0x7FFF || |e.bits| > MAX_CORR_BITS - DCTSIZE2 + 1
  }

  // Between MCUs.
  predicate ValidHeld(e: Held) {
    !Overfull(e) && e.run < 0x7FFF && (e.run == 0 ==> e.bits == [])
  }

  // What is held once the symbols of a block have been sent.
  function HeldBefore(e: Held, code: Coded): Held {
    if code.toks != [] then NoneHeld() else e
  }

  // One block: what is sent, and what is held after it.
  function BandStep(e: Held, code: Coded, tbl: nat): (seq<Token>, Held) {
    var sent := if code.toks != [] then Release(e, tbl) + code.toks else [];
    var e1 := HeldBefore(e, code);
    if !code.eob then (sent, e1)
    else
      var e2 := Hold(e1, code.tail);
      if Overfull(e2) then (sent + Release(e2, tbl), NoneHeld()) else (sent, e2)
  }

  // No block can overflow the counters: at most 63 bits are added to at most 937.
  lemma BandStepValid(e: Held, c: Block, b: Band, tbl: nat)
    requires ValidHeld(e) && |c| == DCTSIZE2 && ValidAc(b)
    ensures ValidHeld(BandStep(e, CodeBand(c, b, tbl), tbl).1)
    ensures |CodeBand(c, b, tbl).tail| <= 63 && |e.bits| + |CodeBand(c, b, tbl).tail| <= MAX_CORR_BITS
    ensures CodeBand(c, b, tbl).toks == [] ==> CodeBand(c, b, tbl).eob
  {
    hide FirstTokens, FirstRun, RefineTokens, RefineTail;
    if b.Ah != 0 {
      PendingNone(c, b, b.Ss);
      TailBound(c, b, b.Ss, 0, [], b.Ss);
      if RefineTokens(c, b.Ss, 0, [], b, tbl) == [] {
        RefineQuiet(c, b, b.Ss, 0, [], tbl);
        var e := RefineTail(c, b.Ss, 0, [], b);
        TailLength(c, b, b.Ss, e.0, e.1);
      }
    } else if FirstTokens(c, b.Ss, 0, b, tbl) == [] {
      FirstQuiet(c, b.Ss, 0, b, tbl);
    }
  }

  lemma {:induction false} TailBound(c: Block, b: Band, k: nat, r: nat, br: Bits, p: nat)
    requires |c| == DCTSIZE2 && b.Se < DCTSIZE2 && b.Ss <= p <= k <= b.Se + 1 && |br| <= k - p
    ensures |RefineTail(c, k, r, br, b).1| <= b.Se + 1 - b.Ss
    decreases b.Se + 1 - k, r
  {
    hide Level, LastNew;
    if k <= b.Se {
      var a := Level(c[k], b.Al);
      if a == 0 {
        TailBound(c, b, k + 1, r + 1, br, p);
      } else if r > 15 && k <= LastNew(c, b.Se, b) {
        TailBound(c, b, k, r - 16, [], k);
      } else if a > 1 {
        TailBound(c, b, k + 1, r, br + [a % 2 == 1], p);
      } else {
        TailBound(c, b, k + 1, 0, [], k + 1);
      }
    }
  }

  // What is sent from state e on for the blocks cs, up to the end of the segment.
  function BandTokens(e: Held, cs: seq<Block>, b: Band, tbl: nat): seq<Token>
    requires ValidAc(b) && forall i | 0 <= i < |cs| :: |cs[i]| == DCTSIZE2
    decreases |cs|
  {
    if cs == [] then Release(e, tbl)
    else
      var s := BandStep(e, CodeBand(cs[0], b, tbl), tbl);
      s.0 + BandTokens(s.1, cs[1..], b, tbl)
  }

  // When EOBs are held, the next thing sent is the run they belong to: its full
  // length ...
  function RunLength(e: Held, cs: seq<Block>, b: Band, tbl: nat): nat
    requires ValidAc(b) && forall i | 0 <= i < |cs| :: |cs[i]| == DCTSIZE2
    decreases |cs|
  {
    if cs == [] then e.run
    else
      var code := CodeBand(cs[0], b, tbl);
      if code.toks != [] then e.run
      else if Overfull(Hold(e, code.tail)) then e.run + 1
      else RunLength(Hold(e, code.tail), cs[1..], b, tbl)
  }

  // ... then the correction bits held, and then this.
  function BehindRun(e: Held, cs: seq<Block>, b: Band, tbl: nat): seq<Token>
    requires ValidAc(b) && forall i | 0 <= i < |cs| :: |cs[i]| == DCTSIZE2
    decreases |cs|
  {
    if cs == [] then []
    else
      var code := CodeBand(cs[0], b, tbl);
      if code.toks != [] then
        var s := BandStep(NoneHeld(), code, tbl);
        s.0 + BandTokens(s.1, cs[1..], b, tbl)
      else if Overfull(Hold(e, code.tail)) then RawBits(code.tail) + BandTokens(NoneHeld(), cs[1..], b, tbl)
      else RawBits(code.tail) + BehindRun(Hold(e, code.tail), cs[1..], b, tbl)
  }

  // The tokens with the pending EOBs released are the ones without, preceded by them.
  lemma StepReleases(e: Held, code: Coded, tbl: nat)
    requires code.toks != []
    ensures BandStep(e, code, tbl).1 == BandStep(NoneHeld(), code, tbl).1
    ensures BandStep(e, code, tbl).0 == Release(e, tbl) + BandStep(NoneHeld(), code, tbl).0
  {
    hide EobTokens, RawBits, Overfull;
    assert Release(NoneHeld(), tbl) + code.toks == code.toks;
  }

  lemma {:induction false} RunFirst(e: Held, cs: seq<Block>, b: Band, tbl: nat)
    requires ValidAc(b) && (forall i | 0 <= i < |cs| :: |cs[i]| == DCTSIZE2) && ValidHeld(e) && e.run > 0
    ensures e.run <= RunLength(e, cs, b, tbl) <= 0x7FFF
    ensures BandTokens(e, cs, b, tbl) == EobTokens(RunLength(e, cs, b, tbl), tbl)
        + (RawBits(e.bits) + BehindRun(e, cs, b, tbl))
    decreases |cs|
  {
    hide EobTokens, RawBits, CodeBand, ValidAc;
    if cs == [] {
      assert RawBits(e.bits) + [] == RawBits(e.bits);
    } else {
      var code := CodeBand(cs[0], b, tbl);
      BandStepValid(e, cs[0], b, tbl);
      if code.toks != [] {
        StepReleases(e, code, tbl);
        var s := BandStep(NoneHeld(), code, tbl);
        RunJoin(EobTokens(e.run, tbl), RawBits(e.bits), s.0, BandTokens(s.1, cs[1..], b, tbl));
      } else if Overfull(Hold(e, code.tail)) {
        RawBitsConcat(e.bits, code.tail);
        RunJoin2(EobTokens(e.run + 1, tbl), RawBits(e.bits), RawBits(code.tail),
                 BandTokens(NoneHeld(), cs[1..], b, tbl));
      } else {
        RunFirst(Hold(e, code.tail), cs[1..], b, tbl);
        RawBitsConcat(e.bits, code.tail);
        Assoc(RawBits(e.bits), RawBits(code.tail), BehindRun(Hold(e, code.tail), cs[1..], b, tbl));
        assert [] + BandTokens(Hold(e, code.tail), cs[1..], b, tbl) == BandTokens(Hold(e, code.tail), cs[1..], b, tbl);
      }
    }
  }

  lemma RunJoin<T>(a: seq<T>, b: seq<T>, c: seq<T>, d: seq<T>)
    ensures a + b + c + d == a + (b + (c + d))
  {
  }

  lemma RunJoin2<T>(a: seq<T>, b: seq<T>, c: seq<T>, d: seq<T>)
    ensures [] + (a + (b + c)) + d == a + (b + (c + d))
  {
  }

  // ----- the decoder keeps in step -----

  // With e held and the blocks cs to come, the decoder has already been told of
  // the whole run that the held EOBs belong to, and has used the held bits.
  ghost predicate InSync(t: CTables, e: Held, cs: seq<Block>, b: Band, tbl: nat, d: nat, src: Src, rest: Bits) {
    && SaneTables(t) && ValidAc(b) && (forall i | 0 <= i < |cs| :: |cs[i]| == DCTSIZE2) && ValidHeld(e)
    && if e.run == 0 then
         d == 0 && AllSendable(t, BandTokens(e, cs, b, tbl)) && src == Sending(t, BandTokens(e, cs, b, tbl), rest)
       else
         && e.run + d == RunLength(e, cs, b, tbl)
         && AllSendable(t, BehindRun(e, cs, b, tbl)) && src == Sending(t, BehindRun(e, cs, b, tbl), rest)
  }

  // A new run begins, or nothing is held.
  lemma FreshBack(t: CTables, h: HuffTbl, tbl: nat, cs: seq<Block>, b: Band, z: Block, rest: Bits)
    returns (d': nat, src': Src)
    requires AcPair(t, h, tbl) && SaneTables(t) && ValidAc(b) && (forall i | 0 <= i < |cs| :: |cs[i]| == DCTSIZE2)
    requires cs != []
    requires Before(z, cs[0], b) && BandInRange(cs[0], b) && AllSendable(t, BandTokens(NoneHeld(), cs, b, tbl))
    ensures WellTyped(h) && Legal(h.bits) && |z| == DCTSIZE2
    ensures ReadBand(Sending(t, BandTokens(NoneHeld(), cs, b, tbl), rest), h, z, 0, b)
        == BandRead(After(z, cs[0], b), d', src')
    ensures InSync(t, BandStep(NoneHeld(), CodeBand(cs[0], b, tbl), tbl).1, cs[1..], b, tbl, d', src', rest)
  {
    hide EobTokens, RawBits, CodeBand, ValidAc, Before, BandInRange, AllSendable, Sending, ReadBand, Legal, WellTyped,
      AcPair, After,
      SaneTables, BehindRun, RunLength;
    var code, more := CodeBand(cs[0], b, tbl), cs[1..];
    BandStepValid(NoneHeld(), cs[0], b, tbl);
    AcUsableFor(t, h, tbl, z, cs[0], b);
    var s := BandStep(NoneHeld(), code, tbl);
    assert Release(NoneHeld(), tbl) + code.toks == code.toks;
    assert BandTokens(NoneHeld(), cs, b, tbl) == code.toks + BandTokens(s.1, more, b, tbl);
    if code.eob {
      assert [] + code.tail == code.tail;
      assert s.1 == Held(1, code.tail);
      RunFirst(s.1, more, b, tbl);
      var n, behind := RunLength(s.1, more, b, tbl), BehindRun(s.1, more, b, tbl);
      ReadFreshEob(t, h, tbl, cs[0], z, b, n, behind, rest);
      d', src' := n - 1, Sending(t, behind, rest);
    } else {
      ReadFreshFull(t, h, tbl, cs[0], z, b, BandTokens(s.1, more, b, tbl), rest);
      d', src' := 0, Sending(t, BandTokens(s.1, more, b, tbl), rest);
    }
  }

  lemma AcUsableFor(t: CTables, h: HuffTbl, tbl: nat, z: Block, c: Block, b: Band)
    requires AcPair(t, h, tbl) && Before(z, c, b)
    ensures WellTyped(h) && Legal(h.bits) && |z| == |c| == DCTSIZE2 == 64
  {
  }

  // The next block is decoded, and the decoder stays in step.
  lemma BandBack(t: CTables, h: HuffTbl, tbl: nat, e: Held, cs: seq<Block>, b: Band, z: Block, d: nat, src: Src,
                 rest: Bits)
    returns (d': nat, src': Src)
    requires AcPair(t, h, tbl) && InSync(t, e, cs, b, tbl, d, src, rest) && cs != []
    requires Before(z, cs[0], b) && |cs[0]| == DCTSIZE2 && ValidAc(b) && BandInRange(cs[0], b)
    ensures WellTyped(h) && Legal(h.bits) && |z| == DCTSIZE2
    ensures ReadBand(src, h, z, d, b) == BandRead(After(z, cs[0], b), d', src')
    ensures InSync(t, BandStep(e, CodeBand(cs[0], b, tbl), tbl).1, cs[1..], b, tbl, d', src', rest)
  {
    hide EobTokens, RawBits, CodeBand, ValidAc, Before, BandInRange, AllSendable, Sending, ReadBand, Legal, WellTyped,
      AcPair, After,
      SaneTables;
    var code, more := CodeBand(cs[0], b, tbl), cs[1..];
    BandStepValid(e, cs[0], b, tbl);
    AcUsableFor(t, h, tbl, z, cs[0], b);
    if e.run == 0 {
      d', src' := FreshBack(t, h, tbl, cs, b, z, rest);
    } else if code.toks != [] {
      StepReleases(e, code, tbl);
      d', src' := FreshBack(t, h, tbl, cs, b, z, rest);
    } else {
      var e2 := Hold(e, code.tail);
      var after := if Overfull(e2) then BandTokens(NoneHeld(), more, b, tbl) else BehindRun(e2, more, b, tbl);
      if !Overfull(e2) {
        RunFirst(e2, more, b, tbl);
      }
      SendingBits(t, code.tail, after, rest);
      ReadInRun(t, h, tbl, cs[0], z, d, b, Sending(t, after, rest).bits);
      d', src' := d - 1, Sending(t, after, rest);
    }
  }
}
