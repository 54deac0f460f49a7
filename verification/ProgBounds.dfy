// How much the encoder of a band holds back: end-of-band runs are as long as they
// can be, and the bounds on them are attained.
module ProgBounds {
  import opened Arith
  import opened Bits
  import opened Tokens
  import opened Blocks
  import opened ProgCodec
  import opened ProgRefine
  import opened ProgBands

  // A refinement of all AC coefficients, down to their last bit.
  function AllAc(): Band {
    Band(1, 63, 1, 0)
  }

  // A block whose first n AC coefficients are known already; the others are zero.
  function Known(n: nat): (c: Block)
    requires n <= 63
    ensures |c| == DCTSIZE2 && forall k | 0 <= k < DCTSIZE2 :: c[k] == if 1 <= k <= n then 2 else 0
  {
    seq(DCTSIZE2, k => var v: Coef := if 1 <= k <= n then 2 else 0; v)
  }

  function Falses(n: nat): (r: Bits)
    ensures |r| == n && forall i | 0 <= i < n :: !r[i]
  {
    seq(n, _ => false)
  }

  lemma KnownLevel(n: nat, k: nat)
    requires n <= 63 && 1 <= k <= 63
    ensures Level(Known(n)[k], 0) == if k <= n then 2 else 0
  {
  }

  lemma {:induction false} KnownLast(n: nat, k: nat)
    requires n <= 63 && k <= 63
    ensures LastNew(Known(n), k, AllAc()) == 0
    decreases k
  {
    hide Level, Known;
    if k > 0 {
      KnownLevel(n, k);
      KnownLast(n, k - 1);
    }
  }

  // Such a block has n correction bits and no symbols.
  lemma {:induction false} KnownTail(n: nat, k: nat, r: nat, br: Bits, tbl: nat)
    requires n <= 63 && 1 <= k <= 64 && (k <= n + 1 ==> r == 0)
    ensures RefineTokens(Known(n), k, r, br, AllAc(), tbl) == []
    ensures RefineTail(Known(n), k, r, br, AllAc())
         == if k <= n then (63 - n, br + Falses(n + 1 - k)) else (r + 64 - k, br)
    decreases 64 - k
  {
    hide Level, LastNew, Known;
    if k <= 63 {
      KnownLevel(n, k);
      KnownLast(n, 63);
      if k <= n {
        KnownTail(n, k + 1, 0, br + [false], tbl);
        assert [false] + Falses(n - k) == Falses(n + 1 - k);
        Assoc(br, [false], Falses(n - k));
        assert Falses(0) == [] && Falses(1) == [false];
      } else {
        KnownTail(n, k + 1, r + 1, br, tbl);
      }
    }
  }

  // What is held after the given blocks of a segment.
  function HeldAfter(cs: seq<Block>, b: Band, tbl: nat): Held
    requires ValidAc(b) && forall i | 0 <= i < |cs| :: |cs[i]| == DCTSIZE2
  {
    if cs == [] then NoneHeld()
    else BandStep(HeldAfter(cs[..|cs| - 1], b, tbl), CodeBand(cs[|cs| - 1], b, tbl), tbl).1
  }

  lemma KnownStep(cs: seq<Block>, n: nat, m: nat, tbl: nat)
    requires forall i | 0 <= i < |cs| :: |cs[i]| == DCTSIZE2
    requires 0 < n <= 63 && HeldAfter(cs, AllAc(), tbl) == Held(|cs|, Falses(m)) && m + n <= 937 && |cs| < 0x7FFE
    ensures HeldAfter(cs + [Known(n)], AllAc(), tbl) == Held(|cs| + 1, Falses(m + n))
  {
    hide Known, RefineTokens, RefineTail;
    KnownTail(n, 1, 0, [], tbl);
    assert (cs + [Known(n)])[..|cs|] == cs;
    assert Falses(m) + ([] + Falses(n)) == Falses(m + n);
  }

  lemma {:induction false} FullBlocks(k: nat, tbl: nat)
    requires k <= 14
    ensures HeldAfter(seq(k, _ => Known(63)), AllAc(), tbl) == Held(k, Falses(63 * k))
  {
    hide Known, HeldAfter;
    if k == 0 {
      NothingHeld(tbl);
    } else {
      FullBlocks(k - 1, tbl);
      KnownStep(seq(k - 1, _ => Known(63)), 63, 63 * (k - 1), tbl);
      assert seq(k, _ => Known(63)) == seq(k - 1, _ => Known(63)) + [Known(63)];
    }
  }

  lemma NothingHeld(tbl: nat)
    ensures seq(0, _ => Known(63)) == [] && HeldAfter([], AllAc(), tbl) == Held(0, Falses(0))
  {
  }

  // After these 15 blocks 937 correction bits are held without having to be sent;
  // the next one brings 63 more, and fills the buffer.
  lemma BoundAttained(tbl: nat)
    ensures var cs, code := seq(14, _ => Known(63)) + [Known(55)], CodeBand(Known(63), AllAc(), tbl);
            var e := HeldAfter(cs, AllAc(), tbl);
            && ValidHeld(e) && |e.bits| == MAX_CORR_BITS - DCTSIZE2 + 1
            && code.toks == [] && code.eob && |e.bits + code.tail| == MAX_CORR_BITS
  {
    hide Known, HeldAfter, RefineTokens, RefineTail;
    FullBlocks(14, tbl);
    KnownStep(seq(14, _ => Known(63)), 55, 882, tbl);
    KnownTail(63, 1, 0, [], tbl);
  }

  // ----- runs are not cut short -----

  // A block without symbols is held back as long as there is room for more.
  lemma HeldBack(e: Held, c: Block, b: Band, tbl: nat)
    requires |c| == DCTSIZE2 && ValidAc(b) && CodeBand(c, b, tbl).toks == []
    requires e.run + 1 < 0x7FFF && |e.bits + CodeBand(c, b, tbl).tail| <= 937
    ensures BandStep(e, CodeBand(c, b, tbl), tbl) == ([], Held(e.run + 1, e.bits + CodeBand(c, b, tbl).tail))
  {
    hide FirstTokens, FirstRun, RefineTokens, RefineTail;
    QuietEob(c, b, tbl);
  }

  lemma QuietEob(c: Block, b: Band, tbl: nat)
    requires |c| == DCTSIZE2 && ValidAc(b) && CodeBand(c, b, tbl).toks == []
    ensures CodeBand(c, b, tbl).eob
  {
    BandStepValid(NoneHeld(), c, b, tbl);
  }

  // All coefficients of the band are still zero after this scan.
  ghost predicate StillZero(c: Block, b: Band) {
    |c| == DCTSIZE2 && forall k: nat | b.Ss <= k <= b.Se && k < DCTSIZE2 :: Abs(c[k]) < Pow2(b.Al)
  }

  lemma ZeroLevel(v: int, al: nat)
    requires Abs(v) < Pow2(al)
    ensures PT(v, al) == 0 && Level(v, al) == 0
  {
    hide Pow2;
  }

  lemma {:induction false} ZeroFirst(c: Block, k: nat, r: nat, b: Band, tbl: nat)
    requires StillZero(c, b) && b.Se < DCTSIZE2 && b.Ss <= k <= b.Se + 1
    ensures FirstTokens(c, k, r, b, tbl) == [] && FirstRun(c, k, r, b) == r + (b.Se + 1 - k)
    decreases b.Se + 1 - k
  {
    hide PT, Pow2;
    if k <= b.Se {
      ZeroLevel(c[k], b.Al);
      ZeroFirst(c, k + 1, r + 1, b, tbl);
    }
  }

  lemma {:induction false} ZeroRefine(c: Block, k: nat, r: nat, b: Band, tbl: nat)
    requires StillZero(c, b) && b.Se < DCTSIZE2 && b.Ss <= k <= b.Se + 1
    ensures RefineTokens(c, k, r, [], b, tbl) == [] && RefineTail(c, k, r, [], b) == (r + (b.Se + 1 - k), [])
    decreases b.Se + 1 - k
  {
    hide Level, LastNew, Pow2;
    if k <= b.Se {
      ZeroLevel(c[k], b.Al);
      ZeroRefine(c, k + 1, r + 1, b, tbl);
    }
  }

  lemma ZeroBand(c: Block, b: Band, tbl: nat)
    requires StillZero(c, b) && ValidAc(b)
    ensures CodeBand(c, b, tbl) == Coded([], true, [])
  {
    hide StillZero, FirstTokens, FirstRun, RefineTokens, RefineTail;
    ZeroFirst(c, b.Ss, 0, b, tbl);
    ZeroRefine(c, b.Ss, 0, b, tbl);
  }

  lemma {:induction false} ZeroBands(m: nat, cs: seq<Block>, b: Band, tbl: nat)
    requires ValidAc(b) && m < 0x7FFF && 0 < m + |cs| <= 0x7FFF
    requires forall i | 0 <= i < |cs| :: |cs[i]| == DCTSIZE2 && StillZero(cs[i], b)
    ensures BandTokens(Held(m, []), cs, b, tbl) == EobTokens(m + |cs|, tbl)
    decreases |cs|
  {
    hide StillZero, CodeBand, EobTokens;
    assert RawBits([]) == [];
    if cs == [] {
      assert EobTokens(m, tbl) + [] == EobTokens(m, tbl);
    } else {
      ZeroBand(cs[0], b, tbl);
      var none: Bits := [];
      assert none + none == none;
      if m + 1 < 0x7FFF {
        ZeroBands(m + 1, cs[1..], b, tbl);
        assert [] + BandTokens(Held(m + 1, []), cs[1..], b, tbl) == BandTokens(Held(m + 1, []), cs[1..], b, tbl);
      } else {
        assert cs[1..] == [];
        assert [] + (EobTokens(m + 1, tbl) + []) + [] == EobTokens(m + 1, tbl);
      }
    }
  }

  // Up to 0x7FFF blocks of a segment in which the band stays zero are sent as a
  // single run.
  lemma OneRun(cs: seq<Block>, b: Band, tbl: nat)
    requires ValidAc(b) && 0 < |cs| <= 0x7FFF && forall i | 0 <= i < |cs| :: |cs[i]| == DCTSIZE2 && StillZero(cs[i], b)
    ensures BandTokens(NoneHeld(), cs, b, tbl) == EobTokens(|cs|, tbl)
  {
    ZeroBands(0, cs, b, tbl);
  }

  // The symbol of a run says how many bits its length has, and is followed by all
  // of them but the first.
  lemma RunSymbol(n: nat, tbl: nat)
    requires n > 0
    ensures exists nbits: nat :: EobWithBits(n, tbl, nbits)
  {
    assert EobWithBits(n, tbl, NBits(n) - 1);
  }

  ghost predicate EobWithBits(n: nat, tbl: nat, nbits: nat)
    requires n > 0
  {
    && Pow2(nbits) <= n < Pow2(nbits + 1)
    && EobTokens(n, tbl) == [Sym(AC(tbl), 16 * nbits)] + if nbits == 0 then [] else [Raw(n, nbits)]
  }
}
