// Progressive Huffman coding of one band of one block (jcphuff.c, jdphuff.c),
// coefficients in zigzag order: what the encoder sends and what the decoder reads.
module ProgCodec {
  import opened Arith
  import opened Bits
  import opened Words
  import opened HuffTable
  import opened DerivedTables
  import opened Tokens
  import opened BitSource
  import opened Blocks
  import opened SeqCodec

  // A scan's band of coefficients and its bit positions: Ah is where the
  // coefficients stand before the scan (0: never sent), Al where they stand after it.
  datatype Band = Band(Ss: nat, Se: nat, Ah: nat, Al: nat)

  predicate ValidAc(b: Band) {
    1 <= b.Ss <= b.Se < DCTSIZE2 && b.Al <= 13 && (b.Ah == 0 || b.Ah == b.Al + 1)
  }

  // ----- the point transform -----

  // The coefficient without its al low-order bits, rounded towards zero.
  function PT(v: int, al: nat): int {
    if v < 0 then -((-v) / Pow2(al)) else v / Pow2(al)
  }

  // What the decoder knows of an AC coefficient down to bit al.
  function Trunc(v: Coef, al: nat): (r: Coef)
    ensures v >= 0 ==> 0 <= r <= v
    ensures v < 0 ==> v <= r <= 0
  {
    TruncBound(Abs(v), Pow2(al));
    PT(v, al) * Pow2(al)
  }

  lemma TruncBound(a: nat, p: nat)
    requires p > 0
    ensures 0 <= a / p * p <= a
    ensures -(a / p) * p == -(a / p * p)
  {
    var q, r := DivMod(a, p);
  }

  // The block with the coefficients of positions lo..hi-1 known down to bit al.
  function Mixed(z: Block, c: Block, lo: nat, hi: nat, al: nat): (r: Block)
    requires |z| == |c| == DCTSIZE2
    ensures |r| == DCTSIZE2
    ensures forall k: nat | k < DCTSIZE2 :: r[k] == if lo <= k < hi then Trunc(c[k], al) else z[k]
  {
    seq(DCTSIZE2, k requires 0 <= k < DCTSIZE2 => if lo <= k < hi then Trunc(c[k], al) else z[k])
  }

  // The block as earlier scans have left it.
  ghost predicate Before(z: Block, c: Block, b: Band) {
    && |z| == |c| == DCTSIZE2
    && forall k: nat | b.Ss <= k <= b.Se && k < DCTSIZE2 :: z[k] == if b.Ah == 0 then 0 else Trunc(c[k], b.Ah)
  }

  // ... and as the scan leaves it.
  function After(z: Block, c: Block, b: Band): (r: Block)
    requires |z| == |c| == DCTSIZE2
    ensures |r| == DCTSIZE2
  {
    Mixed(z, c, b.Ss, b.Se + 1, b.Al)
  }

  // ----- end-of-band runs and correction bits -----

  // The symbol and the bits for a run of n bands that end here.
  function EobTokens(n: nat, tbl: nat): seq<Token>
    requires n > 0
  {
    var nbits := NBits(n) - 1;
    [Sym(AC(tbl), 16 * nbits)] + if nbits > 0 then [Raw(n, nbits)] else []
  }

  function RawBits(s: Bits): (r: seq<Token>)
    ensures |r| == |s|
  {
    seq(|s|, i requires 0 <= i < |s| => Raw(Bit(s[i]), 1))
  }

  lemma {:induction false} RawBitsBits(t: CTables, s: Bits)
    requires SaneTables(t)
    ensures AllSendable(t, RawBits(s)) && TokensBits(t, RawBits(s)) == s
  {
    if s != [] {
      RawBitsBits(t, s[1..]);
      assert RawBits(s)[1..] == RawBits(s[1..]);
      assert ToBits(Unsigned(Bit(s[0])), 1) == [s[0]] by {
        assert ToBits(0, 0) == [];
      }
      assert s == [s[0]] + s[1..];
    }
  }

  lemma RawBitsConcat(a: Bits, b: Bits)
    ensures RawBits(a + b) == RawBits(a) + RawBits(b)
  {
  }

  // The run length that the decoder makes of an EOB symbol and its bits.
  lemma EobValue(n: nat, nbits: nat)
    requires n > 0 && nbits == NBits(n) - 1 && n < 0x8000
    ensures nbits <= 14 && n == Pow2(nbits) + Val(ToBits(Unsigned(n), nbits))
  {
    hide *;
    NBitsIs(n);
    Pow2Of15();
    if nbits > 14 {
      Pow2Mono(15, nbits);
    }
    LowPart(n, nbits, Pow2(nbits));
    ValToBits(n - Pow2(nbits), nbits);
    ToBitsLow(n, nbits);
    UnsignedSmall(n);
  }

  lemma NBitsIs(n: nat)
    requires n > 0
    ensures NBits(n) > 0 && Pow2(NBits(n) - 1) <= n < 2 * Pow2(NBits(n) - 1)
  {
    var k := NBits(n);
    assert Pow2(k) == 2 * Pow2(k - 1);
  }

  lemma Pow2Of15()
    ensures Pow2(15) == 0x8000
  {
    assert Pow2(8) == 0x100;
  }

  lemma UnsignedSmall(n: nat)
    requires n < 0x8000
    ensures Unsigned(n) == n
  {
  }

  lemma LowPart(n: nat, nbits: nat, p: nat)
    requires p == Pow2(nbits) && p <= n < 2 * p
    ensures n - p < Pow2(nbits) && n % Pow2(nbits) == n - p
  {
    DivUnique(n, p, 1, n - p);
  }

  // ----- first pass of an AC band -----

  // Coefficients from position k on, after a run of r zeros; a run at the end is left to an EOB.
  function FirstTokens(c: Block, k: nat, r: nat, b: Band, tbl: nat): seq<Token>
    requires |c| == DCTSIZE2 && b.Se < DCTSIZE2
    decreases b.Se + 1 - k
  {
    if k > b.Se then []
    else if PT(c[k], b.Al) == 0 then FirstTokens(c, k + 1, r + 1, b, tbl)
    else ValueTokens(PT(c[k], b.Al), r, tbl) + FirstTokens(c, k + 1, 0, b, tbl)
  }

  // How many zeros are left at the end.
  function FirstRun(c: Block, k: nat, r: nat, b: Band): nat
    requires |c| == DCTSIZE2 && b.Se < DCTSIZE2
    decreases b.Se + 1 - k
  {
    if k > b.Se then r
    else FirstRun(c, k + 1, if PT(c[k], b.Al) == 0 then r + 1 else 0, b)
  }

  predicate FirstInRange(c: Block, b: Band)
    requires |c| == DCTSIZE2 && b.Se < DCTSIZE2
  {
    forall k: nat | b.Ss <= k <= b.Se :: NBits(Abs(PT(c[k], b.Al))) <= MAX_COEF_BITS
  }

  // What a band's reader leaves: the block, the bands still to be passed over, the rest of the segment.
  datatype BandRead = BandRead(block: Block, eobrun: nat, src: Src)

  // decode_mcu_AC_first outside of an EOB run
  function ReadFirst(src: Src, t: HuffTbl, z: Block, k: nat, b: Band): (r: BandRead)
    requires WellTyped(t) && Legal(t.bits) && |z| == DCTSIZE2 && b.Se < DCTSIZE2
    ensures |r.block| == DCTSIZE2
    decreases DCTSIZE2 - k
  {
    if k > b.Se then BandRead(z, 0, src)
    else
      var sym, src1 := Symbol(t, src), AfterSymbol(t, src);
      var r, s := sym / 16, sym % 16;
      if s != 0 then
        ReadFirst(Skip(src1, s), t, Put(z, k + r, Cast(Received(src1, s) * Pow2(b.Al))), k + r + 1, b)
      else if r == 15 then ReadFirst(src1, t, z, k + 16, b)
      else BandRead(z, Pow2(r) + Peek(src1, r) - 1, Skip(src1, r))
  }

  // ----- reading a band back -----

  // A segment that begins with the given tokens.
  ghost function Sending(t: CTables, toks: seq<Token>, rest: Bits): Src
    requires SaneTables(t) && AllSendable(t, toks)
  {
    Src(TokensBits(t, toks) + rest, false)
  }

  lemma SendingSym(t: CTables, h: HuffTbl, tbl: nat, s: nat, more: seq<Token>, rest: Bits)
    requires AcPair(t, h, tbl) && AllSendable(t, [Sym(AC(tbl), s)] + more)
    ensures SaneTables(t) && AllSendable(t, more)
    ensures AtSymbol(h, Sending(t, [Sym(AC(tbl), s)] + more, rest), s, Sending(t, more, rest))
  {
    ReadSym(t, h, AC(tbl), s, more, rest, false);
  }

  lemma SendingRaw(t: CTables, v: int, n: nat, more: seq<Token>, rest: Bits)
    requires SaneTables(t) && 0 < n == NBits(Abs(v)) <= 15 && AllSendable(t, [Raw(Coded(v), n)] + more)
    ensures AllSendable(t, more) && AtValue(Sending(t, [Raw(Coded(v), n)] + more, rest), n, v, Sending(t, more, rest))
  {
    ReadRaw(t, v, n, more, rest, false);
  }

  // An EOB symbol and its bits.
  lemma SendingEob(t: CTables, h: HuffTbl, tbl: nat, n: nat, more: seq<Token>, rest: Bits)
    returns (nbits: nat, mid: Src)
    requires AcPair(t, h, tbl) && 0 < n < 0x8000 && AllSendable(t, EobTokens(n, tbl) + more)
    ensures SaneTables(t) && AllSendable(t, more) && nbits <= 14
    ensures AtSymbol(h, Sending(t, EobTokens(n, tbl) + more, rest), 16 * nbits, mid)
    ensures Pow2(nbits) + Peek(mid, nbits) == n && Skip(mid, nbits) == Sending(t, more, rest)
  {
    hide Legal, WellTyped, Symbol, AfterSymbol, Encodes, AtSymbol, NBits;
    nbits := NBits(n) - 1;
    EobValue(n, nbits);
    var tail := if nbits > 0 then [Raw(n, nbits)] + more else more;
    assert EobTokens(n, tbl) + more == [Sym(AC(tbl), 16 * nbits)] + tail;
    SendingSym(t, h, tbl, 16 * nbits, tail, rest);
    mid := Sending(t, tail, rest);
    if nbits > 0 {
      TokensBitsHead(t, Raw(n, nbits), more, rest);
    } else {
      assert [] + (TokensBits(t, more) + rest) == TokensBits(t, more) + rest;
    }
    ReadBack(ToBits(Unsigned(n), nbits), TokensBits(t, more) + rest, false);
  }

  // ----- steps of the first-pass reader -----

  lemma ReadFirstDone(src: Src, t: HuffTbl, z: Block, k: nat, b: Band)
    requires WellTyped(t) && Legal(t.bits) && |z| == DCTSIZE2 && b.Se < DCTSIZE2 && k > b.Se
    ensures ReadFirst(src, t, z, k, b) == BandRead(z, 0, src)
  {
  }

  lemma ReadFirstEob(src: Src, t: HuffTbl, z: Block, k: nat, b: Band, nbits: nat, mid: Src)
    requires |z| == DCTSIZE2 && b.Se < DCTSIZE2 && k <= b.Se && nbits <= 14 && AtSymbol(t, src, 16 * nbits, mid)
    ensures WellTyped(t) && Legal(t.bits)
    ensures ReadFirst(src, t, z, k, b) == BandRead(z, Pow2(nbits) + Peek(mid, nbits) - 1, Skip(mid, nbits))
  {
    hide Symbol, AfterSymbol, Legal, WellTyped, Received, Skip, Peek, Cast, Pow2;
    Nibbles(nbits, 0);
  }

  lemma ReadFirstRun(src: Src, t: HuffTbl, z: Block, k: nat, b: Band, src2: Src)
    requires |z| == DCTSIZE2 && b.Se < DCTSIZE2 && k <= b.Se && AtSymbol(t, src, 0xF0, src2)
    ensures WellTyped(t) && Legal(t.bits)
    ensures ReadFirst(src, t, z, k, b) == ReadFirst(src2, t, z, k + 16, b)
  {
    hide Symbol, AfterSymbol, Legal, WellTyped, Received, Skip, Peek, Cast, Pow2;
  }

  lemma ReadFirstValue(src: Src, t: HuffTbl, z: Block, k: nat, b: Band, r: nat, n: nat, v: int, mid: Src, src2: Src)
    requires |z| == DCTSIZE2 && b.Se < DCTSIZE2 && k <= b.Se && r < 16 && 0 < n < 16
    requires AtSymbol(t, src, 16 * r + n, mid) && AtValue(mid, n, v, src2)
    ensures WellTyped(t) && Legal(t.bits)
    ensures ReadFirst(src, t, z, k, b) == ReadFirst(src2, t, Put(z, k + r, Cast(v * Pow2(b.Al))), k + r + 1, b)
  {
    hide Symbol, AfterSymbol, Legal, WellTyped, Received, Skip, Peek, Cast, Pow2;
    Nibbles(r, n);
  }

  // ----- the first pass is read back -----

  // A coefficient after a run of r zeros.
  lemma {:induction false} ValueBack(t: CTables, h: HuffTbl, tbl: nat, v: int, r: nat, z: Block, k: nat, b: Band,
                                     more: seq<Token>, rest: Bits)
    requires AcPair(t, h, tbl) && |z| == DCTSIZE2 && b.Se < DCTSIZE2 && k + r <= b.Se
    requires v != 0 && NBits(Abs(v)) <= MAX_COEF_BITS && AllSendable(t, ValueTokens(v, r, tbl) + more)
    ensures WellTyped(h) && Legal(h.bits) && SaneTables(t) && AllSendable(t, more)
    ensures ReadFirst(Sending(t, ValueTokens(v, r, tbl) + more, rest), h, z, k, b)
         == ReadFirst(Sending(t, more, rest), h, Put(z, k + r, Cast(v * Pow2(b.Al))), k + r + 1, b)
    decreases r
  {
    hide *;
    Limits();
    PairParts(t, h, tbl);
    ValueTokensParts(v, r, tbl, more);
    if r > 15 {
      var tail := ValueTokens(v, r - 16, tbl) + more;
      SendingSym(t, h, tbl, 0xF0, tail, rest);
      ReadFirstRun(Sending(t, [Sym(AC(tbl), 0xF0)] + tail, rest), h, z, k, b, Sending(t, tail, rest));
      ValueBack(t, h, tbl, v, r - 16, z, k + 16, b, more, rest);
    } else {
      var n := NBits(Abs(v));
      var tail := [Raw(Coded(v), n)] + more;
      SendingSym(t, h, tbl, 16 * r + n, tail, rest);
      SendingRaw(t, v, n, more, rest);
      ReadFirstValue(Sending(t, [Sym(AC(tbl), 16 * r + n)] + tail, rest), h, z, k, b, r, n, v,
                     Sending(t, tail, rest), Sending(t, more, rest));
    }
  }

  lemma PairParts(t: CTables, h: HuffTbl, tbl: nat)
    requires AcPair(t, h, tbl)
    ensures WellTyped(h) && Legal(h.bits) && SaneTables(t)
  {
  }

  lemma ValueTokensParts(v: int, r: nat, tbl: nat, more: seq<Token>)
    ensures r > 15 ==> ValueTokens(v, r, tbl) + more == [Sym(AC(tbl), 0xF0)] + (ValueTokens(v, r - 16, tbl) + more)
    ensures r <= 15 ==>
      ValueTokens(v, r, tbl) + more == [Sym(AC(tbl), 16 * r + NBits(Abs(v)))] + ([Raw(Coded(v), NBits(Abs(v)))] + more)
    ensures v != 0 ==> NBits(Abs(v)) > 0
  {
  }

  lemma TruncZero(v: Coef, al: nat)
    ensures PT(v, al) == 0 ==> Trunc(v, al) == 0
    ensures Trunc(v, al) == PT(v, al) * Pow2(al) && Cast(PT(v, al) * Pow2(al)) == Trunc(v, al)
  {
  }

  // Zeros after the transform need not be written.
  lemma MixedZeros(z: Block, c: Block, b: Band, p: nat, k: nat)
    requires ValidAc(b) && b.Ah == 0 && Before(z, c, b) && b.Ss <= p <= k <= b.Se + 1
    requires forall j: nat | p <= j < k :: PT(c[j], b.Al) == 0
    ensures Mixed(z, c, b.Ss, p, b.Al) == Mixed(z, c, b.Ss, k, b.Al)
  {
    forall j: nat | p <= j < k
      ensures Trunc(c[j], b.Al) == 0 == z[j]
    {
      TruncZero(c[j], b.Al);
    }
  }

  lemma MixedPut(z: Block, c: Block, b: Band, p: nat, k: nat)
    requires ValidAc(b) && b.Ah == 0 && Before(z, c, b) && b.Ss <= p <= k <= b.Se
    requires forall j: nat | p <= j < k :: PT(c[j], b.Al) == 0
    ensures Put(Mixed(z, c, b.Ss, p, b.Al), k, Cast(PT(c[k], b.Al) * Pow2(b.Al))) == Mixed(z, c, b.Ss, k + 1, b.Al)
  {
    MixedZeros(z, c, b, p, k);
    TruncZero(c[k], b.Al);
  }

  lemma FirstTokensParts(c: Block, k: nat, r: nat, b: Band, tbl: nat, more: seq<Token>)
    requires |c| == DCTSIZE2 && ValidAc(b) && b.Ss <= k <= b.Se + 1
    ensures k > b.Se ==> FirstTokens(c, k, r, b, tbl) + more == more && FirstRun(c, k, r, b) == r
    ensures k <= b.Se && PT(c[k], b.Al) == 0 ==>
      FirstTokens(c, k, r, b, tbl) == FirstTokens(c, k + 1, r + 1, b, tbl)
      && FirstRun(c, k, r, b) == FirstRun(c, k + 1, r + 1, b)
    ensures k <= b.Se && PT(c[k], b.Al) != 0 ==>
      && FirstTokens(c, k, r, b, tbl) + more
          == ValueTokens(PT(c[k], b.Al), r, tbl) + (FirstTokens(c, k + 1, 0, b, tbl) + more)
      && FirstRun(c, k, r, b) == FirstRun(c, k + 1, 0, b)
    ensures FirstInRange(c, b) && k <= b.Se ==> NBits(Abs(PT(c[k], b.Al))) <= MAX_COEF_BITS
    ensures |c| == 64 && b.Se < 64
  {
    assert FirstTokens(c, b.Se + 1, r, b, tbl) + more == more;
    if k <= b.Se && PT(c[k], b.Al) != 0 {
      Assoc(ValueTokens(PT(c[k], b.Al), r, tbl), FirstTokens(c, k + 1, 0, b, tbl), more);
    }
  }

  // The run left at the end fits between the last coefficient sent and the end of the band.
  lemma {:induction false} FirstRunBound(c: Block, k: nat, r: nat, b: Band)
    requires |c| == DCTSIZE2 && b.Se < DCTSIZE2 && b.Ss + r <= k <= b.Se + 1
    ensures FirstRun(c, k, r, b) <= b.Se + 1 - b.Ss
    decreases b.Se + 1 - k
  {
    if k <= b.Se {
      FirstRunBound(c, k + 1, if PT(c[k], b.Al) == 0 then r + 1 else 0, b);
    }
  }

  // Reading what is sent of a band, up to the zeros left at its end.
  lemma {:induction false} FirstBack(t: CTables, h: HuffTbl, tbl: nat, c: Block, z: Block, k: nat, r: nat, b: Band,
                                     more: seq<Token>, rest: Bits)
    requires AcPair(t, h, tbl) && ValidAc(b) && b.Ah == 0 && Before(z, c, b) && FirstInRange(c, b)
    requires b.Ss + r <= k <= b.Se + 1 && forall j: nat | k - r <= j < k :: PT(c[j], b.Al) == 0
    requires AllSendable(t, FirstTokens(c, k, r, b, tbl) + more)
    ensures WellTyped(h) && Legal(h.bits) && SaneTables(t) && AllSendable(t, more)
    ensures FirstRun(c, k, r, b) <= b.Se + 1 - b.Ss
    ensures ReadFirst(Sending(t, FirstTokens(c, k, r, b, tbl) + more, rest), h, Mixed(z, c, b.Ss, k - r, b.Al), k - r,
                      b)
         == ReadFirst(Sending(t, more, rest), h, After(z, c, b), b.Se + 1 - FirstRun(c, k, r, b), b)
    decreases b.Se + 1 - k
  {
    hide *;
    FirstShape(c, z, b);
    PairParts(t, h, tbl);
    FirstTokensParts(c, k, r, b, tbl, more);
    FirstRunBound(c, k, r, b);
    if k > b.Se {
      MixedZeros(z, c, b, k - r, k);
    } else if PT(c[k], b.Al) == 0 {
      FirstBack(t, h, tbl, c, z, k + 1, r + 1, b, more, rest);
    } else {
      ValueBack(t, h, tbl, PT(c[k], b.Al), r, Mixed(z, c, b.Ss, k - r, b.Al), k - r, b,
                FirstTokens(c, k + 1, 0, b, tbl) + more, rest);
      MixedPut(z, c, b, k - r, k);
      FirstBack(t, h, tbl, c, z, k + 1, 0, b, more, rest);
    }
  }

  lemma FirstShape(c: Block, z: Block, b: Band)
    requires ValidAc(b) && Before(z, c, b)
    ensures |c| == |z| == DCTSIZE2 == 64 && b.Se < DCTSIZE2
    ensures After(z, c, b) == Mixed(z, c, b.Ss, b.Se + 1, b.Al)
  {
  }

  // ----- laws of the first pass -----

  // The point transform of AC coefficients drops low-order bits of the magnitude
  // and keeps the sign.
  lemma PointTransform(v: int, al: nat)
    ensures Abs(PT(v, al)) * Pow2(al) <= Abs(v) < (Abs(PT(v, al)) + 1) * Pow2(al)
    ensures PT(v, al) != 0 ==> (PT(v, al) < 0 <==> v < 0)
  {
    hide Pow2;
    var p := Pow2(al);
    var q, r := DivMod(Abs(v), p);
    assert Abs(PT(v, al)) == q;
    assert (q + 1) * p == q * p + p;
  }

  // Before a coefficient j, g zeros are sent as g / 16 symbols for 16 zeros and the
  // other g % 16 in the symbol of the coefficient.
  lemma {:induction false} FirstGap(c: Block, k: nat, r: nat, j: nat, b: Band, tbl: nat)
    requires |c| == DCTSIZE2 && k <= j <= b.Se < DCTSIZE2 && PT(c[j], b.Al) != 0
    requires forall i | k <= i < j :: PT(c[i], b.Al) == 0
    ensures var g, v := r + (j - k), PT(c[j], b.Al);
            FirstTokens(c, k, r, b, tbl) == LongRuns(g / 16, tbl)
              + ([Sym(AC(tbl), 16 * (g % 16) + NBits(Abs(v))), Raw(Coded(v), NBits(Abs(v)))]
                 + FirstTokens(c, j + 1, 0, b, tbl))
    decreases j - k
  {
    hide PT, NBits, ValueTokens;
    if k < j {
      FirstGap(c, k + 1, r + 1, j, b, tbl);
    } else {
      ValueAfterRun(PT(c[j], b.Al), r, tbl);
      Assoc(LongRuns(r / 16, tbl), ValueTokens(PT(c[j], b.Al), r % 16, tbl), FirstTokens(c, k + 1, 0, b, tbl));
    }
  }

  // Of zeros at the end of the band nothing is sent; they are left to an EOB.
  lemma {:induction false} FirstEnd(c: Block, k: nat, r: nat, b: Band, tbl: nat)
    requires |c| == DCTSIZE2 && k <= b.Se + 1 <= DCTSIZE2 && forall i | k <= i <= b.Se :: PT(c[i], b.Al) == 0
    ensures FirstTokens(c, k, r, b, tbl) == [] && FirstRun(c, k, r, b) == r + (b.Se + 1 - k)
    decreases b.Se + 1 - k
  {
    hide PT;
    if k <= b.Se {
      FirstEnd(c, k + 1, r + 1, b, tbl);
    }
  }
}
