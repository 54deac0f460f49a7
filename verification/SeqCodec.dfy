// Sequential Huffman coding of one block, its coefficients in zigzag order: what encode_one_block (jchuff.c)
// sends and what the block loop of decode_mcu (jdhuff.c) reads.
module SeqCodec {
  import opened Arith
  import opened Bits
  import opened HuffTable
  import opened DerivedTables
  import opened Tokens
  import opened BitSource
  import opened Blocks

  const MAX_COEF_BITS := 10

  lemma Limits()
    ensures MAX_COEF_BITS == 10 && DCTSIZE2 == 64 && NUM_HUFF_TBLS == 4
  {
  }

  // ----- sending -----

  // A DC difference (section F.1.2.1): the number of its bits, then the bits.
  function DcTokens(diff: int, tbl: nat): seq<Token> {
    var n := NBits(Abs(diff));
    [Sym(DC(tbl), n)] + if n == 0 then [] else [Raw(Coded(diff), n)]
  }

  // The AC coefficients from position k on, after a run of r zeros (section F.1.2.2).
  function AcTokens(b: Block, k: nat, r: nat, tbl: nat): seq<Token>
    requires |b| == DCTSIZE2 && k <= DCTSIZE2
    decreases DCTSIZE2 - k, r
  {
    if k == DCTSIZE2 then
      if r > 0 then [Sym(AC(tbl), 0)] else []
    else if b[k] == 0 then AcTokens(b, k + 1, r + 1, tbl)
    else if r > 15 then [Sym(AC(tbl), 0xF0)] + AcTokens(b, k, r - 16, tbl)
    else
      var n := NBits(Abs(b[k]));
      [Sym(AC(tbl), 16 * r + n)] + ([Raw(Coded(b[k]), n)] + AcTokens(b, k + 1, 0, tbl))
  }

  // A coefficient after a run of r zeros.
  function ValueTokens(v: int, r: nat, tbl: nat): seq<Token> {
    var n := NBits(Abs(v));
    if r > 15 then [Sym(AC(tbl), 0xF0)] + ValueTokens(v, r - 16, tbl)
    else [Sym(AC(tbl), 16 * r + n)] + [Raw(Coded(v), n)]
  }

  lemma {:induction false} AcTokensValue(b: Block, k: nat, r: nat, tbl: nat)
    requires |b| == DCTSIZE2 && k < DCTSIZE2 && b[k] != 0
    ensures AcTokens(b, k, r, tbl) == ValueTokens(b[k], r, tbl) + AcTokens(b, k + 1, 0, tbl)
    decreases r
  {
    if r > 15 {
      AcTokensValue(b, k, r - 16, tbl);
    }
  }

  function BlockTokens(b: Block, last: int, dctbl: nat, actbl: nat): seq<Token>
    requires |b| == DCTSIZE2
  {
    DcTokens(b[0] - last, dctbl) + AcTokens(b, 1, 0, actbl)
  }

  // The coefficients the encoder accepts.
  predicate InRange(b: Block, last: int)
    requires |b| == DCTSIZE2
  {
    NBits(Abs(b[0] - last)) <= MAX_COEF_BITS + 1 && AcInRange(b)
  }

  predicate AcInRange(b: Block)
    requires |b| == DCTSIZE2
  {
    forall k: nat | 1 <= k < DCTSIZE2 :: NBits(Abs(b[k])) <= MAX_COEF_BITS
  }

  // ----- receiving -----

  // The value of s bits, or 0 if there are none.
  function Received(src: Src, s: nat): int {
    if s == 0 then 0 else Extend(Peek(src, s), s)
  }

  // Reads AC coefficients into b from position k on.
  function ReadAc(src: Src, t: HuffTbl, b: Block, k: nat): (r: (Block, Src))
    requires WellTyped(t) && Legal(t.bits) && |b| == DCTSIZE2
    ensures |r.0| == DCTSIZE2
    decreases DCTSIZE2 - k
  {
    if k >= DCTSIZE2 then (b, src)
    else
      var sym, src1 := Symbol(t, src), AfterSymbol(t, src);
      var r, s := sym / 16, sym % 16;
      if s != 0 then
        ReadAc(Skip(src1, s), t, Put(b, k + r, Cast(Received(src1, s))), k + r + 1)
      else if r != 15 then (b, src1)
      else ReadAc(src1, t, b, k + 16)
  }

  // Reads a block: the coefficients, the new DC value, and the rest of the segment.
  function ReadBlock(src: Src, dc: HuffTbl, ac: HuffTbl, last: int): (r: (Block, int, Src))
    requires WellTyped(dc) && Legal(dc.bits) && WellTyped(ac) && Legal(ac.bits)
    ensures |r.0| == DCTSIZE2
  {
    var s, src1 := Symbol(dc, src), AfterSymbol(dc, src);
    var value := last + Received(src1, s);
    var (b, src2) := ReadAc(Skip(src1, s), ac, ZeroBlock()[0 := Cast(value)], 1);
    (b, value, src2)
  }

  // ----- reading back what was sent -----

  lemma ReadSymbol(t: HuffTbl, d: CDerived, s: nat, rest: Bits, dry: bool)
    requires Encodes(t, d) && s < 256 && d.ehufsi[s] != 0
    ensures Symbol(t, Src(SymbolBits(d, s) + rest, dry)) == s
    ensures AfterSymbol(t, Src(SymbolBits(d, s) + rest, dry)) == Src(rest, dry)
  {
    CodesAgree(t, d, s, rest);
    ReadBack(SymbolBits(d, s), rest, dry);
  }

  lemma ReadValue(v: int, n: nat, rest: Bits, dry: bool)
    requires 0 < n == NBits(Abs(v)) <= 15
    ensures Received(Src(ToBits(Unsigned(Coded(v)), n) + rest, dry), n) == v
    ensures Skip(Src(ToBits(Unsigned(Coded(v)), n) + rest, dry), n) == Src(rest, dry)
  {
    ReadBack(ToBits(Unsigned(Coded(v)), n), rest, dry);
    CodedExtend(v);
  }

  // The decoder's block so far: right below position k, zero from there on.
  ghost predicate Agrees(cur: Block, b: Block, k: nat) {
    && |cur| == |b| == DCTSIZE2
    && forall j: nat | j < DCTSIZE2 :: cur[j] == if j < k then b[j] else 0
  }

  lemma AgreesAll(cur: Block, b: Block, k: nat)
    requires Agrees(cur, b, k) && forall j: nat | k <= j < DCTSIZE2 :: b[j] == 0
    ensures cur == b
  {
  }

  lemma AgreesPut(cur: Block, b: Block, k: nat, r: nat)
    requires Agrees(cur, b, k) && k + r < DCTSIZE2
    requires forall j: nat | k <= j < k + r :: b[j] == 0
    ensures Agrees(Put(cur, k + r, b[k + r]), b, k + r + 1)
  {
  }

  lemma AgreesSkip(cur: Block, b: Block, k: nat, r: nat)
    requires Agrees(cur, b, k)
    requires forall j: nat | k <= j < k + r && j < DCTSIZE2 :: b[j] == 0
    ensures Agrees(cur, b, k + r)
  {
  }

  lemma CastCoef(v: Coef)
    ensures Cast(v) == v
  {
  }

  // The next symbol of src is s; src2 is left after it.
  ghost predicate AtSymbol(h: HuffTbl, src: Src, s: nat, src2: Src) {
    WellTyped(h) && Legal(h.bits) && Symbol(h, src) == s && AfterSymbol(h, src) == src2
  }

  // The next n bits of src, if any, stand for v; src2 is left after them.
  ghost predicate AtValue(src: Src, n: nat, v: int, src2: Src) {
    Received(src, n) == v && Skip(src, n) == src2
  }

  // A symbol is read back ...
  lemma ReadSym(t: CTables, h: HuffTbl, ref: TblRef, s: nat, more: seq<Token>, rest: Bits, dry: bool)
    requires SaneTables(t) && ref.no < NUM_HUFF_TBLS && Encodes(h, TableOf(t, ref))
    requires AllSendable(t, [Sym(ref, s)] + more)
    ensures AllSendable(t, more)
    ensures AtSymbol(h, Src(TokensBits(t, [Sym(ref, s)] + more) + rest, dry), s, Src(TokensBits(t, more) + rest, dry))
  {
    TokensBitsHead(t, Sym(ref, s), more, rest);
    ReadSymbol(h, TableOf(t, ref), s, TokensBits(t, more) + rest, dry);
  }

  // ... and so are the bits of a value.
  lemma ReadRaw(t: CTables, v: int, n: nat, more: seq<Token>, rest: Bits, dry: bool)
    requires SaneTables(t) && 0 < n == NBits(Abs(v)) <= 15
    requires AllSendable(t, [Raw(Coded(v), n)] + more)
    ensures AllSendable(t, more)
    ensures AtValue(Src(TokensBits(t, [Raw(Coded(v), n)] + more) + rest, dry), n, v,
                    Src(TokensBits(t, more) + rest, dry))
  {
    TokensBitsHead(t, Raw(Coded(v), n), more, rest);
    ReadValue(v, n, TokensBits(t, more) + rest, dry);
  }

  // ----- one step of the reader -----

  lemma ReadAcDone(src: Src, t: HuffTbl, b: Block)
    requires WellTyped(t) && Legal(t.bits) && |b| == DCTSIZE2
    ensures ReadAc(src, t, b, DCTSIZE2) == (b, src)
  {
  }

  lemma ReadAcEnd(src: Src, t: HuffTbl, b: Block, k: nat, src2: Src)
    requires |b| == DCTSIZE2 && k < DCTSIZE2 && AtSymbol(t, src, 0, src2)
    ensures ReadAc(src, t, b, k) == (b, src2)
  {
  }

  lemma ReadAcRun(src: Src, t: HuffTbl, b: Block, k: nat, src2: Src)
    requires |b| == DCTSIZE2 && k < DCTSIZE2 && AtSymbol(t, src, 0xF0, src2)
    ensures ReadAc(src, t, b, k) == ReadAc(src2, t, b, k + 16)
  {
    hide SymbolAt;
  }

  lemma ReadAcValue(src: Src, t: HuffTbl, b: Block, k: nat, r: nat, n: nat, v: Coef, mid: Src, src2: Src)
    requires |b| == DCTSIZE2 && k < DCTSIZE2 && r < 16 && 0 < n < 16
    requires AtSymbol(t, src, 16 * r + n, mid) && AtValue(mid, n, v, src2)
    ensures ReadAc(src, t, b, k) == ReadAc(src2, t, Put(b, k + r, v), k + r + 1)
  {
    hide SymbolAt, Received, Legal, WellTyped, Symbol, AfterSymbol, Skip, Cast;
    CastCoef(v);
    Nibbles(r, n);
  }

  lemma Nibbles(r: nat, n: nat)
    requires n < 16
    ensures (16 * r + n) / 16 == r && (16 * r + n) % 16 == n
  {
  }

  // The segment at the point where the AC coefficients from k on are sent.
  ghost function AcSource(t: CTables, b: Block, k: nat, r: nat, tbl: nat, rest: Bits, dry: bool): Src
    requires SaneTables(t) && |b| == DCTSIZE2 && k <= DCTSIZE2 && AllSendable(t, AcTokens(b, k, r, tbl))
  {
    Src(TokensBits(t, AcTokens(b, k, r, tbl)) + rest, dry)
  }

  // Tables for one component: the encoder's and the decoder's.
  ghost predicate AcPair(t: CTables, ac: HuffTbl, tbl: nat) {
    SaneTables(t) && tbl < NUM_HUFF_TBLS && Encodes(ac, t.ac[tbl])
  }

  lemma AcUsable(t: CTables, ac: HuffTbl, tbl: nat, cur: Block, b: Block, k: nat)
    requires AcPair(t, ac, tbl) && Agrees(cur, b, k)
    ensures SaneTables(t) && WellTyped(ac) && Legal(ac.bits) && |cur| == DCTSIZE2
  {
  }

  lemma AcSourceEnd(t: CTables, ac: HuffTbl, tbl: nat, b: Block, r: nat, rest: Bits, dry: bool)
    requires AcPair(t, ac, tbl) && |b| == DCTSIZE2
    requires AllSendable(t, AcTokens(b, DCTSIZE2, r, tbl))
    ensures var src := AcSource(t, b, DCTSIZE2, r, tbl, rest, dry);
            if r > 0 then AtSymbol(ac, src, 0, Src(rest, dry)) else src == Src(rest, dry)
  {
    assert TokensBits(t, []) + rest == rest;
    if r > 0 {
      assert AcTokens(b, DCTSIZE2, r, tbl) == [Sym(AC(tbl), 0)] + [];
      ReadSym(t, ac, AC(tbl), 0, [], rest, dry);
    }
  }

  lemma AcSourceZero(t: CTables, tbl: nat, b: Block, k: nat, r: nat, rest: Bits, dry: bool)
    requires SaneTables(t) && |b| == DCTSIZE2 && k < DCTSIZE2 && b[k] == 0 && AllSendable(t, AcTokens(b, k, r, tbl))
    ensures AllSendable(t, AcTokens(b, k + 1, r + 1, tbl))
    ensures AcSource(t, b, k, r, tbl, rest, dry) == AcSource(t, b, k + 1, r + 1, tbl, rest, dry)
  {
  }

  lemma AcSourceRun(t: CTables, ac: HuffTbl, tbl: nat, b: Block, k: nat, r: nat, rest: Bits, dry: bool)
    requires AcPair(t, ac, tbl) && |b| == DCTSIZE2
    requires k < DCTSIZE2 && b[k] != 0 && r > 15 && AllSendable(t, AcTokens(b, k, r, tbl))
    ensures AllSendable(t, AcTokens(b, k, r - 16, tbl))
    ensures AtSymbol(ac, AcSource(t, b, k, r, tbl, rest, dry), 0xF0, AcSource(t, b, k, r - 16, tbl, rest, dry))
  {
    ReadSym(t, ac, AC(tbl), 0xF0, AcTokens(b, k, r - 16, tbl), rest, dry);
  }

  lemma AcBits(b: Block, k: nat) returns (n: nat)
    requires |b| == DCTSIZE2 && AcInRange(b) && 1 <= k < DCTSIZE2 && b[k] != 0
    ensures 0 < n == NBits(Abs(b[k])) < 16
  {
    n := NBits(Abs(b[k]));
  }

  lemma AcSourceValue(t: CTables, ac: HuffTbl, tbl: nat, b: Block, k: nat, r: nat, n: nat, rest: Bits, dry: bool)
    returns (mid: Src)
    requires AcPair(t, ac, tbl) && |b| == DCTSIZE2 && k < DCTSIZE2
    requires AllSendable(t, AcTokens(b, k, r, tbl))
    requires b[k] != 0 && r <= 15 && 0 < n == NBits(Abs(b[k])) < 16
    ensures AllSendable(t, AcTokens(b, k + 1, 0, tbl))
    ensures AtSymbol(ac, AcSource(t, b, k, r, tbl, rest, dry), 16 * r + n, mid)
    ensures AtValue(mid, n, b[k], AcSource(t, b, k + 1, 0, tbl, rest, dry))
  {
    hide Legal, WellTyped, Symbol, AfterSymbol, Skip, Received, TokensBits, AtSymbol, AtValue;
    var v, more := b[k], AcTokens(b, k + 1, 0, tbl);
    var tail := [Raw(Coded(v), n)] + more;
    ReadSym(t, ac, AC(tbl), 16 * r + n, tail, rest, dry);
    ReadRaw(t, v, n, more, rest, dry);
    mid := Src(TokensBits(t, tail) + rest, dry);
  }

  // Reading the AC tokens from position k on, r zeros pending, completes the block.
  lemma {:induction false} AcRoundTrip(t: CTables, ac: HuffTbl, tbl: nat, b: Block, k: nat, r: nat,
                                       cur: Block, rest: Bits, dry: bool)
    requires AcPair(t, ac, tbl)
    requires |b| == DCTSIZE2 && r < k <= DCTSIZE2 && AcInRange(b)
    requires Agrees(cur, b, k - r) && forall j: nat | k - r <= j < k :: b[j] == 0
    requires AllSendable(t, AcTokens(b, k, r, tbl))
    ensures ReadAc(AcSource(t, b, k, r, tbl, rest, dry), ac, cur, k - r) == (b, Src(rest, dry))
    decreases DCTSIZE2 - k, r
  {
    hide *;
    AcUsable(t, ac, tbl, cur, b, k - r);
    var src := AcSource(t, b, k, r, tbl, rest, dry);
    if k == DCTSIZE2 {
      AgreesAll(cur, b, k - r);
      AcSourceEnd(t, ac, tbl, b, r, rest, dry);
      if r > 0 {
        ReadAcEnd(src, ac, cur, k - r, Src(rest, dry));
      } else {
        ReadAcDone(src, ac, cur);
      }
    } else if b[k] == 0 {
      AcSourceZero(t, tbl, b, k, r, rest, dry);
      AcRoundTrip(t, ac, tbl, b, k + 1, r + 1, cur, rest, dry);
    } else if r > 15 {
      AcSourceRun(t, ac, tbl, b, k, r, rest, dry);
      ReadAcRun(src, ac, cur, k - r, AcSource(t, b, k, r - 16, tbl, rest, dry));
      AgreesSkip(cur, b, k - r, 16);
      AcRoundTrip(t, ac, tbl, b, k, r - 16, cur, rest, dry);
    } else {
      var n := AcBits(b, k);
      var mid := AcSourceValue(t, ac, tbl, b, k, r, n, rest, dry);
      ReadAcValue(src, ac, cur, k - r, r, n, b[k], mid, AcSource(t, b, k + 1, 0, tbl, rest, dry));
      AgreesPut(cur, b, k - r, r);
      AcRoundTrip(t, ac, tbl, b, k + 1, 0, Put(cur, k, b[k]), rest, dry);
    }
  }

  lemma DcRoundTrip(t: CTables, dc: HuffTbl, tbl: nat, diff: int, more: seq<Token>, rest: Bits, dry: bool)
    returns (mid: Src)
    requires SaneTables(t) && tbl < NUM_HUFF_TBLS && Encodes(dc, t.dc[tbl])
    requires NBits(Abs(diff)) <= 15 && AllSendable(t, DcTokens(diff, tbl) + more)
    ensures AllSendable(t, more)
    ensures AtSymbol(dc, Src(TokensBits(t, DcTokens(diff, tbl) + more) + rest, dry), NBits(Abs(diff)), mid)
    ensures AtValue(mid, NBits(Abs(diff)), diff, Src(TokensBits(t, more) + rest, dry))
  {
    var n := NBits(Abs(diff));
    var tail := if n == 0 then more else [Raw(Coded(diff), n)] + more;
    assert DcTokens(diff, tbl) + more == [Sym(DC(tbl), n)] + tail;
    ReadSym(t, dc, DC(tbl), n, tail, rest, dry);
    mid := Src(TokensBits(t, tail) + rest, dry);
    if n > 0 {
      ReadRaw(t, diff, n, more, rest, dry);
    } else {
      AheadConcat([], TokensBits(t, more) + rest);
    }
  }

  lemma ReadBlockSteps(src: Src, dc: HuffTbl, ac: HuffTbl, last: int, n: nat, v: Coef, mid: Src, src2: Src)
    requires WellTyped(ac) && Legal(ac.bits)
    requires AtSymbol(dc, src, n, mid) && AtValue(mid, n, v - last, src2)
    ensures var r := ReadAc(src2, ac, ZeroBlock()[0 := v], 1);
            ReadBlock(src, dc, ac, last) == (r.0, v as int, r.1)
  {
    hide SymbolAt, ReadAc;
    CastCoef(v);
  }

  lemma BlockParts(t: CTables, dc: HuffTbl, ac: HuffTbl, dctbl: nat, actbl: nat, b: Block, last: int)
    requires SaneTables(t) && dctbl < NUM_HUFF_TBLS && actbl < NUM_HUFF_TBLS
    requires Encodes(dc, t.dc[dctbl]) && Encodes(ac, t.ac[actbl])
    requires |b| == DCTSIZE2 && InRange(b, last)
    ensures AcPair(t, ac, actbl) && WellTyped(ac) && Legal(ac.bits)
    ensures BlockTokens(b, last, dctbl, actbl) == DcTokens(b[0] - last, dctbl) + AcTokens(b, 1, 0, actbl)
    ensures NBits(Abs(b[0] - last)) <= 15 && AcInRange(b)
    ensures |ZeroBlock()| == DCTSIZE2 == 64 && Agrees(ZeroBlock()[0 := b[0]], b, 1)
  {
  }

  // A block that is in range is read back exactly, whatever follows it.
  lemma BlockRoundTrip(t: CTables, dc: HuffTbl, ac: HuffTbl, dctbl: nat, actbl: nat, b: Block, last: int,
                       rest: Bits, dry: bool)
    requires SaneTables(t) && dctbl < NUM_HUFF_TBLS && actbl < NUM_HUFF_TBLS
    requires Encodes(dc, t.dc[dctbl]) && Encodes(ac, t.ac[actbl])
    requires |b| == DCTSIZE2 && InRange(b, last) && AllSendable(t, BlockTokens(b, last, dctbl, actbl))
    ensures ReadBlock(Src(TokensBits(t, BlockTokens(b, last, dctbl, actbl)) + rest, dry), dc, ac, last)
         == (b, b[0] as int, Src(rest, dry))
  {
    hide *;
    BlockParts(t, dc, ac, dctbl, actbl, b, last);
    var src, diff := Src(TokensBits(t, BlockTokens(b, last, dctbl, actbl)) + rest, dry), b[0] - last;
    var mid := DcRoundTrip(t, dc, dctbl, diff, AcTokens(b, 1, 0, actbl), rest, dry);
    AcSourceIs(t, b, 1, 0, actbl, rest, dry);
    ReadBlockSteps(src, dc, ac, last, NBits(Abs(diff)), b[0], mid, AcSource(t, b, 1, 0, actbl, rest, dry));
    AcRoundTrip(t, ac, actbl, b, 1, 0, ZeroBlock()[0 := b[0]], rest, dry);
  }

  lemma AcSourceIs(t: CTables, b: Block, k: nat, r: nat, tbl: nat, rest: Bits, dry: bool)
    requires SaneTables(t) && |b| == DCTSIZE2 && k <= DCTSIZE2 && AllSendable(t, AcTokens(b, k, r, tbl))
    ensures AcSource(t, b, k, r, tbl, rest, dry) == Src(TokensBits(t, AcTokens(b, k, r, tbl)) + rest, dry)
  {
  }

  // ----- what is sent between two coefficients, and at the end -----

  // n symbols for 16 zeros each
  function LongRuns(n: nat, tbl: nat): (r: seq<Token>)
    ensures |r| == n && forall i | 0 <= i < n :: r[i] == Sym(AC(tbl), 0xF0)
  {
    seq(n, _ => Sym(AC(tbl), 0xF0))
  }

  // Before a coefficient j, g zeros are sent as g / 16 symbols for 16 zeros and the
  // other g % 16 in the symbol of the coefficient.
  lemma {:induction false} AcGap(b: Block, k: nat, r: nat, j: nat, tbl: nat)
    requires |b| == DCTSIZE2 && k <= j < DCTSIZE2 && b[j] != 0 && forall i | k <= i < j :: b[i] == 0
    ensures var g, n := r + (j - k), NBits(Abs(b[j]));
            AcTokens(b, k, r, tbl) == LongRuns(g / 16, tbl)
              + ([Sym(AC(tbl), 16 * (g % 16) + n), Raw(Coded(b[j]), n)] + AcTokens(b, j + 1, 0, tbl))
    decreases j - k
  {
    hide NBits, ValueTokens;
    if k < j {
      AcGap(b, k + 1, r + 1, j, tbl);
    } else {
      AcTokensValue(b, k, r, tbl);
      ValueAfterRun(b[k], r, tbl);
      Assoc(LongRuns(r / 16, tbl), ValueTokens(b[k], r % 16, tbl), AcTokens(b, k + 1, 0, tbl));
    }
  }

  lemma {:induction false} ValueAfterRun(v: int, r: nat, tbl: nat)
    ensures ValueTokens(v, r % 16, tbl) == [Sym(AC(tbl), 16 * (r % 16) + NBits(Abs(v))), Raw(Coded(v), NBits(Abs(v)))]
    ensures ValueTokens(v, r, tbl) == LongRuns(r / 16, tbl) + ValueTokens(v, r % 16, tbl)
    decreases r
  {
    hide NBits;
    if r > 15 {
      ValueAfterRun(v, r - 16, tbl);
      assert r / 16 == (r - 16) / 16 + 1 && r % 16 == (r - 16) % 16;
      assert LongRuns(r / 16, tbl) == [Sym(AC(tbl), 0xF0)] + LongRuns((r - 16) / 16, tbl);
      Assoc([Sym(AC(tbl), 0xF0)], LongRuns((r - 16) / 16, tbl), ValueTokens(v, r % 16, tbl));
    }
  }

  // Zeros at the end of a block are sent as a single EOB, and no EOB if there are none.
  lemma {:induction false} AcEnd(b: Block, k: nat, r: nat, tbl: nat)
    requires |b| == DCTSIZE2 && k <= DCTSIZE2 && forall i | k <= i < DCTSIZE2 :: b[i] == 0
    ensures AcTokens(b, k, r, tbl) == if r + (DCTSIZE2 - k) > 0 then [Sym(AC(tbl), 0)] else []
    decreases DCTSIZE2 - k
  {
    if k < DCTSIZE2 {
      AcEnd(b, k + 1, r + 1, tbl);
    }
  }
}
