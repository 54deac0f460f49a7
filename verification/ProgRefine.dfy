// Refining an AC band by one bit (section G.1.2.3 of ITU-T T.81): coefficients
// that are known already get a correction bit, new ones are coded with the run
// of zeros before them.
module ProgRefine {
  import opened Arith
  import opened Bits
  import opened HuffTable
  import opened Tokens
  import opened BitSource
  import opened Blocks
  import opened SeqCodec
  import opened ProgCodec

  // abs(v) >> al: 0 still zero, 1 new in this scan, more than 1 known before.
  function Level(v: int, al: nat): nat {
    Quot(Abs(v), Pow2(al))
  }

  // ----- sending -----

  // The index of the last new coefficient at or below k, or 0.
  function LastNew(c: Block, k: nat, b: Band): nat
    requires |c| == DCTSIZE2 && k < DCTSIZE2
  {
    if k < b.Ss then 0
    else if Level(c[k], b.Al) == 1 then k
    else if k == 0 then 0 else LastNew(c, k - 1, b)
  }

  // From position k on, with r zeros pending and the correction bits br of the
  // coefficients among them. Zero runs that an EOB can take in are not sent.
  function RefineTokens(c: Block, k: nat, r: nat, br: Bits, b: Band, tbl: nat): seq<Token>
    requires |c| == DCTSIZE2 && b.Se < DCTSIZE2
    decreases b.Se + 1 - k, r
  {
    if k > b.Se then []
    else
      var a := Level(c[k], b.Al);
      if a == 0 then RefineTokens(c, k + 1, r + 1, br, b, tbl)
      else if r > 15 && k <= LastNew(c, b.Se, b) then
        [Sym(AC(tbl), 0xF0)] + (RawBits(br) + RefineTokens(c, k, r - 16, [], b, tbl))
      else if a > 1 then RefineTokens(c, k + 1, r, br + [a % 2 == 1], b, tbl)
      else
        [Sym(AC(tbl), 16 * r + 1)] + ([Raw(if c[k] < 0 then 0 else 1, 1)]
                                      + (RawBits(br) + RefineTokens(c, k + 1, 0, [], b, tbl)))
  }

  // The zeros and the correction bits that are left at the end.
  function RefineTail(c: Block, k: nat, r: nat, br: Bits, b: Band): (nat, Bits)
    requires |c| == DCTSIZE2 && b.Se < DCTSIZE2
    decreases b.Se + 1 - k, r
  {
    if k > b.Se then (r, br)
    else
      var a := Level(c[k], b.Al);
      if a == 0 then RefineTail(c, k + 1, r + 1, br, b)
      else if r > 15 && k <= LastNew(c, b.Se, b) then RefineTail(c, k, r - 16, [], b)
      else if a > 1 then RefineTail(c, k + 1, r, br + [a % 2 == 1], b)
      else RefineTail(c, k + 1, 0, [], b)
  }

  // ----- receiving -----

  // A coefficient that is known already, after its correction bit. The bit is
  // not added if it is there already, so that repeating a correction is harmless.
  function Correct(v: Coef, bit: bool, al: nat): Coef {
    if bit && (v / Pow2(al)) % 2 == 0 then Cast(if v >= 0 then v + Pow2(al) else v - Pow2(al)) else v
  }

  datatype Stop = Stop(block: Block, src: Src, k: nat)

  // Passes over r zeros from position k on, correcting the other coefficients,
  // and stops at the next zero, or behind the end of the band.
  function Advance(src: Src, z: Block, k: nat, r: nat, b: Band): (e: Stop)
    requires |z| == DCTSIZE2 && k <= b.Se < DCTSIZE2
    ensures |e.block| == DCTSIZE2 && k <= e.k <= b.Se + 1
    decreases b.Se - k
  {
    if z[k] != 0 then
      var z1, src1 := z[k := Correct(z[k], Peek(src, 1) == 1, b.Al)], Skip(src, 1);
      if k < b.Se then Advance(src1, z1, k + 1, r, b) else Stop(z1, src1, k + 1)
    else if r == 0 then Stop(z, src, k)
    else if k < b.Se then Advance(src, z, k + 1, r - 1, b) else Stop(z, src, k + 1)
  }

  // Corrects all coefficients from position k on.
  function CorrectRest(src: Src, z: Block, k: nat, b: Band): (e: (Block, Src))
    requires |z| == DCTSIZE2 && b.Se < DCTSIZE2
    ensures |e.0| == DCTSIZE2
    decreases b.Se + 1 - k
  {
    if k > b.Se then (z, src)
    else if z[k] != 0 then CorrectRest(Skip(src, 1), z[k := Correct(z[k], Peek(src, 1) == 1, b.Al)], k + 1, b)
    else CorrectRest(src, z, k + 1, b)
  }

  // The new value of a coefficient: its sign bit says which.
  function NewValue(src: Src, al: nat): Coef
    requires al <= 13
  {
    Pow2At13(al);
    var p1: int := Pow2(al);
    if Peek(src, 1) == 1 then p1 else -p1
  }

  lemma Pow2At13(al: nat)
    requires al <= 13
    ensures Pow2(al) <= 0x2000
  {
    Pow2Mono(al, 13);
    assert Pow2(8) == 0x100;
    assert Pow2(13) == 0x2000;
  }

  // decode_mcu_AC_refine outside of an EOB run
  function ReadRefine(src: Src, t: HuffTbl, z: Block, k: nat, b: Band): (r: BandRead)
    requires WellTyped(t) && Legal(t.bits) && |z| == DCTSIZE2 && b.Se < DCTSIZE2 && b.Al <= 13
    ensures |r.block| == DCTSIZE2
    decreases DCTSIZE2 - k
  {
    if k > b.Se then BandRead(z, 0, src)
    else
      var sym, src1 := Symbol(t, src), AfterSymbol(t, src);
      var r, s := sym / 16, sym % 16;
      if s != 0 then
        var e := Advance(Skip(src1, 1), z, k, r, b);
        ReadRefine(e.src, t, Put(e.block, e.k, NewValue(src1, b.Al)), e.k + 1, b)
      else if r == 15 then
        var e := Advance(src1, z, k, 15, b);
        ReadRefine(e.src, t, e.block, e.k + 1, b)
      else
        var e := CorrectRest(Skip(src1, r), z, k, b);
        BandRead(e.0, Pow2(r) + Peek(src1, r) - 1, e.1)
  }

  // ----- one coefficient -----

  lemma LevelParts(a: nat, p: nat) returns (q: nat)
    requires p > 0
    ensures q == a / p && a / (2 * p) == q / 2 && q * p <= a
    ensures q % 2 == 0 ==> q / 2 * (2 * p) == q * p
    ensures q % 2 == 1 ==> q / 2 * (2 * p) + p == q * p
  {
    var r;
    q, r := DivMod(a, p);
    var h := q / 2;
    assert q == 2 * h || q == 2 * h + 1;
    if q == 2 * h {
      assert q * p == h * (2 * p);
      DivUnique(a, 2 * p, h, r);
    } else {
      assert q * p == h * (2 * p) + p;
      DivUnique(a, 2 * p, h, p + r);
    }
  }

  lemma DivMod(x: nat, d: nat) returns (q: nat, r: nat)
    requires d > 0
    ensures q == x / d && r == x % d && x == r + q * d && r < d
  {
    q, r := x / d, x % d;
  }

  // The bit of a multiple of twice p that stands for p is clear.
  lemma BitClear(h: int, p: nat)
    requires p > 0
    ensures (h * (2 * p)) / p % 2 == 0
  {
    assert h * (2 * p) == (2 * h) * p;
    DivExact(2 * h, p);
  }

  lemma DivExact(m: int, p: nat)
    requires p > 0
    ensures (m * p) / p == m
  {
    var q := (m * p) / p;
    assert m * p == q * p + (m * p) % p;
    if q < m {
      MulMono(q + 1, m, p);
    } else if m < q {
      MulMono(m + 1, q, p);
    }
  }

  // What the coefficient is before and after the scan, by its level.
  lemma TruncLevels(v: Coef, al: nat)
    ensures var q, s := Level(v, al), if v < 0 then -1 else 1;
            && Trunc(v, al) == s * (q * Pow2(al)) && Trunc(v, al + 1) == s * (q / 2 * (2 * Pow2(al)))
            && q / 2 * (2 * Pow2(al)) == (if q % 2 == 1 then q * Pow2(al) - Pow2(al) else q * Pow2(al))
            && q * Pow2(al) <= Abs(v)
  {
    hide Pow2;
    var p := Pow2(al);
    assert Pow2(al + 1) == 2 * p by {
      Pow2Step(al);
    }
    var q := LevelParts(Abs(v), p);
    if v < 0 {
      NegMul(q, p);
      NegMul(q / 2, 2 * p);
    }
  }

  lemma Pow2Step(n: nat)
    ensures Pow2(n + 1) == 2 * Pow2(n)
  {
  }

  lemma NegMul(a: int, b: int)
    ensures (-a) * b == -(a * b)
  {
  }

  // A coefficient is nonzero before the scan exactly if its level is above 1;
  // one with level 0 stays zero, one with level 1 becomes plus or minus 1 << al.
  lemma LevelMeans(v: Coef, al: nat)
    ensures Trunc(v, al + 1) != 0 <==> Level(v, al) > 1
    ensures Level(v, al) == 0 ==> Trunc(v, al) == 0
    ensures Level(v, al) == 1 ==> Trunc(v, al) == if v < 0 then 0 - Pow2(al) else Pow2(al)
  {
    TruncLevels(v, al);
    var q, p := Level(v, al), Pow2(al);
    if q > 1 {
      MulMono(1, q / 2, 2 * p);
    }
  }

  lemma CorrectIs(v: Coef, bit: bool, al: nat)
    ensures Correct(v, bit, al) ==
      if bit && (v / Pow2(al)) % 2 == 0 then Cast(if v >= 0 then v + Pow2(al)
      else v - Pow2(al)) else v
  {
  }

  // The bit being coded is clear in what earlier scans have sent.
  lemma BitIsClear(v: Coef, al: nat)
    ensures (Trunc(v, al + 1) / Pow2(al)) % 2 == 0
  {
    hide *;
    TruncLevels(v, al);
    Pow2Positive(al);
    var h: int := Level(v, al) / 2;
    NegMul(h, 2 * Pow2(al));
    BitClear(h, Pow2(al));
    BitClear(-h, Pow2(al));
  }

  lemma Pow2Positive(n: nat)
    ensures Pow2(n) > 0
  {
  }

  // The correction bit takes a known coefficient from one scan to the next.
  lemma CorrectRight(v: Coef, al: nat)
    requires Level(v, al) > 1
    ensures Correct(Trunc(v, al + 1), Level(v, al) % 2 == 1, al) == Trunc(v, al)
  {
    hide *;
    TruncLevels(v, al);
    LevelMeans(v, al);
    BitIsClear(v, al);
    CorrectIs(Trunc(v, al + 1), Level(v, al) % 2 == 1, al);
    CastCoef(Trunc(v, al));
  }

  // ----- a stretch of the band without new coefficients -----

  // The zeros in positions p..k-1, and the correction bits of the others.
  function Zeros(c: Block, p: nat, k: nat, al: nat): nat
    requires |c| == DCTSIZE2 && k <= DCTSIZE2
    decreases k - p
  {
    if p >= k then 0 else (if Level(c[p], al) == 0 then 1 else 0) + Zeros(c, p + 1, k, al)
  }

  function Corrections(c: Block, p: nat, k: nat, al: nat): Bits
    requires |c| == DCTSIZE2 && k <= DCTSIZE2
    decreases k - p
  {
    if p >= k then []
    else (if Level(c[p], al) > 1 then [Level(c[p], al) % 2 == 1] else []) + Corrections(c, p + 1, k, al)
  }

  ghost predicate NoneNew(c: Block, p: nat, k: nat, al: nat)
    requires |c| == DCTSIZE2 && k <= DCTSIZE2
  {
    forall j: nat | p <= j < k :: Level(c[j], al) != 1
  }

  lemma {:induction false} StretchNext(c: Block, p: nat, k: nat, al: nat)
    requires |c| == DCTSIZE2 && p <= k < DCTSIZE2
    ensures Zeros(c, p, k + 1, al) == Zeros(c, p, k, al) + if Level(c[k], al) == 0 then 1 else 0
    ensures Corrections(c, p, k + 1, al) == Corrections(c, p, k, al)
        + if Level(c[k], al) > 1 then [Level(c[k], al) % 2 == 1] else []
    ensures NoneNew(c, p, k + 1, al) <==> NoneNew(c, p, k, al) && Level(c[k], al) != 1
    decreases k - p
  {
    hide Level;
    if p < k {
      StretchNext(c, p + 1, k, al);
      Assoc(Corrections(c, p, p + 1, al), Corrections(c, p + 1, k, al),
            if Level(c[k], al) > 1 then [Level(c[k], al) % 2 == 1] else []);
    } else {
      assert Corrections(c, k + 1, k + 1, al) == [];
    }
  }

  lemma StretchHead(c: Block, p: nat, k: nat, al: nat)
    requires |c| == DCTSIZE2 && p <= k <= DCTSIZE2
    ensures p == k ==> Zeros(c, p, k, al) == 0 && Corrections(c, p, k, al) == []
    ensures p < k ==>
      && Zeros(c, p, k, al) == (if Level(c[p], al) == 0 then 1 else 0) + Zeros(c, p + 1, k, al)
      && Corrections(c, p, k, al)
           == (if Level(c[p], al) > 1 then [Level(c[p], al) % 2 == 1] else []) + Corrections(c, p + 1, k, al)
  {
    hide Level;
  }

  lemma {:induction false} StretchSplit(c: Block, p: nat, q: nat, k: nat, al: nat)
    requires |c| == DCTSIZE2 && p <= q <= k <= DCTSIZE2
    ensures Zeros(c, p, k, al) == Zeros(c, p, q, al) + Zeros(c, q, k, al)
    ensures Corrections(c, p, k, al) == Corrections(c, p, q, al) + Corrections(c, q, k, al)
    decreases q - p
  {
    hide Level, Zeros, Corrections;
    StretchHead(c, p, q, al);
    StretchHead(c, p, k, al);
    if p < q {
      StretchSplit(c, p + 1, q, k, al);
      var here := if Level(c[p], al) > 1 then [Level(c[p], al) % 2 == 1] else [];
      Assoc(here, Corrections(c, p + 1, q, al), Corrections(c, q, k, al));
    } else {
      assert [] + Corrections(c, q, k, al) == Corrections(c, q, k, al);
    }
  }

  // A stretch without new coefficients consists of its zeros and its corrections.
  lemma {:induction false} StretchLength(c: Block, p: nat, k: nat, al: nat)
    requires |c| == DCTSIZE2 && p <= k <= DCTSIZE2 && NoneNew(c, p, k, al)
    ensures Zeros(c, p, k, al) + |Corrections(c, p, k, al)| == k - p
    decreases k - p
  {
    hide Level;
    if p < k {
      StretchLength(c, p + 1, k, al);
    }
  }

  // The position of the zero number n of a stretch.
  lemma {:induction false} FindZero(c: Block, p: nat, k: nat, n: nat, al: nat) returns (q: nat)
    requires |c| == DCTSIZE2 && p <= k <= DCTSIZE2 && n < Zeros(c, p, k, al)
    ensures p <= q < k && Level(c[q], al) == 0 && Zeros(c, p, q, al) == n
    decreases k - p
  {
    hide Level;
    if Level(c[p], al) == 0 && n == 0 {
      q := p;
    } else {
      q := FindZero(c, p + 1, k, if Level(c[p], al) == 0 then n - 1 else n, al);
    }
  }

  // ----- the decoder passes over the stretch -----

  // The block while the scan is being read: done below position p.
  ghost function Half(z: Block, c: Block, b: Band, p: nat): (r: Block)
    requires |z| == |c| == DCTSIZE2
    ensures |r| == DCTSIZE2
  {
    Mixed(z, c, b.Ss, p, b.Al)
  }

  ghost predicate Refining(z: Block, c: Block, b: Band) {
    ValidAc(b) && b.Ah == b.Al + 1 && Before(z, c, b)
  }

  // What position p holds before it is dealt with, and after.
  lemma HalfAt(z: Block, c: Block, b: Band, p: nat)
    requires Refining(z, c, b) && b.Ss <= p <= b.Se
    ensures |c| == |z| == DCTSIZE2 == 64
    ensures Half(z, c, b, p)[p] != 0 <==> Level(c[p], b.Al) > 1
    ensures Level(c[p], b.Al) > 1 ==>
      Half(z, c, b, p)[p := Correct(Half(z, c, b, p)[p], Level(c[p], b.Al) % 2 == 1, b.Al)] == Half(z, c, b, p + 1)
    ensures Level(c[p], b.Al) == 0 ==> Half(z, c, b, p) == Half(z, c, b, p + 1)
    ensures Level(c[p], b.Al) == 1 ==>
      Half(z, c, b, p)[p := Trunc(c[p], b.Al)] == Half(z, c, b, p + 1)
  {
    hide Level, Correct, Trunc;
    LevelMeans(c[p], b.Al);
    if Level(c[p], b.Al) > 1 {
      CorrectRight(c[p], b.Al);
    }
  }

  lemma PeekOne(bit: bool, more: Bits, rest: Bits)
    ensures var src := Src([bit] + more + rest, false);
            (Peek(src, 1) == 1 <==> bit) && Skip(src, 1) == Src(more + rest, false)
  {
    assert [bit] + more + rest == [bit] + (more + rest);
    ReadBack([bit], more + rest, false);
    assert Val([bit]) == Bit(bit) by {
      assert [bit][..0] == [];
    }
  }

  // One step of Advance.
  lemma AdvanceStep(src: Src, z: Block, k: nat, r: nat, b: Band)
    requires |z| == DCTSIZE2 && k < b.Se < DCTSIZE2
    ensures z[k] != 0 ==>
      Advance(src, z, k, r, b) == Advance(Skip(src, 1), z[k := Correct(z[k], Peek(src, 1) == 1, b.Al)], k + 1, r, b)
    ensures z[k] == 0 && r > 0 ==> Advance(src, z, k, r, b) == Advance(src, z, k + 1, r - 1, b)
    ensures z[k] == 0 && r == 0 ==> Advance(src, z, k, r, b) == Stop(z, src, k)
  {
  }

  lemma AdvanceStop(src: Src, z: Block, k: nat, b: Band)
    requires |z| == DCTSIZE2 && k <= b.Se < DCTSIZE2 && z[k] == 0
    ensures Advance(src, z, k, 0, b) == Stop(z, src, k)
  {
  }

  lemma ZerosParts(c: Block, p: nat, k: nat, al: nat)
    requires |c| == DCTSIZE2 && p < k <= DCTSIZE2
    ensures Zeros(c, p, k, al) == (if Level(c[p], al) == 0 then 1 else 0) + Zeros(c, p + 1, k, al)
    ensures Level(c[p], al) > 1 ==>
      Corrections(c, p, k, al) == [Level(c[p], al) % 2 == 1] + Corrections(c, p + 1, k, al)
    ensures Level(c[p], al) <= 1 ==> Corrections(c, p, k, al) == Corrections(c, p + 1, k, al)
    ensures NoneNew(c, p, k, al) ==> Level(c[p], al) != 1 && NoneNew(c, p + 1, k, al)
  {
    hide Level;
  }

  lemma StretchEmpty(c: Block, k: nat, al: nat, rest: Bits)
    requires |c| == DCTSIZE2 && k <= DCTSIZE2
    ensures Zeros(c, k, k, al) == 0 && Corrections(c, k, k, al) == [] && [] + rest == rest && NoneNew(c, k, k, al)
  {
  }

  // Passing over all zeros of the stretch p..k-1 leads to the zero at k.
  lemma {:induction false} AdvanceBack(z: Block, c: Block, b: Band, p: nat, k: nat, rest: Bits)
    requires Refining(z, c, b) && b.Ss <= p <= k <= b.Se && NoneNew(c, p, k, b.Al) && Level(c[k], b.Al) <= 1
    ensures |c| == |z| == DCTSIZE2
    ensures Advance(Src(Corrections(c, p, k, b.Al) + rest, false), Half(z, c, b, p), p, Zeros(c, p, k, b.Al), b)
         == Stop(Half(z, c, b, k), Src(rest, false), k)
    decreases k - p
  {
    hide *;
    HalfAt(z, c, b, p);
    BandFits(z, c, b);
    var h := Half(z, c, b, p);
    if p == k {
      StretchEmpty(c, k, b.Al, rest);
      AdvanceStop(Src(rest, false), h, k, b);
    } else {
      ZerosParts(c, p, k, b.Al);
      AdvanceStep(Src(Corrections(c, p, k, b.Al) + rest, false), h, p, Zeros(c, p, k, b.Al), b);
      if Level(c[p], b.Al) > 1 {
        PeekOne(Level(c[p], b.Al) % 2 == 1, Corrections(c, p + 1, k, b.Al), rest);
      }
      AdvanceBack(z, c, b, p + 1, k, rest);
    }
  }

  lemma BandFits(z: Block, c: Block, b: Band)
    requires Refining(z, c, b)
    ensures b.Se < DCTSIZE2 == 64 && b.Al <= 13 && 1 <= b.Ss <= b.Se
  {
  }

  lemma CorrectRestStep(src: Src, z: Block, k: nat, b: Band)
    requires |z| == DCTSIZE2 && b.Se < DCTSIZE2
    ensures k > b.Se ==> CorrectRest(src, z, k, b) == (z, src)
    ensures k <= b.Se && z[k] != 0 ==>
      CorrectRest(src, z, k, b) == CorrectRest(Skip(src, 1), z[k := Correct(z[k], Peek(src, 1) == 1, b.Al)], k + 1, b)
    ensures k <= b.Se && z[k] == 0 ==> CorrectRest(src, z, k, b) == CorrectRest(src, z, k + 1, b)
  {
  }

  // Correcting the rest of a band without new coefficients completes it.
  lemma {:induction false} CorrectRestBack(z: Block, c: Block, b: Band, p: nat, rest: Bits)
    requires Refining(z, c, b) && b.Ss <= p <= b.Se + 1 && |c| == DCTSIZE2 && b.Se < DCTSIZE2
    requires NoneNew(c, p, b.Se + 1, b.Al)
    ensures |c| == |z| == DCTSIZE2
    ensures CorrectRest(Src(Corrections(c, p, b.Se + 1, b.Al) + rest, false), Half(z, c, b, p), p, b)
         == (Half(z, c, b, b.Se + 1), Src(rest, false))
    decreases b.Se + 1 - p
  {
    hide *;
    BandFits(z, c, b);
    RefiningShape(z, c, b);
    CorrectRestStep(Src(Corrections(c, p, b.Se + 1, b.Al) + rest, false), Half(z, c, b, p), p, b);
    if p == b.Se + 1 {
      StretchEmpty(c, p, b.Al, rest);
    } else {
      HalfAt(z, c, b, p);
      ZerosParts(c, p, b.Se + 1, b.Al);
      if Level(c[p], b.Al) > 1 {
        PeekOne(Level(c[p], b.Al) % 2 == 1, Corrections(c, p + 1, b.Se + 1, b.Al), rest);
      }
      CorrectRestBack(z, c, b, p + 1, rest);
    }
  }

  lemma RefiningShape(z: Block, c: Block, b: Band)
    requires Refining(z, c, b)
    ensures |z| == |c| == DCTSIZE2
    ensures After(z, c, b) == Half(z, c, b, b.Se + 1)
  {
  }

  // ----- steps of the reader -----

  lemma ReadRefineDone(src: Src, t: HuffTbl, z: Block, k: nat, b: Band)
    requires WellTyped(t) && Legal(t.bits) && |z| == DCTSIZE2 && b.Se < DCTSIZE2 && b.Al <= 13 && k > b.Se
    ensures ReadRefine(src, t, z, k, b) == BandRead(z, 0, src)
  {
  }

  lemma ReadRefineEob(src: Src, t: HuffTbl, z: Block, k: nat, b: Band, nbits: nat, mid: Src)
    requires |z| == DCTSIZE2 && b.Se < DCTSIZE2 && b.Al <= 13 && k <= b.Se && nbits <= 14
    requires AtSymbol(t, src, 16 * nbits, mid)
    ensures WellTyped(t) && Legal(t.bits)
    ensures var e := CorrectRest(Skip(mid, nbits), z, k, b);
            ReadRefine(src, t, z, k, b) == BandRead(e.0, Pow2(nbits) + Peek(mid, nbits) - 1, e.1)
  {
    hide Symbol, AfterSymbol, Legal, WellTyped, Skip, Peek, Pow2, Advance, CorrectRest;
    Nibbles(nbits, 0);
  }

  lemma ReadRefineRun(src: Src, t: HuffTbl, z: Block, k: nat, b: Band, mid: Src)
    requires |z| == DCTSIZE2 && b.Se < DCTSIZE2 && b.Al <= 13 && k <= b.Se && AtSymbol(t, src, 0xF0, mid)
    ensures WellTyped(t) && Legal(t.bits)
    ensures var e := Advance(mid, z, k, 15, b);
            ReadRefine(src, t, z, k, b) == ReadRefine(e.src, t, e.block, e.k + 1, b)
  {
    hide Symbol, AfterSymbol, Legal, WellTyped, Skip, Peek, Pow2, Advance, CorrectRest;
  }

  lemma ReadRefineNew(src: Src, t: HuffTbl, z: Block, k: nat, b: Band, r: nat, mid: Src)
    requires |z| == DCTSIZE2 && b.Se < DCTSIZE2 && b.Al <= 13 && k <= b.Se && r < 16
    requires AtSymbol(t, src, 16 * r + 1, mid)
    ensures WellTyped(t) && Legal(t.bits)
    ensures var e := Advance(Skip(mid, 1), z, k, r, b);
            ReadRefine(src, t, z, k, b) == ReadRefine(e.src, t, Put(e.block, e.k, NewValue(mid, b.Al)), e.k + 1, b)
  {
    hide Symbol, AfterSymbol, Legal, WellTyped, Skip, Peek, Pow2, Advance, CorrectRest, NewValue;
    Nibbles(r, 1);
  }

  // ----- a band is read back -----

  // Before position k, with the stretch from p on still to be accounted for: r of
  // its coefficients are zero, br are the corrections of the others, and up to
  // the last new coefficient every correction lies among the first 16 zeros.
  ghost predicate Pending(c: Block, b: Band, p: nat, k: nat, r: nat, br: Bits)
    requires |c| == DCTSIZE2 && b.Se < DCTSIZE2
  {
    && b.Ss <= p <= k <= b.Se + 1 && NoneNew(c, p, k, b.Al)
    && r == Zeros(c, p, k, b.Al) && br == Corrections(c, p, k, b.Al)
    && forall j: nat | p <= j < k && Level(c[j], b.Al) > 1 && j <= LastNew(c, b.Se, b) :: Zeros(c, p, j, b.Al) <= 15
  }

  lemma PendingZero(c: Block, b: Band, p: nat, k: nat, r: nat, br: Bits)
    requires |c| == DCTSIZE2 && b.Se < DCTSIZE2 && Pending(c, b, p, k, r, br) && k <= b.Se && Level(c[k], b.Al) == 0
    ensures Pending(c, b, p, k + 1, r + 1, br)
  {
    hide Level, LastNew, Zeros, Corrections, NoneNew;
    StretchNext(c, p, k, b.Al);
    assert br + [] == br;
  }

  lemma PendingKnown(c: Block, b: Band, p: nat, k: nat, r: nat, br: Bits)
    requires |c| == DCTSIZE2 && b.Se < DCTSIZE2 && Pending(c, b, p, k, r, br) && k <= b.Se && Level(c[k], b.Al) > 1
    requires !(r > 15 && k <= LastNew(c, b.Se, b))
    ensures Pending(c, b, p, k + 1, r, br + [Level(c[k], b.Al) % 2 == 1])
  {
    hide Level, LastNew, Zeros, Corrections, NoneNew;
    StretchNext(c, p, k, b.Al);
  }

  // A fresh stretch.
  lemma PendingNone(c: Block, b: Band, k: nat)
    requires |c| == DCTSIZE2 && b.Se < DCTSIZE2 && b.Ss <= k <= b.Se + 1
    ensures Pending(c, b, k, k, 0, [])
  {
  }

  // Sixteen zeros are taken off: no correction lies behind them.
  lemma PendingRun(c: Block, b: Band, p: nat, k: nat, r: nat, br: Bits) returns (q: nat)
    requires |c| == DCTSIZE2 && b.Se < DCTSIZE2 && Pending(c, b, p, k, r, br) && k <= b.Se && r > 15
    requires k <= LastNew(c, b.Se, b)
    ensures p <= q < k && Level(c[q], b.Al) == 0 && Zeros(c, p, q, b.Al) == 15 && NoneNew(c, p, q, b.Al)
    ensures br == Corrections(c, p, q, b.Al)
    ensures Pending(c, b, q + 1, k, r - 16, [])
  {
    hide Level, LastNew, Zeros, Corrections;
    q := FindZero(c, p, k, 15, b.Al);
    StretchSplit(c, p, q, k, b.Al);
    ZerosParts(c, q, k, b.Al);
    forall j: nat | q < j < k
      ensures Level(c[j], b.Al) == 0
    {
      StretchSplit(c, p, q, j, b.Al);
      ZerosParts(c, q, j, b.Al);
      assert Level(c[j], b.Al) != 1;
    }
    NoCorrections(c, q + 1, k, b.Al);
    assert br == Corrections(c, p, q, b.Al) + [];
  }

  lemma {:induction false} NoCorrections(c: Block, p: nat, k: nat, al: nat)
    requires |c| == DCTSIZE2 && p <= k <= DCTSIZE2 && forall j: nat | p <= j < k :: Level(c[j], al) == 0
    ensures Corrections(c, p, k, al) == []
    decreases k - p
  {
    hide Level;
    if p < k {
      NoCorrections(c, p + 1, k, al);
    }
  }

  lemma {:induction false} NewBelowLast(c: Block, k: nat, m: nat, b: Band)
    requires |c| == DCTSIZE2 && m < DCTSIZE2 && b.Ss <= k <= m && Level(c[k], b.Al) == 1
    ensures k <= LastNew(c, m, b)
  {
    hide Level;
    if k < m {
      NewBelowLast(c, k, m - 1, b);
    }
  }

  // What is sent from position k on, before some other tokens.
  lemma RefineTokensParts(c: Block, k: nat, r: nat, br: Bits, b: Band, tbl: nat, more: seq<Token>)
    requires |c| == DCTSIZE2 && b.Se < DCTSIZE2 && b.Ss <= k
    ensures k > b.Se ==> RefineTokens(c, k, r, br, b, tbl) + more == more && RefineTail(c, k, r, br, b) == (r, br)
    ensures k <= b.Se && Level(c[k], b.Al) == 0 ==>
      && RefineTokens(c, k, r, br, b, tbl) == RefineTokens(c, k + 1, r + 1, br, b, tbl)
      && RefineTail(c, k, r, br, b) == RefineTail(c, k + 1, r + 1, br, b)
    ensures k <= b.Se && Level(c[k], b.Al) != 0 && r > 15 && k <= LastNew(c, b.Se, b) ==>
      && RefineTokens(c, k, r, br, b, tbl) + more
           == [Sym(AC(tbl), 0xF0)] + (RawBits(br) + (RefineTokens(c, k, r - 16, [], b, tbl) + more))
      && RefineTail(c, k, r, br, b) == RefineTail(c, k, r - 16, [], b)
    ensures k <= b.Se && Level(c[k], b.Al) > 1 && !(r > 15 && k <= LastNew(c, b.Se, b)) ==>
      && RefineTokens(c, k, r, br, b, tbl) == RefineTokens(c, k + 1, r, br + [Level(c[k], b.Al) % 2 == 1], b, tbl)
      && RefineTail(c, k, r, br, b) == RefineTail(c, k + 1, r, br + [Level(c[k], b.Al) % 2 == 1], b)
    ensures k <= b.Se && Level(c[k], b.Al) == 1 && r <= 15 ==>
      && RefineTokens(c, k, r, br, b, tbl) + more
           == [Sym(AC(tbl), 16 * r + 1)] + ([Raw(if c[k] < 0 then 0 else 1, 1)]
                + (RawBits(br) + (RefineTokens(c, k + 1, 0, [], b, tbl) + more)))
      && RefineTail(c, k, r, br, b) == RefineTail(c, k + 1, 0, [], b)
    ensures k <= b.Se && Level(c[k], b.Al) == 1 ==> k <= LastNew(c, b.Se, b)
  {
    hide Level, LastNew, RawBits;
    if k > b.Se {
      assert RefineTokens(c, k, r, br, b, tbl) + more == more;
    }
    if k <= b.Se && Level(c[k], b.Al) == 1 {
      NewBelowLast(c, k, b.Se, b);
    }
  }

  lemma SendingBits(t: CTables, br: Bits, more: seq<Token>, rest: Bits)
    requires SaneTables(t) && AllSendable(t, RawBits(br) + more)
    ensures AllSendable(t, more) && Sending(t, RawBits(br) + more, rest) == Src(br + Sending(t, more, rest).bits, false)
    ensures Sending(t, more, rest) == Src(Sending(t, more, rest).bits, false)
  {
    hide RawBits, TokensBits, Sendable;
    var a := RawBits(br);
    assert forall i | 0 <= i < |more| :: more[i] == (a + more)[|a| + i];
    RawBitsBits(t, br);
    TokensBitsConcat(t, a, more);
    Assoc(br, TokensBits(t, more), rest);
  }

  lemma SendingSign(t: CTables, v: Coef, al: nat, more: seq<Token>, rest: Bits)
    requires SaneTables(t) && al <= 13 && Level(v, al) == 1
    requires AllSendable(t, [Raw(if v < 0 then 0 else 1, 1)] + more)
    ensures AllSendable(t, more)
    ensures var src := Sending(t, [Raw(if v < 0 then 0 else 1, 1)] + more, rest);
            NewValue(src, al) == Trunc(v, al) && Skip(src, 1) == Sending(t, more, rest)
  {
    hide Level, Trunc;
    var bit := if v < 0 then 0 else 1;
    TokensBitsHead(t, Raw(bit, 1), more, rest);
    LevelMeans(v, al);
    assert ToBits(Unsigned(bit), 1) == [bit == 1] by {
      assert ToBits(0, 0) == [];
    }
    assert [bit == 1] + (TokensBits(t, more) + rest) == [bit == 1] + TokensBits(t, more) + rest;
    PeekOne(bit == 1, TokensBits(t, more), rest);
  }

  // Reading what is sent of a band, up to the stretch left at its end, which begins at p'.
  lemma {:induction false} RefineBack(t: CTables, h: HuffTbl, tbl: nat, z: Block, c: Block, b: Band, p: nat, k: nat,
                                      r: nat, br: Bits,
                                      more: seq<Token>, rest: Bits) returns (p': nat)
    requires AcPair(t, h, tbl) && Refining(z, c, b) && |c| == DCTSIZE2 && b.Se < DCTSIZE2 && Pending(c, b, p, k, r, br)
    requires AllSendable(t, RefineTokens(c, k, r, br, b, tbl) + more)
    ensures WellTyped(h) && Legal(h.bits) && SaneTables(t) && AllSendable(t, more) && |z| == DCTSIZE2 && b.Al <= 13
    ensures var e := RefineTail(c, k, r, br, b); Pending(c, b, p', b.Se + 1, e.0, e.1)
    ensures ReadRefine(Sending(t, RefineTokens(c, k, r, br, b, tbl) + more, rest), h, Half(z, c, b, p), p, b)
         == ReadRefine(Sending(t, more, rest), h, Half(z, c, b, p'), p', b)
    decreases b.Se + 1 - k, r
  {
    hide *;
    BandFits(z, c, b);
    RefiningShape(z, c, b);
    PairParts(t, h, tbl);
    PendingParts(c, b, p, k, r, br);
    RefineTokensParts(c, k, r, br, b, tbl, more);
    if k > b.Se {
      p' := p;
    } else if Level(c[k], b.Al) == 0 {
      PendingZero(c, b, p, k, r, br);
      p' := RefineBack(t, h, tbl, z, c, b, p, k + 1, r + 1, br, more, rest);
    } else if r > 15 && k <= LastNew(c, b.Se, b) {
      var q := PendingRun(c, b, p, k, r, br);
      var tail := RefineTokens(c, k, r - 16, [], b, tbl) + more;
      SendingSym(t, h, tbl, 0xF0, RawBits(br) + tail, rest);
      SendingBits(t, br, tail, rest);
      ReadRefineRun(Sending(t, [Sym(AC(tbl), 0xF0)] + (RawBits(br) + tail), rest), h, Half(z, c, b, p), p, b,
                    Sending(t, RawBits(br) + tail, rest));
      AdvanceBack(z, c, b, p, q, Sending(t, tail, rest).bits);
      HalfAt(z, c, b, q);
      p' := RefineBack(t, h, tbl, z, c, b, q + 1, k, r - 16, [], more, rest);
    } else if Level(c[k], b.Al) > 1 {
      PendingKnown(c, b, p, k, r, br);
      p' := RefineBack(t, h, tbl, z, c, b, p, k + 1, r, br + [Level(c[k], b.Al) % 2 == 1], more, rest);
    } else {
      var sign := if c[k] < 0 then 0 else 1;
      var tail := RefineTokens(c, k + 1, 0, [], b, tbl) + more;
      SendingSym(t, h, tbl, 16 * r + 1, [Raw(sign, 1)] + (RawBits(br) + tail), rest);
      SendingSign(t, c[k], b.Al, RawBits(br) + tail, rest);
      SendingBits(t, br, tail, rest);
      ReadRefineNew(Sending(t, [Sym(AC(tbl), 16 * r + 1)] + ([Raw(sign, 1)] + (RawBits(br) + tail)), rest), h,
                    Half(z, c, b, p), p, b, r,
                    Sending(t, [Raw(sign, 1)] + (RawBits(br) + tail), rest));
      AdvanceBack(z, c, b, p, k, Sending(t, tail, rest).bits);
      HalfAt(z, c, b, k);
      PutIs(Half(z, c, b, k), k, Trunc(c[k], b.Al));
      PendingNone(c, b, k + 1);
      p' := RefineBack(t, h, tbl, z, c, b, k + 1, k + 1, 0, [], more, rest);
    }
  }

  lemma PutIs(z: Block, k: nat, v: Coef)
    requires |z| == DCTSIZE2 && k < DCTSIZE2
    ensures Put(z, k, v) == z[k := v]
  {
  }

  lemma PendingParts(c: Block, b: Band, p: nat, k: nat, r: nat, br: Bits)
    requires |c| == DCTSIZE2 && b.Se < DCTSIZE2 && Pending(c, b, p, k, r, br)
    ensures b.Ss <= p <= k <= b.Se + 1 && NoneNew(c, p, k, b.Al)
    ensures r == Zeros(c, p, k, b.Al) && br == Corrections(c, p, k, b.Al)
  {
  }

  // ----- laws of the refinement -----

  // Where the last new coefficient of the band is; there is none if LastNew is not in it.
  lemma {:induction false} LastNewIs(c: Block, k: nat, b: Band)
    requires |c| == DCTSIZE2 && k < DCTSIZE2 && 1 <= b.Ss
    ensures LastNew(c, k, b) <= k
    ensures forall i: nat | b.Ss <= i <= k && LastNew(c, k, b) < i :: Level(c[i], b.Al) != 1
    ensures LastNew(c, k, b) > 0 ==> b.Ss <= LastNew(c, k, b) && Level(c[LastNew(c, k, b)], b.Al) == 1
  {
    hide Level;
    if k > 0 {
      LastNewIs(c, k - 1, b);
    }
  }

  // Behind the last new coefficient no symbol is sent, not even for 16 zeros: all
  // zeros and correction bits are left to an EOB.
  lemma {:induction false} NothingBehind(c: Block, k: nat, r: nat, br: Bits, b: Band, tbl: nat)
    requires |c| == DCTSIZE2 && 1 <= b.Ss <= k <= b.Se + 1 <= DCTSIZE2
    requires forall i: nat | k <= i <= b.Se :: Level(c[i], b.Al) != 1
    ensures RefineTokens(c, k, r, br, b, tbl) == []
    ensures RefineTail(c, k, r, br, b) == (r + Zeros(c, k, b.Se + 1, b.Al), br + Corrections(c, k, b.Se + 1, b.Al))
    decreases b.Se + 1 - k
  {
    hide Level;
    if k <= b.Se {
      LastNewIs(c, b.Se, b);
      var x: Bits := if Level(c[k], b.Al) > 1 then [Level(c[k], b.Al) % 2 == 1] else [];
      if Level(c[k], b.Al) == 0 {
        NothingBehind(c, k + 1, r + 1, br, b, tbl);
        assert Corrections(c, k, b.Se + 1, b.Al) == x + Corrections(c, k + 1, b.Se + 1, b.Al)
            == Corrections(c, k + 1, b.Se + 1, b.Al);
      } else {
        NothingBehind(c, k + 1, r, br + x, b, tbl);
        Assoc(br, x, Corrections(c, k + 1, b.Se + 1, b.Al));
      }
    } else {
      assert br + [] == br;
    }
  }

  // A stretch of coefficients that are zero or known already, before a new one at j:
  // its zeros are counted, its correction bits collected ...
  lemma {:induction false} StretchBefore(c: Block, k: nat, i: nat, j: nat, r: nat, br: Bits, b: Band, tbl: nat)
    requires |c| == DCTSIZE2 && 1 <= b.Ss <= k <= i <= j <= b.Se < DCTSIZE2 && Level(c[j], b.Al) == 1
    requires NoneNew(c, k, i, b.Al)
    requires forall m: nat | k <= m < i && Level(c[m], b.Al) > 0 :: r + Zeros(c, k, m, b.Al) <= 15
    ensures RefineTokens(c, k, r, br, b, tbl)
         == RefineTokens(c, i, r + Zeros(c, k, i, b.Al), br + Corrections(c, k, i, b.Al), b, tbl)
    decreases i - k
  {
    hide Level;
    if k == i {
      assert br + [] == br;
    } else {
      assert Zeros(c, k, k, b.Al) == 0;
      var z := if Level(c[k], b.Al) == 0 then 1 else 0;
      var x: Bits := if Level(c[k], b.Al) > 1 then [Level(c[k], b.Al) % 2 == 1] else [];
      forall m: nat | k + 1 <= m < i && Level(c[m], b.Al) > 0
        ensures r + z + Zeros(c, k + 1, m, b.Al) <= 15
      {
        assert Zeros(c, k, m, b.Al) == z + Zeros(c, k + 1, m, b.Al);
      }
      assert br + x == if z == 1 then br else br + x;
      StretchBefore(c, k + 1, i, j, r + z, br + x, b, tbl);
      Assoc(br, x, Corrections(c, k + 1, i, b.Al));
    }
  }

  // ... and where more than 15 zeros have been counted at a coefficient that is not
  // zero, 16 of them are sent, with the correction bits so far.
  lemma SixteenZeros(c: Block, k: nat, j: nat, r: nat, br: Bits, b: Band, tbl: nat)
    requires |c| == DCTSIZE2 && 1 <= b.Ss <= k <= j <= b.Se < DCTSIZE2 && Level(c[j], b.Al) == 1
    requires Level(c[k], b.Al) > 0 && r > 15
    ensures RefineTokens(c, k, r, br, b, tbl)
         == [Sym(AC(tbl), 0xF0)] + (RawBits(br) + RefineTokens(c, k, r - 16, [], b, tbl))
  {
    hide Level;
    LastNewIs(c, b.Se, b);
  }

  // The symbol of the new coefficient takes the zeros that are left; its sign and
  // the correction bits follow.
  lemma NewCoefficient(c: Block, k: nat, j: nat, r: nat, br: Bits, b: Band, tbl: nat)
    requires |c| == DCTSIZE2 && 1 <= b.Ss <= k <= j <= b.Se < DCTSIZE2 && Level(c[j], b.Al) == 1
    requires NoneNew(c, k, j, b.Al) && r + Zeros(c, k, j, b.Al) <= 15
    ensures RefineTokens(c, k, r, br, b, tbl)
         == [Sym(AC(tbl), 16 * (r + Zeros(c, k, j, b.Al)) + 1)] + ([Raw(if c[j] < 0 then 0 else 1, 1)]
              + (RawBits(br + Corrections(c, k, j, b.Al)) + RefineTokens(c, j + 1, 0, [], b, tbl)))
  {
    hide Level;
    forall m: nat | k <= m < j && Level(c[m], b.Al) > 0
      ensures r + Zeros(c, k, m, b.Al) <= 15
    {
      StretchSplit(c, k, m, j, b.Al);
    }
    StretchBefore(c, k, j, j, r, br, b, tbl);
  }
}
