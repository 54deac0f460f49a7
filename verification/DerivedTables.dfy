// The derived tables: jpeg_make_c_derived_tbl (jchuff.c) for the encoder and
// jpeg_make_d_derived_tbl (jdhuff.c) for the decoder.
module DerivedTables {
  import opened Arith
  import opened Bits
  import opened HuffTable
  import opened Errors

  const HUFF_LOOKAHEAD := 8

  // ----- figures C.1 and C.2, shared by both builders -----

  // huffsize[] and huffcode[] of the canonical code, in the order of huffval[].
  ghost predicate Expanded(bits: seq<nat>, huffsize: seq<nat>, huffcode: seq<nat>, n: nat) {
    && |bits| == 17 && Upto(bits, 16) == n <= 256 && |huffsize| == |huffcode| == 257
    && (forall p | 0 <= p < n :: huffsize[p] == LenOf(bits, p) && huffcode[p] == CodeOf(bits, p))
    && huffsize[n] == 0
  }

  // Figure C.1: one entry per symbol with its code length, and a zero after the last one.
  method ExpandSizes(bits: seq<nat>) returns (ok: bool, huffsize: array<nat>, p: nat)
    requires |bits| == 17
    ensures ok <==> Upto(bits, 16) <= 256
    ensures fresh(huffsize) && huffsize.Length == 257
    ensures ok ==> p == Upto(bits, 16) && huffsize[p] == 0 && forall q | 0 <= q < p :: huffsize[q] == LenOf(bits, q)
  {
    huffsize := new nat[257](_ => 0);
    p := 0;
    for l := 1 to 17
      invariant p == Upto(bits, l - 1) <= 256
      invariant p <= Upto(bits, 16)
      invariant forall q | 0 <= q < p :: huffsize[q] == LenOf(bits, q)
    {
      UptoMono(bits, l, 16);
      var i := bits[l];
      if p + i > 256 {
        return false, huffsize, p;
      }
      while i > 0
        invariant p + i == Upto(bits, l) && Upto(bits, l - 1) <= p
        invariant forall q | 0 <= q < p :: huffsize[q] == LenOf(bits, q)
      {
        LenOfUnique(bits, p, l);
        huffsize[p] := l;
        p := p + 1;
        i := i - 1;
      }
    }
    huffsize[p] := 0;
    return true, huffsize, p;
  }

  // Figure C.2: the codes themselves; fails if some length runs out of words.
  method ExpandCodes(bits: seq<nat>, huffsize: array<nat>, ghost n: nat) returns (ok: bool, huffcode: array<nat>)
    requires |bits| == 17 && n == Upto(bits, 16) <= 256 && huffsize.Length == 257
    requires huffsize[n] == 0 && forall q | 0 <= q < n :: huffsize[q] == LenOf(bits, q)
    ensures fresh(huffcode) && huffcode.Length == 257
    ensures ok <==> Legal(bits)
    ensures ok ==> Expanded(bits, huffsize[..], huffcode[..], n)
  {
    hide Used, Upto, CodeOf, LenOf, Pow2;
    UptoNone(bits);
    assert Used(bits, 0) < Pow2(0) by {
      UsedNone(bits, 0);
    }
    huffcode := new nat[257](_ => 0);
    var code, si, p := 0, huffsize[0], 0;
    if n > 0 {
      UsedNone(bits, si - 1);
    }
    ghost var done := if n > 0 then si - 1 else 16;
    if n == 0 {
      UsedNone(bits, 16);
    }
    while huffsize[p] != 0
      invariant 0 <= done <= 16 && (n > 0 ==> si == done + 1)
      invariant p == Upto(bits, done) <= n
      invariant code == 2 * Used(bits, done) && Used(bits, done) < Pow2(done)
      invariant forall q | 0 <= q < p :: huffcode[q] == CodeOf(bits, q)
      decreases 16 - done
    {
      assert done < LenOf(bits, p) by {
        UptoBelow(bits, done, LenOf(bits, p));
      }
      UptoMono(bits, done + 1, 16);
      LengthBegins(bits, done);
      while huffsize[p] == si
        invariant Upto(bits, done) <= p <= Upto(bits, done + 1) <= n
        invariant code == 2 * Used(bits, done) + (p - Upto(bits, done))
        invariant forall q | 0 <= q < p :: huffcode[q] == CodeOf(bits, q)
        decreases n - p
      {
        CodeInOrder(bits, done, p);
        huffcode[p] := code;
        p := p + 1;
        code := code + 1;
      }
      if p < Upto(bits, done + 1) {
        LenOfUnique(bits, p, done + 1);
      }
      if code >= Pow2(si) {
        return false, huffcode;
      }
      code := 2 * code;
      si := si + 1;
      done := done + 1;
    }
    forall l | 1 <= l <= 16
      ensures Used(bits, l) < Pow2(l)
    {
      if l <= done {
        LegalBelow(bits, l, done);
      } else {
        UptoMono(bits, l, 16);
        UptoMono(bits, done, l);
        UsedTail(bits, done, l);
      }
    }
    return true, huffcode;
  }

  // The codes of a length are consecutive; the next length begins behind the last of them.
  lemma LengthBegins(bits: seq<nat>, done: nat)
    requires done + 1 < |bits|
    ensures Used(bits, done + 1) == 2 * Used(bits, done) + bits[done + 1]
    ensures Upto(bits, done + 1) == Upto(bits, done) + bits[done + 1]
  {
  }

  lemma CodeInOrder(bits: seq<nat>, done: nat, p: nat)
    requires |bits| == 17 && p < Upto(bits, 16) && LenOf(bits, p) == done + 1
    ensures Upto(bits, done) <= p < Upto(bits, done + 1)
    ensures CodeOf(bits, p) == 2 * Used(bits, done) + (p - Upto(bits, done))
  {
  }

  lemma UptoBelow(bits: seq<nat>, l: nat, m: nat)
    requires 1 <= m < |bits| && l < |bits| && Upto(bits, l) < Upto(bits, m)
    ensures l < m
  {
    if m <= l {
      UptoMono(bits, m, l);
    }
  }

  lemma LegalBelow(bits: seq<nat>, l: nat, m: nat)
    requires l <= m < |bits| && Used(bits, m) < Pow2(m)
    ensures Used(bits, l) < Pow2(l)
  {
    UsedGrows(bits, l, m);
    Pow2Add(l, m - l);
    if Used(bits, l) >= Pow2(l) {
      MulMono(Pow2(l), Used(bits, l), Pow2(m - l));
    }
  }

  // ----- the encoder's table -----

  datatype CDerived = CDerived(ehufco: seq<nat>, ehufsi: seq<nat>)

  ghost predicate NoRepeats(t: HuffTbl, n: nat)
    requires n <= |t.huffval|
  {
    forall p, q | 0 <= p < q < n :: t.huffval[p] != t.huffval[q]
  }

  // What the encoder accepts: a legal tree, symbols in range, none of them twice.
  ghost predicate EncoderAccepts(isDC: bool, t: HuffTbl) {
    && WellTyped(t) && Legal(t.bits)
    && (forall p | 0 <= p < Upto(t.bits, 16) :: t.huffval[p] <= if isDC then 15 else 255)
    && NoRepeats(t, Upto(t.bits, 16))
  }

  // Every listed symbol has its canonical code and length, every other symbol length 0.
  ghost predicate Encodes(t: HuffTbl, d: CDerived) {
    && WellTyped(t) && Legal(t.bits) && |d.ehufco| == |d.ehufsi| == 256
    && (forall p | 0 <= p < Upto(t.bits, 16) ::
          d.ehufco[t.huffval[p]] == CodeOf(t.bits, p) && d.ehufsi[t.huffval[p]] == LenOf(t.bits, p))
    && forall s | 0 <= s < 256 :: d.ehufsi[s] != 0 ==> s in t.huffval[..Upto(t.bits, 16)]
  }

  // The tables after the first n symbols have been entered.
  ghost predicate Entered(t: HuffTbl, sizes: seq<nat>, codes: seq<nat>, co: seq<nat>, si: seq<nat>, n: nat,
                          maxsymbol: nat)
    requires WellTyped(t)
  {
    && |sizes| == |codes| == 257 && |co| == |si| == 256 && n <= 256
    && (forall q | 0 <= q < n :: t.huffval[q] <= maxsymbol)
    && NoRepeats(t, n)
    && (forall q | 0 <= q < n :: co[t.huffval[q]] == codes[q] && si[t.huffval[q]] == sizes[q])
    && (forall s | 0 <= s < 256 && si[s] != 0 :: s in t.huffval[..n])
  }

  lemma EnterOne(t: HuffTbl, sizes: seq<nat>, codes: seq<nat>, co: seq<nat>, si: seq<nat>, n: nat, maxsymbol: nat)
    requires WellTyped(t) && n < 256 && Entered(t, sizes, codes, co, si, n, maxsymbol)
    requires forall q | 0 <= q < n :: sizes[q] != 0
    ensures si[t.huffval[n]] != 0 ==> !NoRepeats(t, n + 1)
    ensures si[t.huffval[n]] == 0 && t.huffval[n] <= maxsymbol ==>
      Entered(t, sizes, codes, co[t.huffval[n] := codes[n]], si[t.huffval[n] := sizes[n]], n + 1, maxsymbol)
  {
    var v := t.huffval[n];
    assert t.huffval[..n + 1] == t.huffval[..n] + [v];
    if si[v] != 0 {
      var q :| 0 <= q < n && t.huffval[..n][q] == v;
      assert t.huffval[q] == t.huffval[n];
    } else {
      assert forall q | 0 <= q < n :: t.huffval[q] != v;
    }
  }

  // Figure C.3: fails at the first symbol that is out of range or already has a code.
  method EnterSymbols(t: HuffTbl, huffsize: array<nat>, huffcode: array<nat>, lastp: nat, maxsymbol: nat)
    returns (ok: bool, ehufco: array<nat>, ehufsi: array<nat>)
    requires WellTyped(t) && huffsize.Length == huffcode.Length == 257 && lastp <= 256
    requires forall q | 0 <= q < lastp :: huffsize[q] != 0
    ensures ok <==> (forall q | 0 <= q < lastp :: t.huffval[q] <= maxsymbol) && NoRepeats(t, lastp)
    ensures ok ==> Entered(t, huffsize[..], huffcode[..], ehufco[..], ehufsi[..], lastp, maxsymbol)
  {
    ehufco := new nat[256];
    ehufsi := new nat[256](_ => 0);
    ghost var sizes, codes := huffsize[..], huffcode[..];
    for p := 0 to lastp
      invariant huffsize[..] == sizes && huffcode[..] == codes && fresh(ehufco) && fresh(ehufsi)
      invariant Entered(t, sizes, codes, ehufco[..], ehufsi[..], p, maxsymbol)
    {
      EnterOne(t, sizes, codes, ehufco[..], ehufsi[..], p, maxsymbol);
      var i := t.huffval[p];
      if i > maxsymbol || ehufsi[i] != 0 {
        return false, ehufco, ehufsi;
      }
      ehufco[i] := huffcode[p];
      ehufsi[i] := huffsize[p];
    }
    return true, ehufco, ehufsi;
  }

  method MakeCDerived(isDC: bool, t: HuffTbl) returns (r: Result<CDerived>)
    requires WellTyped(t)
    ensures if EncoderAccepts(isDC, t) then r.Ok? else r == Err(BadHuffTable)
    ensures r.Ok? ==> Encodes(t, r.value)
  {
    var ok, huffsize, lastp := ExpandSizes(t.bits);
    if !ok {
      return Err(BadHuffTable);
    }
    var huffcode, ehufco, ehufsi;
    ok, huffcode := ExpandCodes(t.bits, huffsize, lastp);
    if !ok {
      return Err(BadHuffTable);
    }
    ok, ehufco, ehufsi := EnterSymbols(t, huffsize, huffcode, lastp, if isDC then 15 else 255);
    if !ok {
      return Err(BadHuffTable);
    }
    return Ok(CDerived(ehufco[..], ehufsi[..]));
  }

  // ----- the decoder's table -----

  datatype DDerived = DDerived(maxcode: seq<int>, valoffset: seq<int>,
                               look_nbits: seq<nat>, look_sym: seq<nat>, pub: HuffTbl)

  // What the decoder accepts: repeated symbols do not bother it.
  ghost predicate DecoderAccepts(isDC: bool, t: HuffTbl) {
    && WellTyped(t) && Legal(t.bits)
    && (isDC ==> forall p | 0 <= p < Upto(t.bits, 16) :: t.huffval[p] <= 15)
  }

  ghost predicate SlowEntry(bits: seq<nat>, l: nat, maxcode: int, valoffset: int)
    requires 1 <= l < |bits|
  {
    if bits[l] == 0 then maxcode == -1
    else maxcode == Used(bits, l) - 1 && valoffset == Upto(bits, l - 1) - 2 * Used(bits, l - 1)
  }

  ghost predicate SlowTables(bits: seq<nat>, maxcode: seq<int>, valoffset: seq<int>) {
    && |bits| == 17 && |maxcode| == 18 && |valoffset| == 17 && maxcode[17] == 0xFFFFF
    && forall l | 1 <= l <= 16 :: SlowEntry(bits, l, maxcode[l], valoffset[l])
  }

  // The lookahead entry of the 8 bits x: their code's length and symbol, or
  // length 0 if their code is longer than 8 bits.
  ghost predicate LookEntry(t: HuffTbl, x: nat, nbits: nat, sym: nat)
    requires WellTyped(t) && Legal(t.bits)
  {
    var s := ToBits(x, HUFF_LOOKAHEAD);
    if MatchLen(t.bits, s) <= HUFF_LOOKAHEAD
    then nbits == MatchLen(t.bits, s) && sym == t.huffval[MatchIndex(t.bits, s)]
    else nbits == 0
  }

  ghost predicate Decodes(t: HuffTbl, d: DDerived) {
    && WellTyped(t) && Legal(t.bits) && d.pub == t
    && SlowTables(t.bits, d.maxcode, d.valoffset)
    && |d.look_nbits| == |d.look_sym| == 256
    && forall x | 0 <= x < 256 :: LookEntry(t, x, d.look_nbits[x], d.look_sym[x])
  }

  // The first and the last code of length l.
  lemma CodesOfLength(bits: seq<nat>, l: nat)
    requires |bits| == 17 && 1 <= l <= 16 && bits[l] > 0
    ensures Upto(bits, l) <= Upto(bits, 16)
    ensures CodeOf(bits, Upto(bits, l - 1)) == 2 * Used(bits, l - 1)
    ensures CodeOf(bits, Upto(bits, l) - 1) == Used(bits, l) - 1
  {
    UptoMono(bits, l, 16);
    LenOfUnique(bits, Upto(bits, l - 1), l);
    LenOfUnique(bits, Upto(bits, l) - 1, l);
  }

  // Figure F.15.
  method FillSlowTables(bits: seq<nat>, huffcode: array<nat>) returns (maxcode: array<int>, valoffset: array<int>)
    requires Legal(bits) && huffcode.Length == 257
    requires forall p | 0 <= p < Upto(bits, 16) :: huffcode[p] == CodeOf(bits, p)
    ensures maxcode.Length == 18 && valoffset.Length == 17 && SlowTables(bits, maxcode[..], valoffset[..])
  {
    hide Used, LenOf, CodeOf, Upto;
    UptoNone(bits);
    maxcode := new int[18](_ => 0);
    valoffset := new int[17](_ => 0);
    var p := 0;
    for l := 1 to 17
      invariant p == Upto(bits, l - 1) && fresh(maxcode) && fresh(valoffset)
      invariant maxcode as object != huffcode && valoffset as object != huffcode
      invariant forall q | 0 <= q < Upto(bits, 16) :: huffcode[q] == CodeOf(bits, q)
      invariant forall k | 1 <= k < l :: SlowEntry(bits, k, maxcode[k], valoffset[k])
    {
      UptoNext(bits, l);
      if bits[l] != 0 {
        CodesOfLength(bits, l);
        valoffset[l] := p - huffcode[p];
        p := p + bits[l];
        maxcode[l] := huffcode[p - 1];
      } else {
        maxcode[l] := -1;
      }
    }
    maxcode[17] := 0xFFFFF;
  }

  // Where the 8-bit strings that begin with the code of p start, and how many there are.
  function LookStart(bits: seq<nat>, p: nat): nat
    requires |bits| == 17 && p < Upto(bits, 16) && LenOf(bits, p) <= 8
  {
    CodeOf(bits, p) * Pow2(8 - LenOf(bits, p))
  }

  function LookCount(bits: seq<nat>, p: nat): nat
    requires |bits| == 17 && p < Upto(bits, 16) && LenOf(bits, p) <= 8
  {
    Pow2(8 - LenOf(bits, p))
  }

  lemma EightBits()
    ensures Pow2(8) == 256
  {
  }

  lemma LookFits(bits: seq<nat>, p: nat)
    requires Legal(bits) && p < Upto(bits, 16) && LenOf(bits, p) <= 8
    ensures LookStart(bits, p) + LookCount(bits, p) <= 256
  {
    hide Pow2, LenOf, Used, Upto;
    var l, c := LenOf(bits, p), CodeOf(bits, p);
    Pow2Add(l, 8 - l);
    assert Pow2(8) == 256 by {
      EightBits();
    }
    MulMono(c + 1, Pow2(l), Pow2(8 - l));
    NextMultiple(c, Pow2(8 - l));
  }

  // These strings are looked up as p.
  lemma LookMatches(t: HuffTbl, p: nat, x: nat)
    requires WellTyped(t) && Legal(t.bits) && p < Upto(t.bits, 16) && LenOf(t.bits, p) <= 8
    requires LookStart(t.bits, p) <= x < LookStart(t.bits, p) + LookCount(t.bits, p)
    ensures LookEntry(t, x, LenOf(t.bits, p), t.huffval[p])
  {
    var l, c := LenOf(t.bits, p), CodeOf(t.bits, p);
    ToBitsTop(x, 8, l);
    DivUnique(x, Pow2(8 - l), c, x - c * Pow2(8 - l));
    MatchIffPrefix(t.bits, ToBits(x, 8), p);
  }

  // Above all codes of at most 8 bits there is nothing to look up.
  lemma LookMisses(t: HuffTbl, x: nat)
    requires WellTyped(t) && Legal(t.bits) && Used(t.bits, 8) <= x < 256
    ensures forall sym :: LookEntry(t, x, 0, sym)
  {
    var s := ToBits(x, 8);
    assert Pow2(8) == 256;
    ValToBits(x, 8);
    assert Ahead(s, 8) == s;
    if MatchLen(t.bits, s) <= 8 {
      MatchMonotone(t.bits, s, MatchLen(t.bits, s), 8);
    }
  }

  // Where the strings of the i'th code of length l start.
  function LookAt(bits: seq<nat>, l: nat, i: nat): nat
    requires 1 <= l <= 8 && l < |bits|
  {
    (2 * Used(bits, l - 1) + i) * Pow2(8 - l)
  }

  lemma UptoNone(bits: seq<nat>)
    requires bits != []
    ensures Upto(bits, 0) == 0
  {
  }

  lemma UptoNext(bits: seq<nat>, l: nat)
    requires 0 < l < |bits|
    ensures Upto(bits, l) == Upto(bits, l - 1) + bits[l]
  {
  }

  lemma NextMultiple(c: nat, w: nat)
    ensures (c + 1) * w == c * w + w
  {
  }

  // Consecutive codes fill consecutive entries, also across lengths.
  lemma LookConsecutive(bits: seq<nat>, l: nat, i: nat)
    requires |bits| == 17 && 1 <= l <= 8 && i < bits[l]
    ensures Upto(bits, l - 1) + i < Upto(bits, 16) && LenOf(bits, Upto(bits, l - 1) + i) == l
    ensures LookStart(bits, Upto(bits, l - 1) + i) == LookAt(bits, l, i)
    ensures LookStart(bits, Upto(bits, l - 1) + i) + LookCount(bits, Upto(bits, l - 1) + i) == LookAt(bits, l, i + 1)
  {
    hide Used, Pow2, LenOf;
    UptoMono(bits, l, 16);
    UptoNext(bits, l);
    LenOfUnique(bits, Upto(bits, l - 1) + i, l);
    NextMultiple(2 * Used(bits, l - 1) + i, Pow2(8 - l));
  }

  lemma LookNextLength(bits: seq<nat>, l: nat)
    requires |bits| == 17 && 1 <= l <= 8
    ensures LookAt(bits, l, bits[l]) == if l < 8 then LookAt(bits, l + 1, 0) else Used(bits, 8)
  {
    var u := Used(bits, l);
    if l < 8 {
      assert u * Pow2(8 - l) == 2 * u * Pow2(7 - l);
    } else {
      assert Pow2(0) == 1;
    }
  }

  // The entries below top are right, the others still empty.
  ghost predicate Filled(t: HuffTbl, nbits: seq<nat>, sym: seq<nat>, top: nat)
    requires WellTyped(t) && Legal(t.bits)
  {
    && |nbits| == |sym| == 256
    && (forall x | 0 <= x < top && x < 256 :: LookEntry(t, x, nbits[x], sym[x]))
    && (forall x | top <= x < 256 :: nbits[x] == 0)
  }

  // Enters one code: all 8-bit strings that begin with it.
  method FillLookCode(t: HuffTbl, look_nbits: array<nat>, look_sym: array<nat>, p: nat, code: nat, l: nat)
    requires WellTyped(t) && Legal(t.bits) && look_nbits != look_sym
    requires p < Upto(t.bits, 16) && l == LenOf(t.bits, p) <= 8 && code == CodeOf(t.bits, p)
    requires Filled(t, look_nbits[..], look_sym[..], LookStart(t.bits, p))
    modifies look_nbits, look_sym
    ensures Filled(t, look_nbits[..], look_sym[..], LookStart(t.bits, p) + LookCount(t.bits, p))
  {
    LookFits(t.bits, p);
    var lookbits := code * Pow2(HUFF_LOOKAHEAD - l);
    ghost var end := lookbits + LookCount(t.bits, p);
    var ctr := Pow2(HUFF_LOOKAHEAD - l);
    while ctr > 0
      invariant lookbits + ctr == end && LookStart(t.bits, p) <= lookbits <= end <= 256
      invariant Filled(t, look_nbits[..], look_sym[..], lookbits)
    {
      LookMatches(t, p, lookbits);
      look_nbits[lookbits] := l;
      look_sym[lookbits] := t.huffval[p];
      lookbits := lookbits + 1;
      ctr := ctr - 1;
    }
  }

  // Enters the codes of length l.
  method FillLookLength(t: HuffTbl, huffcode: array<nat>, look_nbits: array<nat>, look_sym: array<nat>, l: nat, p0: nat)
    returns (p: nat)
    requires WellTyped(t) && Legal(t.bits) && 1 <= l <= 8 && huffcode.Length == 257
    requires look_nbits != look_sym && huffcode != look_nbits && huffcode != look_sym
    requires forall q | 0 <= q < Upto(t.bits, 16) :: huffcode[q] == CodeOf(t.bits, q)
    requires p0 == Upto(t.bits, l - 1) && Filled(t, look_nbits[..], look_sym[..], LookAt(t.bits, l, 0))
    modifies look_nbits, look_sym
    ensures p == Upto(t.bits, l) && Filled(t, look_nbits[..], look_sym[..], LookAt(t.bits, l, t.bits[l]))
  {
    p := p0;
    for i := 0 to t.bits[l]
      invariant p == p0 + i && Filled(t, look_nbits[..], look_sym[..], LookAt(t.bits, l, i))
    {
      LookConsecutive(t.bits, l, i);
      FillLookCode(t, look_nbits, look_sym, p, huffcode[p], l);
      p := p + 1;
    }
  }

  // The codes of at most 8 bits fill the lookahead tables from the bottom up.
  method FillLookTables(t: HuffTbl, huffcode: array<nat>) returns (look_nbits: array<nat>, look_sym: array<nat>)
    requires WellTyped(t) && Legal(t.bits) && huffcode.Length == 257
    requires forall p | 0 <= p < Upto(t.bits, 16) :: huffcode[p] == CodeOf(t.bits, p)
    ensures look_nbits.Length == look_sym.Length == 256
    ensures forall x | 0 <= x < 256 :: LookEntry(t, x, look_nbits[x], look_sym[x])
  {
    look_nbits := new nat[256](_ => 0);
    look_sym := new nat[256](_ => 0);
    var p := 0;
    for l := 1 to HUFF_LOOKAHEAD + 1
      invariant p == Upto(t.bits, l - 1) && fresh(look_nbits) && fresh(look_sym) && look_nbits != look_sym
      invariant Filled(t, look_nbits[..], look_sym[..], if l <= 8 then LookAt(t.bits, l, 0) else Used(t.bits, 8))
    {
      p := FillLookLength(t, huffcode, look_nbits, look_sym, l, p);
      LookNextLength(t.bits, l);
    }
    forall x | 0 <= x < 256
      ensures LookEntry(t, x, look_nbits[x], look_sym[x])
    {
      if x >= Used(t.bits, 8) {
        LookMisses(t, x);
        assert LookEntry(t, x, 0, look_sym[x]);
      }
    }
  }

  method MakeDDerived(isDC: bool, t: HuffTbl) returns (r: Result<DDerived>)
    requires WellTyped(t)
    ensures if DecoderAccepts(isDC, t) then r.Ok? else r == Err(BadHuffTable)
    ensures r.Ok? ==> Decodes(t, r.value)
  {
    var ok, huffsize, numsymbols := ExpandSizes(t.bits);
    if !ok {
      return Err(BadHuffTable);
    }
    var huffcode;
    ok, huffcode := ExpandCodes(t.bits, huffsize, numsymbols);
    if !ok {
      return Err(BadHuffTable);
    }
    assert forall p | 0 <= p < numsymbols :: huffcode[..][p] == CodeOf(t.bits, p);
    var maxcode, valoffset := FillSlowTables(t.bits, huffcode);
    var look_nbits, look_sym := FillLookTables(t, huffcode);
    if isDC {
      for i := 0 to numsymbols
        invariant forall q | 0 <= q < i :: t.huffval[q] <= 15
      {
        var sym := t.huffval[i];
        if sym > 15 {
          return Err(BadHuffTable);
        }
      }
    }
    return Ok(DDerived(maxcode[..], valoffset[..], look_nbits[..], look_sym[..], t));
  }

  // ----- the two builders agree -----

  // The bits the encoder emits for symbol s.
  function SymbolBits(d: CDerived, s: nat): (r: Bits)
    requires |d.ehufco| == |d.ehufsi| == 256 && s < 256
    ensures |r| == d.ehufsi[s]
  {
    ToBits(d.ehufco[s], d.ehufsi[s])
  }

  // Whatever follows them, the bits emitted for a symbol decode to that symbol,
  // and exactly these bits are consumed.
  lemma CodesAgree(t: HuffTbl, d: CDerived, s: nat, rest: Bits)
    requires Encodes(t, d) && s < 256 && d.ehufsi[s] != 0
    ensures SymbolAt(t, SymbolBits(d, s) + rest) == (s, |SymbolBits(d, s)|)
  {
    var p :| 0 <= p < Upto(t.bits, 16) && t.huffval[p] == s;
    SymbolAtCodeWord(t, p, rest);
  }
}
