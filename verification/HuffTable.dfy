// Huffman tables (JHUFF_TBL) and the canonical code they stand for, after
// Annex C and section F.2.2.3 of ITU-T T.81.
module HuffTable {
  import opened Arith
  import opened Bits

  // bits[l] counts the symbols of code length l (bits[0] is unused);
  // huffval lists the symbols by increasing code length.
  datatype HuffTbl = HuffTbl(bits: seq<nat>, huffval: seq<nat>)

  predicate WellTyped(t: HuffTbl) {
    && |t.bits| == 17 && (forall l | 0 <= l < 17 :: t.bits[l] < 256)
    && |t.huffval| == 256 && (forall p | 0 <= p < 256 :: t.huffval[p] < 256)
  }

  // How many l-bit strings the codes of length at most l use up.
  function Used(bits: seq<nat>, l: nat): nat
    requires l < |bits|
  {
    if l == 0 then 0 else 2 * Used(bits, l - 1) + bits[l]
  }

  // How many codes have length at most l.
  function Upto(bits: seq<nat>, l: nat): nat
    requires l < |bits|
  {
    if l == 0 then 0 else Upto(bits, l - 1) + bits[l]
  }

  // A legal code tree: at every length at least one string, the one of all ones, stays free.
  predicate Legal(bits: seq<nat>) {
    |bits| == 17 && Upto(bits, 16) <= 256 && forall l | 1 <= l <= 16 :: Used(bits, l) < Pow2(l)
  }

  lemma {:induction false} UsedGrows(bits: seq<nat>, l: nat, m: nat)
    requires l <= m < |bits|
    ensures Used(bits, l) * Pow2(m - l) <= Used(bits, m)
  {
    if l < m {
      UsedGrows(bits, l, m - 1);
      assert Used(bits, l) * Pow2(m - l) == 2 * (Used(bits, l) * Pow2(m - 1 - l));
    }
  }

  // Lengths without codes of their own do not make a tree illegal.
  lemma {:induction false} UsedTail(bits: seq<nat>, l: nat, m: nat)
    requires l <= m < |bits| && Upto(bits, m) == Upto(bits, l) && Used(bits, l) < Pow2(l)
    ensures Used(bits, m) < Pow2(m)
  {
    if l < m {
      UptoMono(bits, l, m - 1);
      UsedTail(bits, l, m - 1);
    }
  }

  lemma {:induction false} UsedNone(bits: seq<nat>, m: nat)
    requires m < |bits| && Upto(bits, m) == 0
    ensures Used(bits, m) == 0
  {
    if m > 0 {
      UsedNone(bits, m - 1);
    }
  }

  lemma {:induction false} UptoMono(bits: seq<nat>, l: nat, m: nat)
    requires l <= m < |bits|
    ensures Upto(bits, l) <= Upto(bits, m)
  {
    if l < m {
      UptoMono(bits, l, m - 1);
    }
  }

  // The tree is legal exactly when its Kraft sum is below 1.
  lemma LegalIffKraft(bits: seq<nat>)
    requires |bits| == 17 && Upto(bits, 16) <= 256
    ensures Legal(bits) <==> Used(bits, 16) < Pow2(16)
  {
    forall l | 1 <= l <= 16
      ensures Used(bits, 16) < Pow2(16) ==> Used(bits, l) < Pow2(l)
    {
      UsedGrows(bits, l, 16);
      Pow2Add(l, 16 - l);
      if Used(bits, l) >= Pow2(l) {
        MulMono(Pow2(l), Used(bits, l), Pow2(16 - l));
      }
    }
  }

  // ----- the code of the p'th symbol -----

  function LenFrom(bits: seq<nat>, p: nat, l: nat): (r: nat)
    requires 1 <= l < |bits| && Upto(bits, l - 1) <= p < Upto(bits, |bits| - 1)
    ensures l <= r < |bits| && Upto(bits, r - 1) <= p < Upto(bits, r)
    decreases |bits| - l
  {
    if p < Upto(bits, l) then l else LenFrom(bits, p, l + 1)
  }

  // The code length of the p'th symbol.
  function LenOf(bits: seq<nat>, p: nat): (r: nat)
    requires |bits| == 17 && p < Upto(bits, 16)
    ensures 1 <= r <= 16 && Upto(bits, r - 1) <= p < Upto(bits, r)
  {
    LenFrom(bits, p, 1)
  }

  lemma LenOfUnique(bits: seq<nat>, p: nat, l: nat)
    requires |bits| == 17 && p < Upto(bits, 16)
    requires 1 <= l <= 16 && Upto(bits, l - 1) <= p < Upto(bits, l)
    ensures LenOf(bits, p) == l
  {
    var r := LenOf(bits, p);
    if r < l {
      UptoMono(bits, r, l - 1);
    } else if l < r {
      UptoMono(bits, l, r - 1);
    }
  }

  // Consecutive codes of one length are consecutive numbers; the first one of a
  // length follows the last shorter code, extended by zero bits.
  function CodeOf(bits: seq<nat>, p: nat): (r: nat)
    requires |bits| == 17 && p < Upto(bits, 16)
    ensures r < Used(bits, LenOf(bits, p))
  {
    var l := LenOf(bits, p);
    2 * Used(bits, l - 1) + (p - Upto(bits, l - 1))
  }

  function CodeWord(bits: seq<nat>, p: nat): (r: Bits)
    requires |bits| == 17 && p < Upto(bits, 16)
    ensures |r| == LenOf(bits, p)
  {
    ToBits(CodeOf(bits, p), LenOf(bits, p))
  }

  lemma CodeWordVal(bits: seq<nat>, p: nat)
    requires Legal(bits) && p < Upto(bits, 16)
    ensures Val(CodeWord(bits, p)) == CodeOf(bits, p)
  {
    ValToBits(CodeOf(bits, p), LenOf(bits, p));
  }

  // ----- decoding -----

  // The least length l at which the bits ahead denote a number below Used(bits, l),
  // or 17 if there is none.
  function MatchFrom(bits: seq<nat>, s: Bits, l: nat): (r: nat)
    requires |bits| == 17 && 1 <= l <= 17
    ensures l <= r <= 17
    ensures r <= 16 ==> Val(Ahead(s, r)) < Used(bits, r)
    ensures forall k | l <= k < r :: Val(Ahead(s, k)) >= Used(bits, k)
    decreases 17 - l
  {
    if l == 17 || Val(Ahead(s, l)) < Used(bits, l) then l else MatchFrom(bits, s, l + 1)
  }

  function MatchLen(bits: seq<nat>, s: Bits): (r: nat)
    requires |bits| == 17
    ensures 1 <= r <= 17
  {
    MatchFrom(bits, s, 1)
  }

  // Below the used range no codes of the length can be missed: the number lies
  // among the codes of exactly this length.
  lemma MatchAtLeast(bits: seq<nat>, s: Bits, l: nat)
    requires |bits| == 17 && 1 <= l <= 16
    requires Val(Ahead(s, l - 1)) >= Used(bits, l - 1)
    ensures Val(Ahead(s, l)) >= 2 * Used(bits, l - 1)
  {
    ValNext(s, l - 1);
  }

  // Once below the used range, always below it.
  lemma {:induction false} MatchMonotone(bits: seq<nat>, s: Bits, l: nat, m: nat)
    requires |bits| == 17 && 1 <= l <= m <= 16
    requires Val(Ahead(s, l)) < Used(bits, l)
    ensures Val(Ahead(s, m)) < Used(bits, m)
  {
    if l < m {
      MatchMonotone(bits, s, l, m - 1);
      ValNext(s, m - 1);
    }
  }

  // Index in huffval of the code found at the head of s.
  function MatchIndex(bits: seq<nat>, s: Bits): (p: nat)
    requires |bits| == 17 && MatchLen(bits, s) <= 16
    ensures p < Upto(bits, 16) && LenOf(bits, p) == MatchLen(bits, s)
    ensures CodeOf(bits, p) == Val(Ahead(s, MatchLen(bits, s)))
  {
    var l := MatchLen(bits, s);
    assert Val(Ahead(s, l)) >= 2 * Used(bits, l - 1) by {
      if l > 1 {
        MatchAtLeast(bits, s, l);
      }
    }
    var p := Upto(bits, l - 1) + (Val(Ahead(s, l)) - 2 * Used(bits, l - 1));
    UptoMono(bits, l, 16);
    LenOfUnique(bits, p, l);
    p
  }

  // The next symbol in the stream s and the number of bits it takes. Bits that
  // begin no code are worth symbol 0 and cost 17 bits.
  function SymbolAt(t: HuffTbl, s: Bits): (r: (nat, nat))
    requires WellTyped(t) && Legal(t.bits)
    ensures r.0 < 256 && 1 <= r.1 <= 17
  {
    if MatchLen(t.bits, s) == 17 then (0, 17)
    else (t.huffval[MatchIndex(t.bits, s)], MatchLen(t.bits, s))
  }

  // The code word of p begins s exactly when matching s finds p.
  lemma MatchIffPrefix(bits: seq<nat>, s: Bits, p: nat)
    requires Legal(bits) && p < Upto(bits, 16)
    ensures Ahead(s, LenOf(bits, p)) == CodeWord(bits, p)
       <==> MatchLen(bits, s) <= 16 && MatchIndex(bits, s) == p
  {
    var l, v := LenOf(bits, p), CodeOf(bits, p);
    CodeWordVal(bits, p);
    if Ahead(s, l) == CodeWord(bits, p) {
      var m := MatchLen(bits, s);
      assert m <= l;
      if m < l {
        MatchMonotone(bits, s, m, l - 1);
        ValNext(s, l - 1);
      }
    } else if MatchLen(bits, s) <= 16 && MatchIndex(bits, s) == p {
      ValUnique(Ahead(s, l), CodeWord(bits, p));
    }
  }

  // No code word begins another.
  lemma CodesPrefixFree(bits: seq<nat>, p: nat, q: nat)
    requires Legal(bits) && p < Upto(bits, 16) && q < Upto(bits, 16)
    requires CodeWord(bits, p) <= CodeWord(bits, q)
    ensures p == q
  {
    var w := CodeWord(bits, q);
    MatchIffPrefix(bits, w, p);
    MatchIffPrefix(bits, w, q);
  }

  // No code word consists of ones only.
  lemma CodesNotAllOnes(bits: seq<nat>, p: nat)
    requires Legal(bits) && p < Upto(bits, 16)
    ensures exists i :: 0 <= i < LenOf(bits, p) && !CodeWord(bits, p)[i]
  {
    var w := CodeWord(bits, p);
    CodeWordVal(bits, p);
    if forall i | 0 <= i < |w| :: w[i] {
      OnesVal(w);
    }
  }

  lemma {:induction false} OnesVal(s: Bits)
    requires forall i | 0 <= i < |s| :: s[i]
    ensures Val(s) == Pow2(|s|) - 1
    decreases |s|
  {
    if s != [] {
      OnesVal(s[..|s| - 1]);
    }
  }

  // Decoding a code word followed by anything returns its symbol and its length.
  lemma SymbolAtCodeWord(t: HuffTbl, p: nat, rest: Bits)
    requires WellTyped(t) && Legal(t.bits) && p < Upto(t.bits, 16)
    ensures SymbolAt(t, CodeWord(t.bits, p) + rest) == (t.huffval[p], LenOf(t.bits, p))
  {
    var w := CodeWord(t.bits, p);
    AheadConcat(w, rest);
    MatchIffPrefix(t.bits, w + rest, p);
  }

  // Only the bits of the code word itself matter.
  lemma MatchLocal(bits: seq<nat>, s: Bits, s': Bits, n: nat)
    requires |bits| == 17 && Ahead(s, n) == Ahead(s', n) && MatchLen(bits, s) <= n
    ensures MatchLen(bits, s') == MatchLen(bits, s)
    ensures Ahead(s', MatchLen(bits, s)) == Ahead(s, MatchLen(bits, s))
  {
    forall k: nat | k <= n
      ensures Ahead(s, k) == Ahead(s', k)
    {
      assert Ahead(s, k) == Ahead(s, n)[..k] && Ahead(s', k) == Ahead(s', n)[..k];
    }
  }

  // ----- the canonical order of Annex C of ITU-T T.81 -----

  // Without codes between lengths l and m the strings used only get longer.
  lemma {:induction false} UsedGap(bits: seq<nat>, l: nat, m: nat)
    requires l <= m < |bits| && Upto(bits, m) == Upto(bits, l)
    ensures Used(bits, m) == Used(bits, l) * Pow2(m - l)
  {
    if l < m {
      UptoMono(bits, l, m - 1);
      UsedGap(bits, l, m - 1);
      assert Used(bits, l) * Pow2(m - l) == 2 * (Used(bits, l) * Pow2(m - 1 - l));
    }
  }

  // The first code is all zeros; every other one is the code before it plus one,
  // with zero bits added if it is longer.
  lemma CanonicalOrder(bits: seq<nat>, p: nat)
    requires |bits| == 17 && p < Upto(bits, 16)
    ensures p == 0 ==> CodeOf(bits, p) == 0
    ensures p > 0 ==>
      && LenOf(bits, p - 1) <= LenOf(bits, p)
      && CodeOf(bits, p) == (CodeOf(bits, p - 1) + 1) * Pow2(LenOf(bits, p) - LenOf(bits, p - 1))
  {
    hide Used, Pow2, LenFrom;
    var l := LenOf(bits, p);
    if p == 0 {
      UsedNone(bits, l - 1);
    } else {
      var k := LenOf(bits, p - 1);
      if l < k {
        UptoMono(bits, l, k - 1);
      } else if k < l {
        UptoMono(bits, k, l - 1);
        UsedGap(bits, k, l - 1);
        UsedAt(bits, k);
        PowerNext(l - 1 - k);
        TwiceProduct(Used(bits, k), Pow2(l - 1 - k));
      } else {
        PowerNext(0);
      }
    }
  }

  lemma UsedAt(bits: seq<nat>, l: nat)
    requires 0 < l < |bits|
    ensures Used(bits, l) == 2 * Used(bits, l - 1) + bits[l] && Upto(bits, l) == Upto(bits, l - 1) + bits[l]
  {
  }

  lemma PowerNext(n: nat)
    ensures Pow2(n + 1) == 2 * Pow2(n) && Pow2(0) == 1
  {
  }

  lemma TwiceProduct(a: int, b: int)
    ensures 2 * (a * b) == a * (2 * b)
  {
  }

  // 17 ones begin with no code: a decoder takes them for symbol 0.
  lemma OnesAreNoCode(t: HuffTbl, s: Bits)
    requires WellTyped(t) && Legal(t.bits) && |s| >= 17 && forall i | 0 <= i < 17 :: s[i]
    ensures SymbolAt(t, s) == (0, 17)
  {
    var l := MatchLen(t.bits, s);
    if l <= 16 {
      AllOnesVal(Ahead(s, l));
    }
  }

  lemma {:induction false} AllOnesVal(s: Bits)
    requires forall i | 0 <= i < |s| :: s[i]
    ensures Val(s) == Pow2(|s|) - 1
  {
    if s != [] {
      AllOnesVal(s[..|s| - 1]);
    }
  }
}
