// What the entropy coders send: Huffman symbols and raw bits, before and after
// the code tables turn them into bits.
module Tokens {
  import opened Arith
  import opened Bits
  import opened Words
  import opened DerivedTables

  datatype TblRef = DC(no: nat) | AC(no: nat)

  // A Huffman symbol of a table, or the n low-order bits of v.
  datatype Token = Sym(tbl: TblRef, s: nat) | Raw(v: int, n: nat)

  const NUM_HUFF_TBLS := 4

  // The derived tables of an encoder.
  datatype CTables = CTables(dc: seq<CDerived>, ac: seq<CDerived>)

  predicate SaneTable(d: CDerived) {
    && |d.ehufco| == |d.ehufsi| == 256
    && forall s | 0 <= s < 256 :: d.ehufsi[s] <= 16 && (d.ehufsi[s] > 0 ==> d.ehufco[s] < Pow2(16))
  }

  predicate SaneTables(t: CTables) {
    && |t.dc| == |t.ac| == NUM_HUFF_TBLS
    && forall i | 0 <= i < NUM_HUFF_TBLS :: SaneTable(t.dc[i]) && SaneTable(t.ac[i])
  }

  function TableOf(t: CTables, ref: TblRef): (d: CDerived)
    requires SaneTables(t) && ref.no < NUM_HUFF_TBLS
    ensures SaneTable(d)
  {
    if ref.DC? then t.dc[ref.no] else t.ac[ref.no]
  }

  // The encoder's cast of an int to unsigned.
  function Unsigned(v: int): Word32 {
    v % WORD
  }

  // A symbol can be sent if its table has a code for it.
  predicate Sendable(t: CTables, tok: Token)
    requires SaneTables(t)
  {
    match tok
    case Sym(ref, s) => ref.no < NUM_HUFF_TBLS && s < 256 && TableOf(t, ref).ehufsi[s] != 0
    case Raw(_, n) => 0 < n <= 16
  }

  predicate AllSendable(t: CTables, toks: seq<Token>)
    requires SaneTables(t)
  {
    forall i | 0 <= i < |toks| :: Sendable(t, toks[i])
  }

  function TokenBits(t: CTables, tok: Token): Bits
    requires SaneTables(t) && Sendable(t, tok)
  {
    match tok
    case Sym(ref, s) => SymbolBits(TableOf(t, ref), s)
    case Raw(v, n) => ToBits(Unsigned(v), n)
  }

  function TokensBits(t: CTables, toks: seq<Token>): Bits
    requires SaneTables(t) && AllSendable(t, toks)
  {
    if toks == [] then [] else TokenBits(t, toks[0]) + TokensBits(t, toks[1..])
  }

  lemma {:induction false} TokensBitsConcat(t: CTables, a: seq<Token>, b: seq<Token>)
    requires SaneTables(t) && AllSendable(t, a) && AllSendable(t, b)
    ensures AllSendable(t, a + b) && TokensBits(t, a + b) == TokensBits(t, a) + TokensBits(t, b)
  {
    if a == [] {
      assert a + b == b;
    } else {
      assert (a + b)[1..] == a[1..] + b;
      TokensBitsConcat(t, a[1..], b);
      Assoc(TokenBits(t, a[0]), TokensBits(t, a[1..]), TokensBits(t, b));
    }
  }

  // The bits of a token come before those of the tokens behind it.
  lemma TokensBitsHead(t: CTables, tok: Token, more: seq<Token>, rest: Bits)
    requires SaneTables(t) && AllSendable(t, [tok] + more)
    ensures Sendable(t, tok) && AllSendable(t, more)
    ensures TokensBits(t, [tok] + more) + rest == TokenBits(t, tok) + (TokensBits(t, more) + rest)
  {
    var toks := [tok] + more;
    assert toks[0] == tok && toks[1..] == more;
    assert Sendable(t, toks[0]);
    assert forall i | 0 <= i < |more| :: more[i] == toks[i + 1];
    Assoc(TokenBits(t, tok), TokensBits(t, more), rest);
  }

  lemma TokensBitsOne(t: CTables, tok: Token)
    requires SaneTables(t) && Sendable(t, tok)
    ensures TokensBits(t, [tok]) == TokenBits(t, tok)
  {
    assert TokensBits(t, [tok]) == TokenBits(t, tok) + TokensBits(t, []);
  }

  // How often a symbol occurs.
  function Count(toks: seq<Token>, ref: TblRef, s: nat): nat {
    if toks == [] then 0 else (if toks[0] == Sym(ref, s) then 1 else 0) + Count(toks[1..], ref, s)
  }

  lemma {:induction false} CountConcat(a: seq<Token>, b: seq<Token>, ref: TblRef, s: nat)
    ensures Count(a + b, ref, s) == Count(a, ref, s) + Count(b, ref, s)
  {
    if a == [] {
      assert a + b == b;
    } else {
      assert (a + b)[1..] == a[1..] + b;
      CountConcat(a[1..], b, ref, s);
    }
  }

  lemma {:induction false} CountPositive(toks: seq<Token>, i: nat)
    requires i < |toks| && toks[i].Sym?
    ensures Count(toks, toks[i].tbl, toks[i].s) > 0
  {
    if i > 0 {
      CountPositive(toks[1..], i - 1);
    }
  }

  // ----- magnitudes (section F.1.2.1 of ITU-T T.81) -----

  // The number of bits of n.
  function NBits(n: nat): (r: nat)
    ensures n < Pow2(r) && (r > 0 ==> Pow2(r - 1) <= n)
  {
    if n == 0 then 0 else 1 + NBits(n / 2)
  }

  function Abs(v: int): nat {
    if v < 0 then -v else v
  }

  // The value whose low-order bits are sent for v.
  function Coded(v: int): int {
    if v < 0 then v - 1 else v
  }

  // HUFF_EXTEND: the value that s bits denoting x stand for.
  function Extend(x: nat, s: nat): int
    requires s > 0
  {
    if x < Pow2(s - 1) then x - Pow2(s) + 1 else x
  }

  lemma SmallPowers()
    ensures Pow2(8) == 0x100 && Pow2(15) == 0x8000
  {
    assert Pow2(8) == 0x100;
    Pow2Add(7, 8);
    assert Pow2(7) == 0x80;
  }

  // The bits sent for v, read back and extended, give v again.
  lemma CodedExtend(v: int)
    requires 0 < NBits(Abs(v)) <= 15
    ensures Extend(Val(ToBits(Unsigned(Coded(v)), NBits(Abs(v)))), NBits(Abs(v))) == v
  {
    var n := NBits(Abs(v));
    var p := Pow2(n);
    var x := if v < 0 then v - 1 + p else v;
    assert p == 2 * Pow2(n - 1);
    Pow2Mono(n, 15);
    SmallPowers();
    CodedLow(v, n, x);
    ToBitsLow(Unsigned(Coded(v)), n);
    ValToBits(x, n);
  }

  // Two's complement: the low-order bits of a negative number.
  lemma NegativeLow(v: int, p: nat, q: nat)
    requires p * q == WORD && v < 0 <= v + p
    ensures v % WORD % p == v + p
  {
    assert p * (q - 1) == p * q - p;
    assert v % WORD == v + WORD by {
      if p > WORD {
        MulMono(1, q, p);
      }
    }
    DivUnique(v + WORD, p, q - 1, v + p);
  }

  lemma CodedLow(v: int, n: nat, x: nat)
    requires n <= 15 && -0x8000 < v < 0x8000 && x < Pow2(n)
    requires x == if v < 0 then v - 1 + Pow2(n) else v
    ensures Unsigned(Coded(v)) % Pow2(n) == x
  {
    if v < 0 {
      Pow2Add(n, 32 - n);
      Pow2Values();
      NegativeLow(v - 1, Pow2(n), Pow2(32 - n));
    } else {
      ModSmall(v, Pow2(n));
    }
  }

  // Tables F.1 and F.2 of ITU-T T.81: a positive value is sent as it is, a negative
  // one as the value plus 2^n - 1, so that the first bit tells them apart.
  lemma MagnitudeBits(v: int)
    requires 0 < NBits(Abs(v)) <= 15
    ensures var n := NBits(Abs(v));
            && Pow2(n - 1) <= Abs(v) < Pow2(n)
            && Val(ToBits(Unsigned(Coded(v)), n)) == if v > 0 then v else v + Pow2(n) - 1
  {
    var n := NBits(Abs(v));
    var x := if v < 0 then v - 1 + Pow2(n) else v;
    Pow2Mono(n, 15);
    SmallPowers();
    CodedLow(v, n, x);
    ToBitsLow(Unsigned(Coded(v)), n);
    ValToBits(x, n);
  }
}
