// The bits of one entropy-coded segment as a decoder sees them: when they run
// out, zero bits are supplied and the source is marked dry.
module BitSource {
  import opened Arith
  import opened Bits
  import opened HuffTable

  datatype Src = Src(bits: Bits, dry: bool)

  // The number made of the next n bits.
  function Peek(s: Src, n: nat): (v: nat)
    ensures v < Pow2(n)
  {
    ValBound(Ahead(s.bits, n));
    Val(Ahead(s.bits, n))
  }

  // What is left after n bits.
  function Skip(s: Src, n: nat): Src {
    Src(Behind(s.bits, n), s.dry || n > |s.bits|)
  }

  // The next Huffman symbol.
  function Symbol(t: HuffTbl, s: Src): (v: nat)
    requires WellTyped(t) && Legal(t.bits)
    ensures v < 256
  {
    SymbolAt(t, s.bits).0
  }

  function AfterSymbol(t: HuffTbl, s: Src): Src
    requires WellTyped(t) && Legal(t.bits)
  {
    Skip(s, SymbolAt(t, s.bits).1)
  }

  lemma SkipTwice(s: Src, m: nat, n: nat)
    ensures Skip(Skip(s, m), n) == Skip(s, m + n)
    ensures Peek(s, m + n) == Peek(s, m) * Pow2(n) + Peek(Skip(s, m), n)
  {
    AheadTwice(s.bits, m, n);
    ValConcat(Ahead(s.bits, m), Ahead(Behind(s.bits, m), n));
  }

  // Reading bits that were written in front.
  lemma ReadBack(a: Bits, rest: Bits, dry: bool)
    ensures Peek(Src(a + rest, dry), |a|) == Val(a) && Skip(Src(a + rest, dry), |a|) == Src(rest, dry)
  {
    AheadConcat(a, rest);
  }
}
