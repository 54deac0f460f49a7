// Tables made by jpeg_gen_optimal_table are fit for use: both builders of
// derived tables accept them, and they have a code for every counted symbol.
module OptTableUse {
  import opened PrefixCodes
  import opened HuffTable
  import opened DerivedTables
  import opened OptTable
  import CL = CodeLengths

  // Every symbol counted, and no other, is listed, once.
  lemma ListsTheCounted(w: seq<nat>, size: seq<nat>, t: HuffTbl)
    requires HuffmanLengths(w, size) && CL.Short(size) && TableFor(size, t)
    ensures NoRepeats(t, Upto(t.bits, 16))
    ensures forall s: nat :: s in t.huffval[..Upto(t.bits, 16)] <==> s < 256 && w[s] != 0
  {
    CL.ListedSpec(size, CL.MAX_CLEN);
    assert t.huffval[..Upto(t.bits, 16)] == CL.Listed(size, CL.MAX_CLEN);
    forall p, q | 0 <= p < q < Upto(t.bits, 16)
      ensures t.huffval[p] != t.huffval[q]
    {
      assert t.huffval[p] == CL.Listed(size, CL.MAX_CLEN)[p] && t.huffval[q] == CL.Listed(size, CL.MAX_CLEN)[q];
    }
  }

  // jpeg_make_c_derived_tbl and jpeg_make_d_derived_tbl accept the table; as a
  // DC table they do so exactly when only symbols 0..15 were counted.
  lemma OptimalTableAccepted(isDC: bool, w: seq<nat>, size: seq<nat>, t: HuffTbl)
    requires HuffmanLengths(w, size) && CL.Short(size) && TableFor(size, t)
    ensures EncoderAccepts(isDC, t) <==> (isDC ==> forall s | 16 <= s < 256 :: w[s] == 0)
    ensures DecoderAccepts(isDC, t) <==> (isDC ==> forall s | 16 <= s < 256 :: w[s] == 0)
  {
    ListsTheCounted(w, size, t);
    var n := Upto(t.bits, 16);
    assert forall p | 0 <= p < n :: t.huffval[p] == t.huffval[..n][p] && t.huffval[p] in t.huffval[..n];
    if isDC && !forall s | 16 <= s < 256 :: w[s] == 0 {
      var s: nat :| 16 <= s < 256 && w[s] != 0;
      assert s in t.huffval[..n];
      var p :| 0 <= p < n && t.huffval[..n][p] == s;
      assert t.huffval[p] == s;
    }
  }

  // Emitting a counted symbol never fails for want of a code.
  lemma CountedSymbolsHaveCodes(w: seq<nat>, size: seq<nat>, t: HuffTbl, d: CDerived, s: nat)
    requires HuffmanLengths(w, size) && CL.Short(size) && TableFor(size, t) && Encodes(t, d)
    requires s < 256
    ensures d.ehufsi[s] != 0 <==> w[s] != 0
    ensures size[PSEUDO] <= 16 ==> d.ehufsi[s] == size[s]
  {
    ListsTheCounted(w, size, t);
    var n := Upto(t.bits, 16);
    if w[s] != 0 {
      assert s in t.huffval[..n];
      var p :| 0 <= p < n && t.huffval[..n][p] == s;
      assert t.huffval[p] == s;
    }
  }

  // With no word over 16 bits, the table's code costs no more than any prefix
  // code that also keeps a word for the pseudo-symbol.
  lemma OptimalTableCost(w: seq<nat>, size: seq<nat>, t: HuffTbl, d: CDerived, code: seq<Word>)
    requires HuffmanLengths(w, size) && CL.Short(size) && TableFor(size, t) && Encodes(t, d)
    requires size[PSEUDO] <= 16 && PrefixFree(w, code)
    ensures Cost(w, d.ehufsi + [size[PSEUDO]]) <= Cost(w, Lengths(code))
  {
    OptimalBeatsPrefixCodes(w, size, code);
    forall s | 0 <= s < 256
      ensures d.ehufsi[s] == size[s]
    {
      CountedSymbolsHaveCodes(w, size, t, d, s);
    }
    assert d.ehufsi + [size[PSEUDO]] == size;
  }

  // ----- lengths that the limit to 16 bits leaves alone -----

  lemma ListedUsed(size: seq<nat>, p: nat)
    requires |size| == 257 && p < |CL.Listed(size, CL.MAX_CLEN)|
    ensures CL.Listed(size, CL.MAX_CLEN)[p] < 256 && 1 <= size[CL.Listed(size, CL.MAX_CLEN)[p]] <= CL.MAX_CLEN
  {
    CL.ListedSpec(size, CL.MAX_CLEN);
    assert CL.Listed(size, CL.MAX_CLEN)[p] in CL.Listed(size, CL.MAX_CLEN);
  }

  lemma NoMoves(size: seq<nat>)
    requires |size| == 257 && CL.Short(size) && size[PSEUDO] > 0 && CL.WithinLimit(CL.Hist(size, 257))
    ensures size[PSEUDO] <= 16
  {
    assert CL.Hist(size, 257)[size[PSEUDO]] > 0;
  }

  // If there is something to adjust, the pseudo-symbol has a word of over 16 bits.
  lemma LongPseudo(size: seq<nat>, m: CL.Move)
    requires |size| == 257 && CL.Short(size) && CL.MayMove(CL.Hist(size, 257), m)
    requires forall i | 0 <= i < 257 :: size[i] <= size[PSEUDO]
    ensures size[PSEUDO] > 16
  {
    if size[PSEUDO] < m.from {
      HistAbove(size, 257, m.from);
    }
  }

  lemma PseudoApart(size: seq<nat>, i: nat)
    requires |size| == 257 && CL.Short(size) && i < size[PSEUDO]
    ensures CL.Hist(size, 257)[i] == CL.Hist(size, 256)[i]
  {
  }

  // The last donor has at most 15 bits.
  lemma {:induction false} LastDonor(b: seq<nat>, moves: seq<CL.Move>, b': seq<nat>)
    requires CL.Leads(b, moves, b') && moves != [] && CL.WithinLimit(b')
    ensures moves[|moves| - 1].donor <= 15
    decreases |moves|
  {
    var b1 := CL.Adjusted(b, moves[0].from, moves[0].donor);
    assert b1[moves[0].from - 1] > 0;
    if moves[1..] != [] {
      LastDonor(b1, moves[1..], b');
    }
  }

  lemma {:induction false} SameUpto(a: seq<nat>, b: seq<nat>, k: nat)
    requires k < |a| && k < |b| && forall i | 0 <= i <= k :: a[i] == b[i]
    ensures Upto(a, k) == Upto(b, k)
  {
    if k > 0 {
      SameUpto(a, b, k - 1);
    }
  }

  // Where in the list a symbol is.
  lemma PlaceOf(size: seq<nat>, p: nat)
    requires |size| == 257 && CL.Short(size) && p < |CL.Listed(size, CL.MAX_CLEN)|
    ensures CL.Listed(size, CL.MAX_CLEN)[p] < 256
    ensures var k := size[CL.Listed(size, CL.MAX_CLEN)[p]];
            1 <= k <= CL.MAX_CLEN && Upto(CL.Hist(size, 256), k - 1) <= p < Upto(CL.Hist(size, 256), k)
  {
    hide CL.Listed, CL.Hist;
    ListedUsed(size, p);
    var list := CL.Listed(size, CL.MAX_CLEN);
    var k := size[list[p]];
    CL.ListedSpec(size, CL.MAX_CLEN);
    CL.ListedCount(size, k - 1);
    CL.ListedCount(size, k);
    CL.ListedPrefix(size, k - 1, CL.MAX_CLEN);
    CL.ListedPrefix(size, k, CL.MAX_CLEN);
    CL.ListedSpec(size, k - 1);
    CL.ListedSpec(size, k);
    assert list[p] in CL.Listed(size, k);
    var q :| 0 <= q < |CL.Listed(size, k)| && CL.Listed(size, k)[q] == list[p];
    assert list[q] == list[p];
  }

  lemma LeadsNothing(b: seq<nat>, b': seq<nat>)
    requires CL.Leads(b, [], b')
    ensures b == b'
  {
  }

  lemma FirstMove(b: seq<nat>, moves: seq<CL.Move>, b': seq<nat>)
    requires CL.Leads(b, moves, b') && moves != []
    ensures CL.MayMove(b, moves[0])
  {
  }

  // Words shorter than all donors of the adjustments keep their optimal lengths.
  lemma ShortWordsKeep(w: seq<nat>, size: seq<nat>, t: HuffTbl, moves: seq<CL.Move>, full: seq<nat>, p: nat)
    requires HuffmanLengths(w, size) && CL.Short(size) && TableFor(size, t) && w[PSEUDO] != 0
    requires CL.Leads(CL.Hist(size, 257), moves, full) && CL.WithinLimit(full)
    requires p < Upto(t.bits, 16) && t.huffval[p] < 256
    requires forall i | 0 <= i < |moves| :: size[t.huffval[p]] < moves[i].donor
    ensures LenOf(t.bits, p) == size[t.huffval[p]]
  {
    hide CL.Leads, CL.Hist, CL.Listed;
    var moves', full', l :| CL.Leads(CL.Hist(size, 257), moves', full') && Dropped(full', l, t.bits);
    CL.OneWay(CL.Hist(size, 257), moves, full, moves', full');
    var k := size[t.huffval[p]];
    var list := CL.Listed(size, CL.MAX_CLEN);
    assert list[p] == t.huffval[p];
    PlaceOf(size, p);
    if moves == [] {
      LeadsNothing(CL.Hist(size, 257), full);
      NoMoves(size);
    } else {
      CL.SixteenUsed(CL.Hist(size, 257), moves, full);
      LastDonor(CL.Hist(size, 257), moves, full);
      FirstMove(CL.Hist(size, 257), moves, full);
      LongPseudo(size, moves[0]);
      forall i | 0 <= i <= k
        ensures t.bits[i] == CL.Hist(size, 256)[i]
      {
        CL.ShorterStay(CL.Hist(size, 257), moves, full, i);
        PseudoApart(size, i);
      }
      SameUpto(t.bits, CL.Hist(size, 256), k);
      SameUpto(t.bits, CL.Hist(size, 256), k - 1);
      UptoMono(t.bits, k, 16);
      LenOfUnique(t.bits, p, k);
    }
  }
}
