// Emitting symbols and bits in the progressive encoder: in a statistics pass
// symbols are counted, otherwise they are written (emit_symbol, emit_bits and
// emit_buffered_bits of jcphuff.c).
module ProgEmitter {
  import opened Arith
  import opened Bits
  import opened Errors
  import opened Tokens
  import opened BitWriter
  import opened TokenWriter
  import opened ProgCodec
  import SeqGather

  // seg: the tokens of the open segment; all: those of the whole scan.
  class Emitter {
    const gather_statistics: bool
    const w: BitWriter
    const tables: CTables
    const isDC: bool
    const count_ptrs: seq<array<nat>>
    ghost var seg: seq<Token>
    ghost var all: seq<Token>

    function Ref(i: nat): TblRef {
      if isDC then DC(i) else AC(i)
    }

    ghost predicate Counting()
      reads this, count_ptrs
    {
      && |count_ptrs| == NUM_HUFF_TBLS
      && (forall i | 0 <= i < NUM_HUFF_TBLS :: count_ptrs[i].Length == 257)
      && (forall i, j | 0 <= i < j < NUM_HUFF_TBLS :: count_ptrs[i] != count_ptrs[j])
      && (gather_statistics ==> forall i | 0 <= i < NUM_HUFF_TBLS :: SeqGather.Counted(count_ptrs[i][..], all, Ref(i)))
    }

    ghost predicate Valid()
      reads this, w, count_ptrs
    {
      && SaneTables(tables) && Counting()
      && (gather_statistics || Sent(w, tables, [], seg))
    }

    // Whether the open segment can hold toks.
    ghost predicate CanEmit(toks: seq<Token>)
      reads w
    {
      gather_statistics || CanSend(SpaceOf(w), tables, [], toks)
    }

    constructor (gather: bool, w: BitWriter, tables: CTables, isDC: bool)
      requires SaneTables(tables) && w.Valid() && w.bits == []
      ensures Valid() && seg == [] && all == [] && this.w == w && this.gather_statistics == gather
      ensures this.tables == tables
      ensures this.isDC == isDC && fresh(count_ptrs)
    {
      var counts := SeqGather.ZeroedCounts();
      gather_statistics, this.w, this.tables, this.isDC, count_ptrs := gather, w, tables, isDC, counts;
      seg, all := [], [];
      new;
      NothingSent(w, tables);
    }

    // emit_symbol
    method EmitSymbol(tbl_no: nat, symbol: nat) returns (st: Status)
      requires Valid() && tbl_no < NUM_HUFF_TBLS && symbol < 256
      modifies this, w, count_ptrs
      ensures SpaceOf(w) == old(SpaceOf(w))
      ensures st.Done? <==> CanEmit(old(seg) + [Sym(Ref(tbl_no), symbol)])
      ensures st.Done? ==>
        Valid() && seg == old(seg) + [Sym(Ref(tbl_no), symbol)] && all == old(all) + [Sym(Ref(tbl_no), symbol)]
      ensures st.Failed? ==> st.error == HuffMissingCode
    {
      ghost var tok := Sym(Ref(tbl_no), symbol);
      if gather_statistics {
        ghost var before, a := all, count_ptrs[tbl_no][..];
        count_ptrs[tbl_no][symbol] := count_ptrs[tbl_no][symbol] + 1;
        assert count_ptrs[tbl_no][..] == a[symbol := a[symbol] + 1];
        seg, all := seg + [tok], all + [tok];
        forall i | 0 <= i < NUM_HUFF_TBLS
          ensures SeqGather.Counted(count_ptrs[i][..], before + [tok], Ref(i))
        {
          CountOne(if i == tbl_no then a else count_ptrs[i][..], before, tok, Ref(i));
        }
        st := Done;
      } else {
        st := SendSymbol(w, tables, Ref(tbl_no), symbol, [], seg);
        OutcomeMeans(w, tables, [], seg + [tok], true, st);
        seg, all := seg + [tok], all + [tok];
      }
    }

    // emit_bits
    method EmitBits(v: int, size: nat) returns (st: Status)
      requires Valid() && 0 < size <= 16
      modifies this, w
      ensures SpaceOf(w) == old(SpaceOf(w))
      ensures st.Done? <==> CanEmit(old(seg) + [Raw(v, size)])
      ensures st.Done? ==> Valid() && seg == old(seg) + [Raw(v, size)] && all == old(all) + [Raw(v, size)]
      ensures !st.Failed?
    {
      ghost var tok := Raw(v, size);
      if gather_statistics {
        forall i | 0 <= i < NUM_HUFF_TBLS
          ensures SeqGather.Counted(count_ptrs[i][..], all + [tok], Ref(i))
        {
          CountOne(count_ptrs[i][..], all, tok, Ref(i));
        }
        seg, all := seg + [tok], all + [tok];
        st := Done;
      } else {
        st := SendRaw(w, tables, v, size, [], seg);
        OutcomeMeans(w, tables, [], seg + [tok], true, st);
        seg, all := seg + [tok], all + [tok];
      }
    }

    // The end of a segment: its last byte is filled, and a restart marker follows.
    method EndSegment(restart_num: nat) returns (st: Status)
      requires Valid() && restart_num < 8
      modifies this, w
      ensures gather_statistics ==> st.Done? && Valid() && seg == [] && all == old(all) && SpaceOf(w) == old(SpaceOf(w))
      ensures !gather_statistics ==>
        var before := old(SpaceOf(w));
        var closed := before.closed + Flushed(TokensBits(tables, old(seg))) + [0xFF, 0xD0 + restart_num];
        && (st.Done? <==> (before.suspending ==> |closed| < before.room))
        && (st.Done? ==> Valid() && seg == [] && all == old(all))
        && (st.Done? ==> SpaceOf(w) == Space(before.suspending, before.room, closed))
        && (!st.Done? ==> st == Failed(CantSuspend))
    {
      ghost var bits, m := w.bits, [0xFF, 0xD0 + restart_num];
      if !gather_statistics {
        assert [] + TokensBits(tables, seg) == TokensBits(tables, seg);
        Assoc(w.closed, Flushed(w.bits), m);
        var ok := w.FlushBits();
        if ok {
          ok := w.EmitMarker(0xD0 + restart_num);
        }
        if !ok {
          return Failed(CantSuspend);
        }
        NothingSent(w, tables);
      }
      seg := [];
      st := Done;
    }

    // The end of the scan.
    method EndScan() returns (st: Status)
      requires Valid()
      modifies this, w
      ensures gather_statistics ==> st.Done? && Valid() && all == old(all)
      ensures !gather_statistics ==>
        var before := old(SpaceOf(w));
        var closed := before.closed + Flushed(TokensBits(tables, old(seg)));
        && (st.Done? <==> (before.suspending ==> |closed| < before.room))
        && (st.Done? ==> w.Valid() && w.output == closed && w.put_bits == 0 && all == old(all))
        && (!st.Done? ==> st == Failed(CantSuspend))
    {
      if !gather_statistics {
        assert [] + TokensBits(tables, seg) == TokensBits(tables, seg);
        var ok := w.FlushBits();
        if !ok {
          return Failed(CantSuspend);
        }
      }
      st := Done;
    }
  }

  lemma NothingSent(w: BitWriter, t: CTables)
    requires SaneTables(t) && w.Valid() && w.bits == []
    ensures Sent(w, t, [], [])
  {
  }

  // One more token in the counts.
  lemma CountOne(a: seq<nat>, toks: seq<Token>, tok: Token, ref: TblRef)
    requires SeqGather.Counted(a, toks, ref)
    ensures tok.Sym? && tok.tbl == ref && tok.s < 257 ==> SeqGather.Counted(a[tok.s := a[tok.s] + 1], toks + [tok], ref)
    ensures tok.Raw? || tok.tbl != ref ==> SeqGather.Counted(a, toks + [tok], ref)
  {
    forall s: nat | s < 257
      ensures Count(toks + [tok], ref, s) == Count(toks, ref, s) + if tok == Sym(ref, s) then 1 else 0
    {
      CountConcat(toks, [tok], ref, s);
      assert [tok][1..] == [];
    }
  }

  // ----- emitting one thing after the other -----

  // Since the tokens were s0 (of the segment) and a0 (of the scan), sent has been emitted.
  ghost predicate HasEmitted(em: Emitter, s0: seq<Token>, a0: seq<Token>, sent: seq<Token>)
    reads em, em.w, em.count_ptrs
  {
    em.Valid() && em.seg == s0 + sent && em.all == a0 + sent
  }

  // The outcome of emitting toks; inRange is false if a coefficient out of range is met.
  ghost predicate EmitOutcome(em: Emitter, s0: seq<Token>, a0: seq<Token>, toks: seq<Token>, inRange: bool, st: Status)
    reads em, em.w, em.count_ptrs
  {
    && (st.Done? <==> inRange && em.CanEmit(s0 + toks))
    && (st.Done? ==> HasEmitted(em, s0, a0, toks))
  }

  lemma EmitDone(em: Emitter, s0: seq<Token>, a0: seq<Token>, toks: seq<Token>, inRange: bool, st: Status)
    requires EmitOutcome(em, s0, a0, toks, inRange, st) && st.Done?
    ensures inRange && HasEmitted(em, s0, a0, toks)
  {
  }

  // What cannot be emitted cannot be emitted with more behind it.
  lemma EmitStop(em: Emitter, s0: seq<Token>, a0: seq<Token>, toks: seq<Token>, more: seq<Token>,
                 inRange: bool, allInRange: bool, st: Status)
    requires EmitOutcome(em, s0, a0, toks, inRange, st) && !st.Done? && (allInRange ==> inRange)
    ensures EmitOutcome(em, s0, a0, toks + more, allInRange, st)
  {
    if em.CanEmit(s0 + (toks + more)) && !em.gather_statistics {
      assert s0 + (toks + more) == s0 + toks + more;
      CanSendPrefix(SpaceOf(em.w), em.tables, [], s0 + toks, more);
    }
  }

  lemma EmitNothing(em: Emitter, s0: seq<Token>, a0: seq<Token>, toks: seq<Token>)
    requires HasEmitted(em, s0, a0, toks)
    ensures EmitOutcome(em, s0, a0, toks, true, Done)
  {
  }

  lemma EmitOutOfRange(em: Emitter, s0: seq<Token>, a0: seq<Token>, toks: seq<Token>, e: Error)
    ensures EmitOutcome(em, s0, a0, toks, false, Failed(e))
  {
  }

  method PutSymbol(em: Emitter, tbl_no: nat, symbol: nat, ghost s0: seq<Token>, ghost a0: seq<Token>,
                   ghost sent: seq<Token>)
    returns (st: Status)
    requires HasEmitted(em, s0, a0, sent) && tbl_no < NUM_HUFF_TBLS && symbol < 256
    modifies em, em.w, em.count_ptrs
    ensures SpaceOf(em.w) == old(SpaceOf(em.w))
    ensures EmitOutcome(em, s0, a0, sent + [Sym(em.Ref(tbl_no), symbol)], true, st)
    ensures st.Failed? ==> st.error == HuffMissingCode
  {
    hide Sent, CanSend, SpaceOf;
    Assoc(s0, sent, [Sym(em.Ref(tbl_no), symbol)]);
    Assoc(a0, sent, [Sym(em.Ref(tbl_no), symbol)]);
    st := em.EmitSymbol(tbl_no, symbol);
  }

  method PutRaw(em: Emitter, v: int, size: nat, ghost s0: seq<Token>, ghost a0: seq<Token>, ghost sent: seq<Token>)
    returns (st: Status)
    requires HasEmitted(em, s0, a0, sent) && 0 < size <= 16
    modifies em, em.w
    ensures SpaceOf(em.w) == old(SpaceOf(em.w))
    ensures EmitOutcome(em, s0, a0, sent + [Raw(v, size)], true, st)
    ensures !st.Failed?
  {
    hide Sent, CanSend, SpaceOf;
    Assoc(s0, sent, [Raw(v, size)]);
    Assoc(a0, sent, [Raw(v, size)]);
    st := em.EmitBits(v, size);
  }

  lemma RawBitsNext(s: Bits, i: nat)
    requires i < |s|
    ensures RawBits(s[..i + 1]) == RawBits(s[..i]) + [Raw(Bit(s[i]), 1)]
    ensures s[..i + 1] + s[i + 1..] == s && RawBits(s) == RawBits(s[..i + 1]) + RawBits(s[i + 1..])
  {
    RawBitsConcat(s[..i + 1], s[i + 1..]);
    assert s[..i + 1] + s[i + 1..] == s;
  }

  // emit_buffered_bits: n bits of the buffer, from start on.
  method EmitBufferedBits(em: Emitter, buffer: array<bool>, start: nat, n: nat, ghost s0: seq<Token>,
                          ghost a0: seq<Token>, ghost sent: seq<Token>)
    returns (st: Status)
    requires HasEmitted(em, s0, a0, sent) && start + n <= buffer.Length
    modifies em, em.w
    ensures SpaceOf(em.w) == old(SpaceOf(em.w))
    ensures EmitOutcome(em, s0, a0, sent + RawBits(buffer[start..start + n]), true, st)
    ensures !st.Failed?
  {
    hide HasEmitted, EmitOutcome, SpaceOf, RawBits;
    ghost var s := buffer[start..start + n];
    var bufstart, nbits := start, n;
    ghost var i := 0;
    NoRawBits(sent);
    assert s[..0] == [];
    while nbits > 0
      invariant bufstart == start + i && i + nbits == n && s == buffer[start..start + n]
      invariant HasEmitted(em, s0, a0, sent + RawBits(s[..i])) && SpaceOf(em.w) == old(SpaceOf(em.w))
    {
      RawBitsNext(s, i);
      Assoc(sent, RawBits(s[..i]), [Raw(Bit(s[i]), 1)]);
      Assoc(sent, RawBits(s[..i + 1]), RawBits(s[i + 1..]));
      st := PutRaw(em, Bit(buffer[bufstart]), 1, s0, a0, sent + RawBits(s[..i]));
      if !st.Done? {
        EmitStop(em, s0, a0, sent + RawBits(s[..i + 1]), RawBits(s[i + 1..]), true, true, st);
        return;
      }
      EmitDone(em, s0, a0, sent + RawBits(s[..i + 1]), true, st);
      bufstart := bufstart + 1;
      nbits := nbits - 1;
      i := i + 1;
    }
    assert s[..n] == s;
    EmitNothing(em, s0, a0, sent + RawBits(s));
    st := Done;
  }

  lemma NoRawBits(sent: seq<Token>)
    ensures RawBits([]) == [] && sent + RawBits([]) == sent
  {
  }
}
