// Decoding a band into a block in place, so that it can be tried again after a
// suspension (decode_mcu_AC_first and decode_mcu_AC_refine of jdphuff.c).
module ProgInPlace {
  import opened Arith
  import opened HuffTable
  import opened DerivedTables
  import opened BitSource
  import opened Blocks
  import opened SeqCodec
  import opened BitWriter
  import opened ByteStream
  import opened BitReader
  import opened ProgCodec
  import opened ProgRefine
  import SeqDecoder

  // ----- first pass -----

  // Every coefficient is as it was or as it will be.
  ghost predicate Between(a: Block, z: Block, f: Block) {
    |a| == |z| == |f| == DCTSIZE2 && forall j | 0 <= j < DCTSIZE2 :: a[j] == z[j] || a[j] == f[j]
  }

  lemma BetweenDone(a: Block, f: Block)
    requires Between(a, f, f)
    ensures a == f
  {
  }

  // What is not decoded yet is as it was.
  lemma BetweenStop(a: Block, cur: Block, z: Block, f: Block)
    requires Between(a, cur, f) && Between(cur, z, f)
    ensures Between(a, z, f)
  {
  }

  // Reading on does not change what lies before position k.
  lemma {:induction false} ReadFirstKeeps(src: Src, t: HuffTbl, z: Block, k: nat, b: Band, j: nat)
    requires WellTyped(t) && Legal(t.bits) && |z| == DCTSIZE2 && b.Se < DCTSIZE2 && j < k && j < DCTSIZE2
    ensures ReadFirst(src, t, z, k, b).block[j] == z[j]
    decreases DCTSIZE2 - k
  {
    hide SymbolAt, Received, Legal, WellTyped, Skip, Peek, Cast, Pow2;
    if k <= b.Se {
      var sym, src1 := Symbol(t, src), AfterSymbol(t, src);
      var r, s := sym / 16, sym % 16;
      if s != 0 {
        ReadFirstKeeps(Skip(src1, s), t, Put(z, k + r, Cast(Received(src1, s) * Pow2(b.Al))), k + r + 1, b, j);
      } else if r == 15 {
        ReadFirstKeeps(src1, t, z, k + 16, b, j);
      }
    }
  }

  lemma FirstStep(src: Src, t: HuffTbl, z: Block, k: nat, b: Band)
    requires WellTyped(t) && Legal(t.bits) && |z| == DCTSIZE2 && b.Se < DCTSIZE2 && k <= b.Se
    ensures var sym, src1 := Symbol(t, src), AfterSymbol(t, src);
            var r, s := sym / 16, sym % 16;
            && sym < 256
            && (s != 0 ==>
                 ReadFirst(src, t, z, k, b) == ReadFirst(Skip(src1, s), t,
                     Put(z, k + r, Cast(Received(src1, s) * Pow2(b.Al))), k + r + 1, b))
            && (s == 0 && r == 15 ==> ReadFirst(src, t, z, k, b) == ReadFirst(src1, t, z, k + 16, b))
            && (s == 0 && r != 15 ==>
                 ReadFirst(src, t, z, k, b) == BandRead(z, Pow2(r) + Peek(src1, r) - 1, Skip(src1, r)))
  {
    hide SymbolAt, Received, Legal, WellTyped, Skip, Peek, Cast, Pow2;
  }

  // Writing the coefficient just decoded.
  lemma WriteFirst(block: Block, cur: Block, z: Block, t: HuffTbl, src: Src, k: nat, b: Band, v: Coef, f: Block)
    requires WellTyped(t) && Legal(t.bits) && |block| == |cur| == DCTSIZE2 && b.Se < DCTSIZE2 && k < DCTSIZE2 + 16
    requires Between(Reorder(block), cur, f) && Between(cur, z, f)
    requires f == ReadFirst(src, t, Put(cur, k, v), k + 1, b).block
    ensures Between(Reorder(block[Natural(k) := v]), Put(cur, k, v), f) && Between(Put(cur, k, v), z, f)
  {
    hide ReadFirst, Reorder, Natural;
    var p := if k < DCTSIZE2 then k else DCTSIZE2 - 1;
    ReadFirstKeeps(src, t, Put(cur, k, v), k + 1, b, p);
    ReorderPut(block, k, v);
  }

  // The run length of an EOB symbol.
  method EobRun(br: BitReader, r: nat) returns (ok: bool, eobrun: nat)
    requires br.Valid() && br.Settled() && r <= 14
    modifies br, br.cinfo`unread_marker, br.cinfo`insufficient_data
    ensures old(br.cinfo.unread_marker) != 0 ==> br.cinfo.unread_marker != 0
    ensures br.Fetched(ok, old(br.Ending()))
    ensures ok ==> eobrun == Pow2(r) + Peek(old(br.Remaining()), r) && br.Remaining() == Skip(old(br.Remaining()), r)
  {
    hide *;
    SeqDecoder.FetchLimit();
    eobrun := Pow2(r);
    ok := true;
    if r != 0 {
      var more;
      ok, more := br.GetBits(r);
      eobrun := eobrun + more;
    } else {
      PeekNone(br.Remaining());
      br.FetchedOk(br.Ending());
    }
  }

  lemma PeekNone(src: Src)
    ensures Peek(src, 0) == 0 && Skip(src, 0) == src
  {
  }

  // decode_mcu_AC_first, outside of an EOB run.
  method DecodeAcFirst(br: BitReader, d: DDerived, block: array<Coef>, b: Band, ghost z: Block)
    returns (ok: bool, eobrun: nat)
    requires br.Valid() && br.Settled() && Decodes(d.pub, d) && WellTyped(d.pub) && Legal(d.pub.bits)
    requires block.Length == DCTSIZE2 && |z| == DCTSIZE2 && 1 <= b.Ss <= b.Se < DCTSIZE2
    requires Between(Reorder(block[..]), z, ReadFirst(br.Remaining(), d.pub, z, b.Ss, b).block)
    modifies br, br.cinfo`unread_marker, br.cinfo`insufficient_data, block
    ensures old(br.cinfo.unread_marker) != 0 ==> br.cinfo.unread_marker != 0
    ensures br.Fetched(ok, old(br.Ending()))
    ensures Between(Reorder(block[..]), z, ReadFirst(old(br.Remaining()), d.pub, z, b.Ss, b).block)
    ensures ok ==>
      BandRead(Reorder(block[..]), eobrun, br.Remaining()) == ReadFirst(old(br.Remaining()), d.pub, z, b.Ss, b)
  {
    hide *;
    Limits();
    ghost var end := br.Ending();
    ghost var final := ReadFirst(br.Remaining(), d.pub, z, b.Ss, b);
    ghost var cur := z;
    BetweenSelf(z, final.block);
    eobrun := 0;
    var k := b.Ss;
    while k <= b.Se
      invariant br.Valid() && br.Settled() && br.Ending() == end && |cur| == DCTSIZE2 && eobrun == 0 && k >= 1
      invariant old(br.cinfo.unread_marker) != 0 ==> br.cinfo.unread_marker != 0
      invariant ReadFirst(br.Remaining(), d.pub, cur, k, b) == final
      invariant Between(Reorder(block[..]), cur, final.block) && Between(cur, z, final.block)
      decreases b.Se + 1 - k
    {
      FirstStep(br.Remaining(), d.pub, cur, k, b);
      BetweenStop(Reorder(block[..]), cur, z, final.block);
      var sym := br.DecodeSymbol(d);
      br.FetchedParts(sym >= 0, end);
      if sym < 0 {
        return false, 0;
      }
      var r, s := sym / 16, sym % 16;
      if s != 0 {
        k := k + r;
        var value;
        ok, value := SeqDecoder.ReceiveValue(br, s);
        br.FetchedParts(ok, end);
        if !ok {
          return;
        }
        var coef := Cast(value * Pow2(b.Al));
        WriteFirst(block[..], cur, z, d.pub, br.Remaining(), k, b, coef, final.block);
        ghost var was := block[..];
        block[Natural(k)] := coef;
        assert block[..] == was[Natural(k) := coef];
        cur := Put(cur, k, coef);
      } else if r == 15 {
        k := k + 15;
      } else {
        ok, eobrun := EobRun(br, r);
        br.FetchedParts(ok, end);
        if !ok {
          return;
        }
        eobrun := eobrun - 1;
        BetweenDone(Reorder(block[..]), final.block);
        return;
      }
      k := k + 1;
    }
    FirstStop(br.Remaining(), d.pub, cur, k, b);
    BetweenDone(Reorder(block[..]), final.block);
    br.FetchedOk(end);
    ok := true;
  }

  lemma BetweenSelf(z: Block, f: Block)
    requires |z| == |f| == DCTSIZE2
    ensures Between(z, z, f)
  {
  }

  lemma FirstStop(src: Src, t: HuffTbl, z: Block, k: nat, b: Band)
    requires WellTyped(t) && Legal(t.bits) && |z| == DCTSIZE2 && b.Se < DCTSIZE2 && k > b.Se
    ensures ReadFirst(src, t, z, k, b) == BandRead(z, 0, src)
  {
  }

  // ----- refinement -----

  // (x)(v) >> al is the same up to whole turns of the coefficient's word.
  lemma CastParity(x: int, p: int, e: int)
    requires p > 0 && 0x1_0000 == 2 * e * p
    ensures Cast(x) / p % 2 == x / p % 2
  {
    hide *;
    var m := CastTurns(x);
    var q, r := FloorParts(x, p);
    var t := m * e;
    Regroup(m, e, p);
    Turns(q, t, p);
    FloorIs(Cast(x), p, q - 2 * t, r);
    ParityTurns(q, t);
  }

  lemma ParityTurns(q: int, t: int)
    ensures (q - 2 * t) % 2 == q % 2
  {
  }

  lemma FloorParts(x: int, p: int) returns (q: int, r: int)
    requires p > 0
    ensures q == x / p && x == q * p + r && 0 <= r < p
  {
    q, r := x / p, x % p;
  }

  lemma CastTurns(x: int) returns (m: int)
    ensures Cast(x) == x - m * 0x1_0000
  {
    m := (x + 0x8000) / 0x1_0000;
  }

  lemma Regroup(m: int, e: int, p: int)
    ensures m * (2 * e * p) == 2 * (m * e) * p
  {
  }

  lemma Turns(q: int, t: int, p: int)
    ensures (q - 2 * t) * p == q * p - 2 * t * p
  {
  }

  lemma FloorIs(v: int, d: int, q: int, r: int)
    requires d > 0 && v == q * d + r && 0 <= r < d
    ensures v / d == q
  {
    var q', r' := v / d, v % d;
    assert v == q' * d + r';
    if q' < q {
      MulMono(q' + 1, q, d);
    } else if q < q' {
      MulMono(q + 1, q', d);
    }
  }

  lemma NextQuotient(x: int, p: int)
    requires p > 0
    ensures (x + p) / p == x / p + 1 && (x - p) / p == x / p - 1
  {
    var q, r := x / p, x % p;
    assert x == q * p + r;
    FloorIs(x + p, p, q + 1, r);
    FloorIs(x - p, p, q - 1, r);
  }

  // Once the bit is set it stays set: repeating a correction changes nothing,
  // and a corrected coefficient is not taken for a zero one.
  lemma CorrectAgain(v: Coef, al: nat)
    requires al <= 13 && v != 0
    ensures Correct(v, true, al) != 0 && Correct(Correct(v, true, al), true, al) == Correct(v, true, al)
    ensures Correct(v, false, al) == v
  {
    hide *;
    var p := Pow2(al);
    Pow2Positive(al);
    Pow2Add(15 - al, al);
    Pow2Of15();
    var x := if v >= 0 then v + p else v - p;
    CorrectIs(v, true, al);
    CorrectIs(v, false, al);
    NextQuotient(v, p);
    CastParity(x, p, Pow2(15 - al));
    CorrectIs(Correct(v, true, al), true, al);
    ZeroQuotient(p);
  }

  lemma ZeroQuotient(p: int)
    requires p > 0
    ensures 0 / p == 0
  {
    FloorIs(0, p, 0, 0);
  }

  // Between attempts, every coefficient is as it was, or, if it was not zero, has its correction already.
  ghost predicate Redo(a: Block, z: Block, f: Block, al: nat) {
    && |a| == |z| == |f| == DCTSIZE2
    && forall j | 0 <= j < DCTSIZE2 :: a[j] == z[j] || (z[j] != 0 && a[j] == f[j] == Correct(z[j], true, al))
  }

  // In the course of an attempt that has got as far as cur.
  ghost predicate Going(a: Block, cur: Block, z: Block, f: Block, al: nat) {
    && |a| == |cur| == |z| == |f| == DCTSIZE2
    && forall j | 0 <= j < DCTSIZE2 :: a[j] == cur[j] || (z[j] != 0 && a[j] == f[j] == Correct(z[j], true, al))
  }

  // What the attempt has changed below position k; newnz lists the positions it has made nonzero.
  ghost predicate Changed(cur: Block, z: Block, k: nat, al: nat, newnz: seq<nat>) {
    && |cur| == |z| == DCTSIZE2
    && (forall j | k <= j < DCTSIZE2 :: cur[j] == z[j])
    && (forall j | 0 <= j < DCTSIZE2 && z[j] != 0 :: cur[j] == z[j] || cur[j] == Correct(z[j], true, al))
    && (forall j | 0 <= j < DCTSIZE2 && z[j] == 0 && cur[j] != 0 :: j in newnz)
    && (forall i | 0 <= i < |newnz| :: newnz[i] < k && newnz[i] < DCTSIZE2 && z[newnz[i]] == 0)
  }

  // All below position k is final.
  ghost predicate Settled(cur: Block, f: Block, k: nat) {
    |cur| == |f| == DCTSIZE2 && forall j | 0 <= j < k && j < DCTSIZE2 :: f[j] == cur[j]
  }

  // Zeroing the new coefficients leads back to where it can be tried again.
  ghost predicate CanUndo(a: Block, z: Block, f: Block, al: nat, newnz: seq<nat>) {
    && |a| == |z| == |f| == DCTSIZE2 && (forall i | 0 <= i < |newnz| :: newnz[i] < DCTSIZE2 && z[newnz[i]] == 0)
    && forall j | 0 <= j < DCTSIZE2 && j !in newnz ::
      a[j] == z[j] || (z[j] != 0 && a[j] == f[j] == Correct(z[j], true, al))
  }

  lemma UndoReady(a: Block, cur: Block, z: Block, f: Block, k: nat, al: nat, newnz: seq<nat>)
    requires Going(a, cur, z, f, al) && Changed(cur, z, k, al, newnz) && Settled(cur, f, k)
    ensures CanUndo(a, z, f, al, newnz)
  {
    hide Correct;
  }

  lemma RedoStart(a: Block, z: Block, f: Block, k: nat, al: nat)
    requires Redo(a, z, f, al)
    ensures Going(a, z, z, f, al) && Changed(z, z, k, al, [])
  {
    hide Correct;
  }

  // The coefficient at hand is zero exactly if it was zero.
  lemma AtHand(block: Block, cur: Block, z: Block, f: Block, k: nat, al: nat, newnz: seq<nat>)
    requires |block| == DCTSIZE2 && k < DCTSIZE2 && al <= 13
    requires Going(Reorder(block), cur, z, f, al) && Changed(cur, z, k, al, newnz)
    ensures cur[k] == z[k] && block[Natural(k)] == Reorder(block)[k]
    ensures block[Natural(k)] != 0 <==> cur[k] != 0
  {
    hide Correct, Natural;
    if z[k] != 0 {
      CorrectAgain(z[k], al);
    }
  }

  // A correction bit is applied to the coefficient in place.
  lemma Corrected(block: Block, cur: Block, z: Block, f: Block, k: nat, al: nat, newnz: seq<nat>, bit: bool)
    requires |block| == DCTSIZE2 && k < DCTSIZE2 && al <= 13 && |cur| == DCTSIZE2 && cur[k] != 0
    requires Going(Reorder(block), cur, z, f, al) && Changed(cur, z, k, al, newnz)
    ensures var w, cur' := Correct(block[Natural(k)], bit, al), cur[k := Correct(cur[k], bit, al)];
            Going(Reorder(block[Natural(k) := w]), cur', z, f, al) && Changed(cur', z, k + 1, al, newnz)
  {
    hide Correct, Natural, Reorder;
    AtHand(block, cur, z, f, k, al, newnz);
    CorrectAgain(cur[k], al);
    ReorderPut(block, k, Correct(block[Natural(k)], bit, al));
    if bit {
      CorrectAgain(block[Natural(k)], al);
    } else {
      CorrectAgain(block[Natural(k)], al);
    }
  }

  // A zero coefficient is passed over.
  lemma Passed(cur: Block, z: Block, k: nat, al: nat, newnz: seq<nat>)
    requires Changed(cur, z, k, al, newnz)
    ensures Changed(cur, z, k + 1, al, newnz)
  {
    hide Correct;
  }

  // The coefficient at k, if it is not zero, gets its correction bit.
  method CorrectHere(br: BitReader, block: array<Coef>, k: nat, Al: nat, ghost cur: Block, ghost z: Block,
                     ghost f: Block, ghost newnz: seq<nat>)
    returns (ok: bool)
    requires br.Valid() && br.Settled() && block.Length == DCTSIZE2 && k < DCTSIZE2 && Al <= 13 && |cur| == DCTSIZE2
    requires cur[k] != 0
    requires Going(Reorder(block[..]), cur, z, f, Al) && Changed(cur, z, k, Al, newnz)
    modifies br, br.cinfo`unread_marker, br.cinfo`insufficient_data, block
    ensures old(br.cinfo.unread_marker) != 0 ==> br.cinfo.unread_marker != 0
    ensures br.Fetched(ok, old(br.Ending()))
    ensures !ok ==> block[..] == old(block[..])
    ensures ok ==>
      var bit := Peek(old(br.Remaining()), 1) == 1;
      var cur' := cur[k := Correct(cur[k], bit, Al)];
      && Going(Reorder(block[..]), cur', z, f, Al) && Changed(cur', z, k + 1, Al, newnz)
      && br.Remaining() == Skip(old(br.Remaining()), 1)
  {
    hide *;
    SeqDecoder.FetchLimit();
    Limits();
    var bit;
    ok, bit := br.GetBits(1);
    if !ok {
      return;
    }
    Corrected(block[..], cur, z, f, k, Al, newnz, bit == 1);
    var v: Coef := block[Natural(k)];
    ghost var was := block[..];
    CorrectIs(v, bit == 1, Al);
    Pow2Positive(Al);
    assert was[Natural(k) := v] == was;
    if bit == 1 {
      if v / Pow2(Al) % 2 == 0 {
        block[Natural(k)] := Cast(if v >= 0 then v + Pow2(Al) else v - Pow2(Al));
      }
    }
    assert block[..] == was[Natural(k) := Correct(v, bit == 1, Al)];
  }

  lemma {:induction false} AdvanceKeeps(src: Src, z: Block, k: nat, r: nat, b: Band, j: nat)
    requires |z| == DCTSIZE2 && k <= b.Se < DCTSIZE2 && j < k
    ensures Advance(src, z, k, r, b).block[j] == z[j]
    decreases b.Se - k
  {
    hide Peek, Skip, Correct;
    if z[k] != 0 {
      if k < b.Se {
        AdvanceKeeps(Skip(src, 1), z[k := Correct(z[k], Peek(src, 1) == 1, b.Al)], k + 1, r, b, j);
      }
    } else if r > 0 && k < b.Se {
      AdvanceKeeps(src, z, k + 1, r - 1, b, j);
    }
  }

  lemma {:induction false} CorrectRestKeeps(src: Src, z: Block, k: nat, b: Band, j: nat)
    requires |z| == DCTSIZE2 && b.Se < DCTSIZE2 && j < k && j < DCTSIZE2
    ensures CorrectRest(src, z, k, b).0[j] == z[j]
    decreases b.Se + 1 - k
  {
    hide Peek, Skip, Correct;
    if k <= b.Se {
      if z[k] != 0 {
        CorrectRestKeeps(Skip(src, 1), z[k := Correct(z[k], Peek(src, 1) == 1, b.Al)], k + 1, b, j);
      } else {
        CorrectRestKeeps(src, z, k + 1, b, j);
      }
    }
  }

  lemma {:induction false} ReadRefineKeeps(src: Src, t: HuffTbl, z: Block, k: nat, b: Band, j: nat)
    requires WellTyped(t) && Legal(t.bits) && |z| == DCTSIZE2 && b.Se < DCTSIZE2 && b.Al <= 13 && j < k && j < DCTSIZE2
    ensures ReadRefine(src, t, z, k, b).block[j] == z[j]
    decreases DCTSIZE2 - k
  {
    hide Symbol, AfterSymbol, Legal, WellTyped, Skip, Peek, Pow2, Advance, CorrectRest, NewValue;
    if k <= b.Se {
      var sym, src1 := Symbol(t, src), AfterSymbol(t, src);
      var r, s := sym / 16, sym % 16;
      if s != 0 {
        var e := Advance(Skip(src1, 1), z, k, r, b);
        AdvanceKeeps(Skip(src1, 1), z, k, r, b, j);
        ReadRefineKeeps(e.src, t, Put(e.block, e.k, NewValue(src1, b.Al)), e.k + 1, b, j);
      } else if r == 15 {
        var e := Advance(src1, z, k, 15, b);
        AdvanceKeeps(src1, z, k, 15, b, j);
        ReadRefineKeeps(e.src, t, e.block, e.k + 1, b, j);
      } else {
        CorrectRestKeeps(Skip(src1, r), z, k, b, j);
      }
    }
  }

  // f will be what the target of a search says, as far as the search goes.
  ghost predicate Foretold(f: Block, target: Stop) {
    |f| == |target.block| == DCTSIZE2 && forall j | 0 <= j < target.k && j < DCTSIZE2 - 1 :: f[j] == target.block[j]
  }

  lemma ForetoldSettles(f: Block, src: Src, cur: Block, k: nat, r: nat, b: Band)
    requires |cur| == DCTSIZE2 && k <= b.Se < DCTSIZE2 && Foretold(f, Advance(src, cur, k, r, b))
    ensures Settled(cur, f, k)
  {
    hide Advance;
    forall j: nat | j < k && j < DCTSIZE2
      ensures f[j] == cur[j]
    {
      AdvanceKeeps(src, cur, k, r, b, j);
    }
  }

  lemma AdvanceStep(src: Src, z: Block, k: nat, r: nat, b: Band)
    requires |z| == DCTSIZE2 && k <= b.Se < DCTSIZE2
    ensures var z1, src1 := z[k := Correct(z[k], Peek(src, 1) == 1, b.Al)], Skip(src, 1);
            && (z[k] != 0 && k < b.Se ==> Advance(src, z, k, r, b) == Advance(src1, z1, k + 1, r, b))
            && (z[k] != 0 && k == b.Se ==> Advance(src, z, k, r, b) == Stop(z1, src1, k + 1))
            && (z[k] == 0 && r == 0 ==> Advance(src, z, k, r, b) == Stop(z, src, k))
            && (z[k] == 0 && r > 0 && k < b.Se ==> Advance(src, z, k, r, b) == Advance(src, z, k + 1, r - 1, b))
            && (z[k] == 0 && r > 0 && k == b.Se ==> Advance(src, z, k, r, b) == Stop(z, src, k + 1))
  {
    hide Peek, Skip, Correct;
  }

  // Advances over the nonzero coefficients and r0 zeros.
  method AdvanceOver(br: BitReader, block: array<Coef>, k0: nat, r0: nat, b: Band, ghost cur0: Block, ghost z: Block,
                     ghost f: Block,
                     ghost newnz: seq<nat>)
    returns (ok: bool, k: nat)
    requires br.Valid() && br.Settled() && block.Length == DCTSIZE2 && k0 <= b.Se < DCTSIZE2 && b.Al <= 13
    requires |cur0| == DCTSIZE2
    requires Going(Reorder(block[..]), cur0, z, f, b.Al) && Changed(cur0, z, k0, b.Al, newnz)
    requires Foretold(f, Advance(br.Remaining(), cur0, k0, r0, b))
    modifies br, br.cinfo`unread_marker, br.cinfo`insufficient_data, block
    ensures old(br.cinfo.unread_marker) != 0 ==> br.cinfo.unread_marker != 0
    ensures br.Fetched(ok, old(br.Ending()))
    ensures !ok ==> CanUndo(Reorder(block[..]), z, f, b.Al, newnz)
    ensures ok ==>
      var target := Advance(old(br.Remaining()), cur0, k0, r0, b);
      && k == target.k && br.Remaining() == target.src
      && Going(Reorder(block[..]), target.block, z, f, b.Al) && Changed(target.block, z, k, b.Al, newnz)
  {
    hide *;
    Limits();
    ghost var end, target := br.Ending(), Advance(br.Remaining(), cur0, k0, r0, b);
    ghost var cur: Block := cur0;
    k := k0;
    var r: int, stop := r0, false;
    while !stop
      invariant br.Valid() && br.Settled() && br.Ending() == end && |cur| == DCTSIZE2
      invariant old(br.cinfo.unread_marker) != 0 ==> br.cinfo.unread_marker != 0
      invariant k <= b.Se + 1 && (!stop ==> k <= b.Se && r >= 0)
      invariant if stop then target == Stop(cur, br.Remaining(), k) else target == Advance(br.Remaining(), cur, k, r, b)
      invariant Going(Reorder(block[..]), cur, z, f, b.Al) && Changed(cur, z, k, b.Al, newnz)
      decreases !stop, b.Se + 1 - k
    {
      ghost var src := br.Remaining();
      AtHand(block[..], cur, z, f, k, b.Al, newnz);
      AdvanceStep(src, cur, k, r, b);
      if block[Natural(k)] != 0 {
        ForetoldSettles(f, src, cur, k, r, b);
        ok := CorrectHere(br, block, k, b.Al, cur, z, f, newnz);
        br.FetchedParts(ok, end);
        if !ok {
          UndoReady(Reorder(block[..]), cur, z, f, k, b.Al, newnz);
          return;
        }
        cur := cur[k := Correct(cur[k], Peek(src, 1) == 1, b.Al)];
      } else {
        r := r - 1;
        if r < 0 {
          stop := true;
        } else {
          Passed(cur, z, k, b.Al, newnz);
        }
      }
      if !stop {
        k := k + 1;
        stop := k > b.Se;
      }
    }
    br.FetchedOk(end);
    ok := true;
  }

  lemma RestStep(src: Src, z: Block, k: nat, b: Band)
    requires |z| == DCTSIZE2 && b.Se < DCTSIZE2
    ensures k > b.Se ==> CorrectRest(src, z, k, b) == (z, src)
    ensures k <= b.Se && z[k] == 0 ==> CorrectRest(src, z, k, b) == CorrectRest(src, z, k + 1, b)
    ensures k <= b.Se && z[k] != 0 ==>
      CorrectRest(src, z, k, b) == CorrectRest(Skip(src, 1), z[k := Correct(z[k], Peek(src, 1) == 1, b.Al)], k + 1, b)
  {
    hide Peek, Skip, Correct;
  }

  lemma RestSettles(f: Block, src: Src, cur: Block, k: nat, b: Band)
    requires |cur| == DCTSIZE2 && b.Se < DCTSIZE2 && f == CorrectRest(src, cur, k, b).0
    ensures Settled(cur, f, k)
  {
    hide CorrectRest;
    forall j: nat | j < k && j < DCTSIZE2
      ensures f[j] == cur[j]
    {
      CorrectRestKeeps(src, cur, k, b, j);
    }
  }

  // All that is left of the band gets its correction bits.
  method CorrectRemaining(br: BitReader, block: array<Coef>, k0: nat, b: Band, ghost cur0: Block, ghost z: Block,
                          ghost f: Block,
                          ghost newnz: seq<nat>)
    returns (ok: bool)
    requires br.Valid() && br.Settled() && block.Length == DCTSIZE2 && b.Se < DCTSIZE2 && b.Al <= 13
    requires |cur0| == DCTSIZE2
    requires Going(Reorder(block[..]), cur0, z, f, b.Al) && Changed(cur0, z, k0, b.Al, newnz)
    requires f == CorrectRest(br.Remaining(), cur0, k0, b).0
    modifies br, br.cinfo`unread_marker, br.cinfo`insufficient_data, block
    ensures old(br.cinfo.unread_marker) != 0 ==> br.cinfo.unread_marker != 0
    ensures br.Fetched(ok, old(br.Ending()))
    ensures !ok ==> CanUndo(Reorder(block[..]), z, f, b.Al, newnz)
    ensures ok ==> Reorder(block[..]) == f && br.Remaining() == CorrectRest(old(br.Remaining()), cur0, k0, b).1
  {
    hide *;
    Limits();
    ghost var end, target := br.Ending(), CorrectRest(br.Remaining(), cur0, k0, b);
    ghost var cur: Block := cur0;
    var k := k0;
    while k <= b.Se
      invariant br.Valid() && br.Settled() && br.Ending() == end && |cur| == DCTSIZE2
      invariant old(br.cinfo.unread_marker) != 0 ==> br.cinfo.unread_marker != 0
      invariant target == CorrectRest(br.Remaining(), cur, k, b)
      invariant Going(Reorder(block[..]), cur, z, f, b.Al) && Changed(cur, z, k, b.Al, newnz)
      decreases b.Se + 1 - k
    {
      ghost var src := br.Remaining();
      AtHand(block[..], cur, z, f, k, b.Al, newnz);
      RestStep(src, cur, k, b);
      if block[Natural(k)] != 0 {
        RestSettles(f, src, cur, k, b);
        ok := CorrectHere(br, block, k, b.Al, cur, z, f, newnz);
        br.FetchedParts(ok, end);
        if !ok {
          UndoReady(Reorder(block[..]), cur, z, f, k, b.Al, newnz);
          return;
        }
        cur := cur[k := Correct(cur[k], Peek(src, 1) == 1, b.Al)];
      } else {
        Passed(cur, z, k, b.Al, newnz);
      }
      k := k + 1;
    }
    RestStep(br.Remaining(), cur, k, b);
    GoingDone(Reorder(block[..]), z, f, b.Al);
    br.FetchedOk(end);
    ok := true;
  }

  lemma GoingDone(a: Block, z: Block, f: Block, al: nat)
    requires Going(a, f, z, f, al)
    ensures a == f
  {
  }

  lemma RefineStep(src: Src, t: HuffTbl, z: Block, k: nat, b: Band)
    requires WellTyped(t) && Legal(t.bits) && |z| == DCTSIZE2 && b.Se < DCTSIZE2 && b.Al <= 13 && k <= b.Se
    ensures var sym, src1 := Symbol(t, src), AfterSymbol(t, src);
            var r, s := sym / 16, sym % 16;
            && sym < 256
            && (s != 0 ==>
                 var e := Advance(Skip(src1, 1), z, k, r, b);
                 ReadRefine(src, t, z, k, b)
                     == ReadRefine(e.src, t, Put(e.block, e.k, NewValue(src1, b.Al)), e.k + 1, b))
            && (s == 0 && r == 15 ==>
                 var e := Advance(src1, z, k, 15, b);
                 ReadRefine(src, t, z, k, b) == ReadRefine(e.src, t, e.block, e.k + 1, b))
            && (s == 0 && r != 15 ==>
                 var e := CorrectRest(Skip(src1, r), z, k, b);
                 ReadRefine(src, t, z, k, b) == BandRead(e.0, Pow2(r) + Peek(src1, r) - 1, e.1))
  {
    hide Symbol, AfterSymbol, Legal, WellTyped, Skip, Peek, Pow2, Advance, CorrectRest, NewValue;
  }

  lemma RefineStop(src: Src, t: HuffTbl, z: Block, k: nat, b: Band)
    requires WellTyped(t) && Legal(t.bits) && |z| == DCTSIZE2 && b.Se < DCTSIZE2 && b.Al <= 13 && k > b.Se
    ensures ReadRefine(src, t, z, k, b) == BandRead(z, 0, src)
  {
  }

  lemma RefineSettles(f: Block, src: Src, t: HuffTbl, cur: Block, k: nat, b: Band)
    requires WellTyped(t) && Legal(t.bits) && |cur| == DCTSIZE2 && b.Se < DCTSIZE2 && b.Al <= 13
    requires f == ReadRefine(src, t, cur, k, b).block
    ensures Settled(cur, f, k)
  {
    hide ReadRefine;
    forall j: nat | j < k && j < DCTSIZE2
      ensures f[j] == cur[j]
    {
      ReadRefineKeeps(src, t, cur, k, b, j);
    }
  }

  lemma Foretells(f: Block, t: HuffTbl, e: Stop, next: Block, b: Band, newly: bool, v: Coef)
    requires WellTyped(t) && Legal(t.bits) && |e.block| == |next| == DCTSIZE2 && b.Se < DCTSIZE2 && b.Al <= 13
    requires f == ReadRefine(e.src, t, next, e.k + 1, b).block
    requires newly ==> next == Put(e.block, e.k, v)
    requires !newly ==> next == e.block
    ensures Foretold(f, e)
  {
    hide ReadRefine;
    forall j: nat | j < e.k && j < DCTSIZE2 - 1
      ensures f[j] == e.block[j]
    {
      ReadRefineKeeps(e.src, t, next, e.k + 1, b, j);
    }
  }

  // The search stops at a zero, or behind the band.
  lemma {:induction false} AdvanceStops(src: Src, z: Block, k: nat, r: nat, b: Band)
    requires |z| == DCTSIZE2 && k <= b.Se < DCTSIZE2
    ensures var e := Advance(src, z, k, r, b); e.k <= b.Se ==> e.block[e.k] == 0
    decreases b.Se - k
  {
    hide Peek, Skip, Correct;
    if z[k] != 0 {
      if k < b.Se {
        AdvanceStops(Skip(src, 1), z[k := Correct(z[k], Peek(src, 1) == 1, b.Al)], k + 1, r, b);
      }
    } else if r > 0 && k < b.Se {
      AdvanceStops(src, z, k + 1, r - 1, b);
    }
  }

  // A new coefficient is written.
  lemma WroteNew(block: Block, cur: Block, z: Block, f: Block, k: nat, b: Band, newnz: seq<nat>, v: Coef)
    requires |block| == |cur| == DCTSIZE2 && k <= b.Se + 1 <= DCTSIZE2 && Going(Reorder(block), cur, z, f, b.Al)
    requires Changed(cur, z, k, b.Al, newnz) && (k <= b.Se ==> cur[k] == 0)
    ensures Going(Reorder(block[Natural(k) := v]), Put(cur, k, v), z, f, b.Al)
    ensures k <= b.Se ==> Changed(Put(cur, k, v), z, k + 1, b.Al, newnz + [k])
  {
    hide Correct, Natural, Reorder;
    ReorderPut(block, k, v);
    if k <= b.Se {
      var more, cur' := newnz + [k], Put(cur, k, v);
      assert more[|newnz|] == k;
      forall j | 0 <= j < DCTSIZE2 && z[j] == 0 && cur'[j] != 0
        ensures j in more
      {
        if j != k {
          assert j in newnz;
        }
      }
    }
  }

  // newnz_pos: the natural-order places of the positions in newnz.
  ghost predicate Listed(pos: seq<nat>, newnz: seq<nat>) {
    |pos| == |newnz| && forall i | 0 <= i < |pos| :: newnz[i] < DCTSIZE2 && pos[i] == Natural(newnz[i])
  }

  lemma ListedMore(pos: seq<nat>, newnz: seq<nat>, k: nat)
    requires Listed(pos, newnz) && k < DCTSIZE2
    ensures Listed(pos + [Natural(k)], newnz + [k])
  {
    hide Natural;
  }

  // The new value of a coefficient.
  method NewCoef(br: BitReader, b: Band) returns (ok: bool, v: Coef)
    requires br.Valid() && br.Settled() && b.Al <= 13
    modifies br, br.cinfo`unread_marker, br.cinfo`insufficient_data
    ensures old(br.cinfo.unread_marker) != 0 ==> br.cinfo.unread_marker != 0
    ensures br.Fetched(ok, old(br.Ending()))
    ensures ok ==> v == NewValue(old(br.Remaining()), b.Al) && br.Remaining() == Skip(old(br.Remaining()), 1)
  {
    hide *;
    SeqDecoder.FetchLimit();
    NewValueIs(br.Remaining(), b.Al);
    var bit;
    ok, bit := br.GetBits(1);
    v := if bit == 1 then Pow2(b.Al) else 0 - Pow2(b.Al);
  }

  lemma NewValueIs(src: Src, al: nat)
    requires al <= 13
    ensures 0 < Pow2(al) <= 0x2000 && NewValue(src, al) == if Peek(src, 1) == 1 then Pow2(al) else 0 - Pow2(al)
  {
    Pow2At13(al);
  }

  // A new coefficient is written, and its place remembered.
  method WriteNew(block: array<Coef>, k: nat, b: Band, v: Coef, newnz_pos: array<nat>, num_newnz: nat,
                  ghost cur: Block, ghost z: Block, ghost f: Block, ghost newnz: seq<nat>)
    requires block.Length == newnz_pos.Length == DCTSIZE2 && |cur| == DCTSIZE2 && k <= b.Se + 1 <= DCTSIZE2
    requires num_newnz < DCTSIZE2
    requires Going(Reorder(block[..]), cur, z, f, b.Al) && Changed(cur, z, k, b.Al, newnz)
    requires (k <= b.Se ==> cur[k] == 0)
    requires Listed(newnz_pos[..num_newnz], newnz)
    modifies block, newnz_pos
    ensures Going(Reorder(block[..]), Put(cur, k, v), z, f, b.Al)
    ensures k <= b.Se ==> Changed(Put(cur, k, v), z, k + 1, b.Al, newnz + [ListIndex(k)])
    ensures Listed(newnz_pos[..num_newnz + 1], newnz + [ListIndex(k)])
  {
    hide *;
    Limits();
    WroteNew(block[..], cur, z, f, k, b, newnz, v);
    ghost var was := block[..];
    block[Natural(k)] := v;
    assert block[..] == was[Natural(k) := v];
    ghost var pos := newnz_pos[..num_newnz];
    newnz_pos[num_newnz] := Natural(k);
    assert newnz_pos[..num_newnz + 1] == pos + [Natural(k)];
    ListedMore(pos, newnz, ListIndex(k));
  }

  // The loop over the symbols of a band; what it has made nonzero is listed in
  // newnz_pos.
  method RefineBody(br: BitReader, d: DDerived, block: array<Coef>, b: Band, newnz_pos: array<nat>, ghost z: Block)
    returns (ok: bool, eobrun: nat, num_newnz: nat, ghost newnz: seq<nat>)
    requires br.Valid() && br.Settled() && Decodes(d.pub, d) && WellTyped(d.pub) && Legal(d.pub.bits)
    requires block.Length == newnz_pos.Length == DCTSIZE2 && |z| == DCTSIZE2 && ValidAc(b) && b.Al <= 13
    requires Redo(Reorder(block[..]), z, ReadRefine(br.Remaining(), d.pub, z, b.Ss, b).block, b.Al)
    modifies br, br.cinfo`unread_marker, br.cinfo`insufficient_data, block, newnz_pos
    ensures old(br.cinfo.unread_marker) != 0 ==> br.cinfo.unread_marker != 0
    ensures br.Fetched(ok, old(br.Ending())) && num_newnz <= DCTSIZE2
    ensures Listed(newnz_pos[..num_newnz], newnz)
    ensures !ok ==>
      CanUndo(Reorder(block[..]), z, ReadRefine(old(br.Remaining()), d.pub, z, b.Ss, b).block, b.Al, newnz)
    ensures ok ==>
      BandRead(Reorder(block[..]), eobrun, br.Remaining()) == ReadRefine(old(br.Remaining()), d.pub, z, b.Ss, b)
  {
    hide *;
    Limits();
    BandBounds(b);
    ghost var end, final := br.Ending(), ReadRefine(br.Remaining(), d.pub, z, b.Ss, b);
    ghost var cur: Block, f: Block := z, final.block;
    num_newnz, newnz, eobrun := 0, [], 0;
    RedoStart(Reorder(block[..]), z, f, b.Ss, b.Al);
    NoneListed(newnz_pos);
    var k := b.Ss;
    while k <= b.Se
      invariant br.Valid() && br.Settled() && br.Ending() == end && |cur| == DCTSIZE2 && eobrun == 0
      invariant old(br.cinfo.unread_marker) != 0 ==> br.cinfo.unread_marker != 0
      invariant ReadRefine(br.Remaining(), d.pub, cur, k, b) == final
      invariant Going(Reorder(block[..]), cur, z, f, b.Al) && (k <= b.Se ==> Changed(cur, z, k, b.Al, newnz))
      invariant num_newnz < k && num_newnz <= DCTSIZE2 && Listed(newnz_pos[..num_newnz], newnz)
      decreases b.Se + 1 - k
    {
      ghost var src := br.Remaining();
      RefineStep(src, d.pub, cur, k, b);
      RefineSettles(f, src, d.pub, cur, k, b);
      UndoReady(Reorder(block[..]), cur, z, f, k, b.Al, newnz);
      var sym := br.DecodeSymbol(d);
      br.FetchedParts(sym >= 0, end);
      if sym < 0 {
        return false, 0, num_newnz, newnz;
      }
      var r, s := sym / 16, sym % 16;
      if s == 0 && r != 15 {
        ok, eobrun := EobRun(br, r);
        br.FetchedParts(ok, end);
        if ok {
          ok := CorrectRemaining(br, block, k, b, cur, z, f, newnz);
          br.FetchedParts(ok, end);
          eobrun := eobrun - 1;
        }
        return;
      }
      var v: Coef := 0;
      if s != 0 {
        ok, v := NewCoef(br, b);
        br.FetchedParts(ok, end);
        if !ok {
          return;
        }
      }
      ghost var e := Advance(br.Remaining(), cur, k, r, b);
      ghost var next := if s != 0 then Put(e.block, e.k, v) else e.block;
      Foretells(f, d.pub, e, next, b, s != 0, v);
      AdvanceStops(br.Remaining(), cur, k, r, b);
      ok, k := AdvanceOver(br, block, k, r, b, cur, z, f, newnz);
      br.FetchedParts(ok, end);
      if !ok {
        return;
      }
      if s != 0 {
        WriteNew(block, k, b, v, newnz_pos, num_newnz, e.block, z, f, newnz);
        newnz := newnz + [ListIndex(k)];
        num_newnz := num_newnz + 1;
      } else {
        Passed(e.block, z, k, b.Al, newnz);
      }
      cur := next;
      k := k + 1;
    }
    RefineStop(br.Remaining(), d.pub, cur, k, b);
    GoingDone(Reorder(block[..]), z, f, b.Al);
    br.FetchedOk(end);
    ok := true;
  }

  // The zigzag position a coefficient is written to.
  function ListIndex(k: nat): (p: nat)
    requires k < DCTSIZE2 + 16
    ensures p < DCTSIZE2 && Natural(p) == Natural(k) && (k < DCTSIZE2 ==> p == k)
  {
    if k < DCTSIZE2 then k else DCTSIZE2 - 1
  }

  lemma BandBounds(b: Band)
    requires ValidAc(b)
    ensures 1 <= b.Ss <= b.Se < DCTSIZE2 == 64
  {
  }

  lemma NoneListed(pos: array<nat>)
    ensures Listed(pos[..0], [])
  {
  }

  // undoit: zeroes the coefficients made nonzero.
  method Undo(block: array<Coef>, newnz_pos: array<nat>, num: nat, ghost newnz: seq<nat>, ghost z: Block,
              ghost f: Block, ghost al: nat)
    requires block.Length == DCTSIZE2 && num <= newnz_pos.Length && Listed(newnz_pos[..num], newnz)
    requires CanUndo(Reorder(block[..]), z, f, al, newnz)
    modifies block
    ensures Redo(Reorder(block[..]), z, f, al)
  {
    hide *;
    Limits();
    var num_newnz: nat := num;
    ghost var left := newnz;
    while num_newnz > 0
      invariant num_newnz <= newnz_pos.Length && Listed(newnz_pos[..num_newnz], left)
      invariant CanUndo(Reorder(block[..]), z, f, al, left)
    {
      ListedLast(newnz_pos[..num_newnz], left);
      num_newnz := num_newnz - 1;
      ghost var p, was := left[num_newnz], block[..];
      ReorderPut(was, p, 0);
      UndoOne(Reorder(was), z, f, al, left);
      assert newnz_pos[..num_newnz + 1][num_newnz] == newnz_pos[num_newnz] == Natural(p);
      block[newnz_pos[num_newnz]] := 0;
      assert block[..] == was[Natural(p) := 0];
      left := left[..num_newnz];
      assert newnz_pos[..num_newnz] == newnz_pos[..num_newnz + 1][..num_newnz];
    }
    UndoneAll(newnz_pos[..0], Reorder(block[..]), z, f, al, left);
  }

  lemma ListedLast(pos: seq<nat>, newnz: seq<nat>)
    requires Listed(pos, newnz) && pos != []
    ensures |pos| == |newnz| && newnz[|pos| - 1] < DCTSIZE2 && pos[|pos| - 1] == Natural(newnz[|pos| - 1])
    ensures Listed(pos[..|pos| - 1], newnz[..|pos| - 1])
  {
    hide Natural;
  }

  lemma UndoneAll(pos: seq<nat>, a: Block, z: Block, f: Block, al: nat, newnz: seq<nat>)
    requires Listed(pos, newnz) && pos == [] && CanUndo(a, z, f, al, newnz)
    ensures Redo(a, z, f, al)
  {
    hide Correct;
  }

  lemma UndoOne(a: Block, z: Block, f: Block, al: nat, newnz: seq<nat>)
    requires CanUndo(a, z, f, al, newnz) && newnz != []
    ensures CanUndo(Put(a, newnz[|newnz| - 1], 0), z, f, al, newnz[..|newnz| - 1])
  {
    hide Correct;
    var n := |newnz| - 1;
    forall j | 0 <= j < DCTSIZE2 && j !in newnz[..n] && j != newnz[n]
      ensures j !in newnz
    {
      assert newnz == newnz[..n] + [newnz[n]];
    }
  }
}
