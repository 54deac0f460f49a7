// Sending tokens through the bit writer.
module TokenWriter {
  import opened Arith
  import opened Bits
  import opened Words
  import opened Errors
  import opened Tokens
  import opened BitWriter

  // The writer has sent toks since its bits were b0.
  ghost predicate Sent(w: BitWriter, t: CTables, b0: Bits, toks: seq<Token>)
    reads w
  {
    w.Valid() && SaneTables(t) && AllSendable(t, toks) && w.bits == b0 + TokensBits(t, toks)
  }

  // The room of a writer: what was free, and what finished segments have taken.
  datatype Space = Space(suspending: bool, room: nat, closed: seq<Byte>)

  ghost function SpaceOf(w: BitWriter): Space
    reads w
  {
    Space(w.suspending, w.room, w.closed)
  }

  // All codes are there, and the bytes stay below the room.
  ghost predicate CanSend(sp: Space, t: CTables, b0: Bits, toks: seq<Token>) {
    SaneTables(t) && AllSendable(t, toks)
    && (sp.suspending ==> |sp.closed + Emitted(b0 + TokensBits(t, toks))| < sp.room)
  }

  lemma EmittedGrows(a: Bits, b: Bits)
    ensures |Emitted(a)| <= |Emitted(a + b)|
  {
    EmittedConcat(a, b);
  }

  lemma CanSendPrefix(sp: Space, t: CTables, b0: Bits, a: seq<Token>, b: seq<Token>)
    requires CanSend(sp, t, b0, a + b)
    ensures CanSend(sp, t, b0, a)
  {
    assert forall i | 0 <= i < |a| :: a[i] == (a + b)[i];
    assert forall i | 0 <= i < |b| :: b[i] == (a + b)[|a| + i];
    TokensBitsConcat(t, a, b);
    Assoc(b0, TokensBits(t, a), TokensBits(t, b));
    EmittedGrows(b0 + TokensBits(t, a), TokensBits(t, b));
  }

  lemma AllSendableOne(t: CTables, sent: seq<Token>, tok: Token)
    requires SaneTables(t) && AllSendable(t, sent)
    ensures AllSendable(t, sent + [tok]) <==> Sendable(t, tok)
    ensures Sendable(t, tok) ==> TokensBits(t, sent + [tok]) == TokensBits(t, sent) + TokenBits(t, tok)
  {
    assert (sent + [tok])[|sent|] == tok;
    if Sendable(t, tok) {
      TokensBitsOne(t, tok);
      TokensBitsConcat(t, sent, [tok]);
    }
  }

  lemma SendOne(w: BitWriter, t: CTables, b0: Bits, sent: seq<Token>, tok: Token, bits: Bits)
    requires SaneTables(t) && AllSendable(t, sent) && bits == b0 + TokensBits(t, sent)
    ensures CanSend(SpaceOf(w), t, b0, sent + [tok]) <==> Sendable(t, tok) && w.Fits(Emitted(bits + TokenBits(t, tok)))
    ensures Sendable(t, tok) ==>
      AllSendable(t, sent + [tok]) && bits + TokenBits(t, tok) == b0 + TokensBits(t, sent + [tok])
  {
    AllSendableOne(t, sent, tok);
    if Sendable(t, tok) {
      Assoc(b0, TokensBits(t, sent), TokenBits(t, tok));
    }
  }

  lemma SymbolWord(t: CTables, ref: TblRef, s: nat)
    requires SaneTables(t) && ref.no < NUM_HUFF_TBLS && s < 256
    ensures var d := TableOf(t, ref);
            && d.ehufsi[s] <= 16 && (Sendable(t, Sym(ref, s)) <==> d.ehufsi[s] > 0)
            && (d.ehufsi[s] > 0 ==> TokenBits(t, Sym(ref, s)) == ToBits(Unsigned(d.ehufco[s]), d.ehufsi[s]))
  {
    var d := TableOf(t, ref);
    if d.ehufsi[s] > 0 {
      Pow2Values();
      ModSmall(d.ehufco[s], WORD);
    }
  }

  // The outcome of sending toks after what was sent when the bits were b0;
  // inRange is false if some coefficient met on the way is out of range.
  ghost predicate Outcome(w: BitWriter, t: CTables, b0: Bits, toks: seq<Token>, inRange: bool, st: Status)
    reads w
  {
    && (st.Done? <==> inRange && CanSend(SpaceOf(w), t, b0, toks))
    && (st.Done? ==> Sent(w, t, b0, toks))
    && (st == Failed(BadDctCoef) ==> !inRange)
    && (st == Failed(HuffMissingCode) ==> SaneTables(t) && !AllSendable(t, toks))
    && (st.Failed? ==> st.error == BadDctCoef || st.error == HuffMissingCode)
    && (st.Suspended? ==> w.suspending)
  }

  lemma OutcomeMeans(w: BitWriter, t: CTables, b0: Bits, toks: seq<Token>, inRange: bool, st: Status)
    requires Outcome(w, t, b0, toks, inRange, st)
    ensures st.Done? <==> inRange && CanSend(SpaceOf(w), t, b0, toks)
    ensures st.Done? ==> Sent(w, t, b0, toks)
    ensures st.Failed? ==> !inRange || (SaneTables(t) && !AllSendable(t, toks))
    ensures st.Suspended? ==> SpaceOf(w).suspending
  {
  }

  lemma OutcomeDone(w: BitWriter, t: CTables, b0: Bits, toks: seq<Token>, inRange: bool, st: Status)
    requires Outcome(w, t, b0, toks, inRange, st) && st.Done?
    ensures inRange && Sent(w, t, b0, toks)
  {
  }

  // What cannot be sent cannot be sent with more behind it.
  lemma OutcomeStop(w: BitWriter, t: CTables, b0: Bits, toks: seq<Token>, more: seq<Token>,
                    inRange: bool, allInRange: bool, st: Status)
    requires Outcome(w, t, b0, toks, inRange, st) && !st.Done? && (allInRange ==> inRange)
    ensures Outcome(w, t, b0, toks + more, allInRange, st)
  {
    if CanSend(SpaceOf(w), t, b0, toks + more) {
      CanSendPrefix(SpaceOf(w), t, b0, toks, more);
    }
    assert forall i | 0 <= i < |toks| :: (toks + more)[i] == toks[i];
  }

  lemma OutcomeNothing(w: BitWriter, t: CTables, b0: Bits, toks: seq<Token>)
    requires Sent(w, t, b0, toks)
    ensures Outcome(w, t, b0, toks, true, Done)
  {
  }

  lemma OutcomeOutOfRange(w: BitWriter, t: CTables, b0: Bits, toks: seq<Token>)
    ensures Outcome(w, t, b0, toks, false, Failed(BadDctCoef))
  {
  }

  method SendSymbol(w: BitWriter, t: CTables, ref: TblRef, s: nat, ghost b0: Bits, ghost sent: seq<Token>)
    returns (st: Status)
    requires Sent(w, t, b0, sent) && ref.no < NUM_HUFF_TBLS && s < 256
    modifies w
    ensures SpaceOf(w) == old(SpaceOf(w))
    ensures Outcome(w, t, b0, sent + [Sym(ref, s)], true, st)
  {
    var d := TableOf(t, ref);
    SymbolWord(t, ref, s);
    st := w.EmitBits(Unsigned(d.ehufco[s]), d.ehufsi[s]);
    SendOne(w, t, b0, sent, Sym(ref, s), old(w.bits));
    AllSendableOne(t, sent, Sym(ref, s));
  }

  method SendRaw(w: BitWriter, t: CTables, v: int, n: nat, ghost b0: Bits, ghost sent: seq<Token>)
    returns (st: Status)
    requires Sent(w, t, b0, sent) && 0 < n <= 16
    modifies w
    ensures SpaceOf(w) == old(SpaceOf(w))
    ensures Outcome(w, t, b0, sent + [Raw(v, n)], true, st)
  {
    st := w.EmitBits(Unsigned(v), n);
    SendOne(w, t, b0, sent, Raw(v, n), old(w.bits));
  }
}
