// Reading a whole progressive scan into the coefficient arrays: whatever the
// portions in which the bytes arrive, the arrays end up the same.
module ProgInput {
  import opened Blocks
  import opened McuCodec
  import opened ByteStream
  import opened McuReading
  import opened ProgCodec
  import opened ProgScan
  import opened ProgReading
  import opened ProgDecoder
  import CoefInput
  import SeqDecoder

  // The areas of an MCU hold its blocks as earlier scans have left them.
  ghost predicate Untouched(contents: seq<seq<Coef>>, was: Zigzags) {
    |contents| == |was| && forall i | 0 <= i < |was| :: |contents[i]| == DCTSIZE2 && Reorder(contents[i]) == was[i]
  }

  // The first n MCUs are in place, the next one may be in part, the others are untouched.
  ghost predicate UpTo(contents: seq<seq<seq<Coef>>>, was: seq<Zigzags>, mcus: seq<Zigzags>, n: nat, next: POutcome,
                       b: Band) {
    && |mcus| == n <= |contents| == |was|
    && (forall i | 0 <= i < n :: AllDone(contents[i], mcus[i], |mcus[i]|))
    && (n < |contents| ==> OnTheWay(contents[n], was[n], next, b))
    && (forall i | n < i < |contents| :: Untouched(contents[i], was[i]))
  }

  lemma UpToRetry(x: seq<seq<seq<Coef>>>, y: seq<seq<seq<Coef>>>, was: seq<Zigzags>, mcus: seq<Zigzags>, n: nat,
                  next: POutcome, b: Band)
    requires UpTo(x, was, mcus, n, next, b) && n < |x| == |y| && OnTheWay(y[n], was[n], next, b)
    requires forall i | 0 <= i < |x| && i != n :: y[i] == x[i]
    ensures UpTo(y, was, mcus, n, next, b)
  {
    hide OnTheWay, Untouched, AllDone;
  }

  lemma UpToMore(scan: Scan, x: seq<seq<seq<Coef>>>, y: seq<seq<seq<Coef>>>, was: seq<Zigzags>, mcus: seq<Zigzags>,
                 n: nat,
                 done: POutcome, next: POutcome, b: Band)
    requires UpTo(x, was, mcus, n, done, b) && n < |x| == |y| && Complete(y[n], done)
    requires forall i | 0 <= i < |x| && i != n :: y[i] == x[i]
    requires n + 1 < |was| ==> ValidZs(scan, was[n + 1]) && (next.POutcome? ==> ValidZs(scan, next.blocks))
    ensures UpTo(y, was, mcus + [done.blocks], n + 1, next, b)
  {
    hide OnTheWay, Untouched, AllDone;
    CompleteIs(y[n], done);
    if n + 1 < |y| {
      UntouchedIs(scan, y[n + 1], was[n + 1], next, b);
    }
  }

  lemma CompleteIs(contents: seq<seq<Coef>>, done: POutcome)
    requires Complete(contents, done)
    ensures done.POutcome? && AllDone(contents, done.blocks, |done.blocks|)
  {
  }

  lemma UntouchedIs(scan: Scan, contents: seq<seq<Coef>>, was: Zigzags, next: POutcome, b: Band)
    requires Untouched(contents, was) && ValidZs(scan, was) && (next.POutcome? ==> ValidZs(scan, next.blocks))
    ensures OnTheWay(contents, was, next, b)
  {
    hide OnTheWay, Reorder;
    UntouchedOnTheWay(scan, contents, was, next, b);
  }

  // What the scan contains up to MCU n, starting in state s.
  ghost function Reading(d: PhuffDecoder, s: PDec, was: seq<Zigzags>, n: nat): PRun
    requires ValidProgTables(d.scan, d.b, d.tables) && AllValid(d.scan, was) && ValidDec(d.scan, d.cinfo.data, s.core)
    requires n <= |was|
  {
    PRunOf(d.scan, d.b, d.tables, d.cinfo.data, s, was, n)
  }

  ghost predicate Ready(d: PhuffDecoder, areas: seq<seq<array<Coef>>>, s: PDec, was: seq<Zigzags>) {
    && ValidProgTables(d.scan, d.b, d.tables) && AllValid(d.scan, was) && ValidDec(d.scan, d.cinfo.data, s.core)
    && CoefInput.Separate(d.scan, areas) && |areas| == |was|
  }

  ghost function Expected(d: PhuffDecoder, s: PDec, was: seq<Zigzags>, n: nat): POutcome
    requires ValidProgTables(d.scan, d.b, d.tables) && AllValid(d.scan, was) && ValidDec(d.scan, d.cinfo.data, s.core)
    requires n < |was|
    requires Reading(d, s, was, n).PRun?
  {
    ValidAt(d.scan, was, n);
    PDecodeOne(d.scan, d.b, d.tables, d.cinfo.data, Reading(d, s, was, n).state, was[n])
  }

  lemma ValidAt(scan: Scan, was: seq<Zigzags>, n: nat)
    requires AllValid(scan, was) && n < |was|
    ensures ValidZs(scan, was[n])
  {
  }

  // The decoder will read MCU n next.
  ghost predicate Awaits(d: PhuffDecoder, s: PDec, was: seq<Zigzags>, n: nat)
    requires ValidProgTables(d.scan, d.b, d.tables) && AllValid(d.scan, was) && ValidDec(d.scan, d.cinfo.data, s.core)
    requires n <= |was|
    requires d.Valid() && Reading(d, s, was, n).PRun?
    reads d, d.cinfo
  {
    n < |was| ==> ValidZs(d.scan, was[n]) && d.Next(was[n]) == Expected(d, s, was, n)
  }

  ghost function Next(d: PhuffDecoder, s: PDec, was: seq<Zigzags>, n: nat): POutcome
    requires ValidProgTables(d.scan, d.b, d.tables) && AllValid(d.scan, was) && ValidDec(d.scan, d.cinfo.data, s.core)
    requires n <= |was|
    requires Reading(d, s, was, n).PRun?
  {
    if n < |was| then Expected(d, s, was, n) else PNever
  }

  // n MCUs have been read, and the next one will be what it should be.
  ghost predicate HasRead(d: PhuffDecoder, areas: seq<seq<array<Coef>>>, s: PDec, was: seq<Zigzags>, n: nat)
    reads d, d.cinfo, CoefInput.AreaSet(areas)
  {
    && Ready(d, areas, s, was) && d.Valid() && n <= |areas| && Reading(d, s, was, n).PRun? && Awaits(d, s, was, n)
    && UpTo(CoefInput.AllContents(areas), was, Reading(d, s, was, n).mcus, n, Next(d, s, was, n), d.b)
  }

  lemma HasReadParts(d: PhuffDecoder, areas: seq<seq<array<Coef>>>, s: PDec, was: seq<Zigzags>, n: nat)
    requires HasRead(d, areas, s, was, n) && n < |areas|
    ensures Ready(d, areas, s, was) && d.Valid() && |areas| == |was| && ValidZs(d.scan, was[n])
    ensures CoefInput.Separate(d.scan, areas)
    ensures ValidProgTables(d.scan, d.b, d.tables) && AllValid(d.scan, was) && ValidDec(d.scan, d.cinfo.data, s.core)
    ensures Reading(d, s, was, n).PRun? && d.Next(was[n]) == Expected(d, s, was, n) == Next(d, s, was, n)
    ensures SeqDecoder.ValidBlocks(d.scan, areas[n])
    ensures OnTheWay(SeqDecoder.Contents(areas[n]), was[n], d.Next(was[n]), d.b)
    ensures UpTo(CoefInput.AllContents(areas), was, Reading(d, s, was, n).mcus, n, Expected(d, s, was, n), d.b)
  {
    hide ValidProgTables, PDecodeOne, OnTheWay, SeqDecoder.ValidBlocks, Untouched, AllDone, PRunOf, ValidZs, Reading;
    CoefInput.SeparateAt(d.scan, areas, n);
  }

  lemma HasReadAgain(d: PhuffDecoder, areas: seq<seq<array<Coef>>>, s: PDec, was: seq<Zigzags>, n: nat)
    requires Ready(d, areas, s, was) && d.Valid() && n < |areas| && Reading(d, s, was, n).PRun?
    requires ValidZs(d.scan, was[n])
    requires d.Next(was[n]) == Expected(d, s, was, n)
    requires UpTo(CoefInput.AllContents(areas), was, Reading(d, s, was, n).mcus, n, Expected(d, s, was, n), d.b)
    ensures HasRead(d, areas, s, was, n)
  {
  }

  // After an MCU, the decoder awaits the one that follows.
  lemma Follows(d: PhuffDecoder, areas: seq<seq<array<Coef>>>, s: PDec, was: seq<Zigzags>, n: nat, o: POutcome)
    requires Ready(d, areas, s, was) && d.Valid() && n < |was| && Reading(d, s, was, n).PRun?
    requires o == Expected(d, s, was, n) && o.POutcome?
    requires d.Abstract() == o.state
    ensures Reading(d, s, was, n + 1) == PRun(o.state, Reading(d, s, was, n).mcus + [o.blocks])
    ensures Awaits(d, s, was, n + 1)
    ensures n + 1 < |was| ==>
      && ValidZs(d.scan, was[n + 1])
      && (Next(d, s, was, n + 1).POutcome? ==> ValidZs(d.scan, Next(d, s, was, n + 1).blocks))
  {
    hide ValidProgTables, PDecodeOne, ValidZs, CoefInput.Separate;
    ValidAt(d.scan, was, n);
    if n + 1 < |was| {
      ValidAt(d.scan, was, n + 1);
    }
  }

  // The next MCU.
  method ReadMcu(d: PhuffDecoder, areas: seq<seq<array<Coef>>>, n: nat, ghost s: PDec, ghost was: seq<Zigzags>)
    returns (ok: bool)
    requires HasRead(d, areas, s, was, n) && n < |areas|
    modifies d, d.cinfo, CoefInput.AreaSet(areas)
    ensures d.cinfo.avail == old(d.cinfo.avail)
    ensures HasRead(d, areas, s, was, if ok then n + 1 else n)
    ensures !ok ==> d.Valid() && d.Starved()
  {
    hide *;
    HasReadParts(d, areas, s, was, n);
    CoefInput.InAreaSet(areas, n);
    ghost var before, o := CoefInput.AllContents(areas), Expected(d, s, was, n);
    ok := d.DecodeMcu(areas[n], was[n]);
    ghost var after := CoefInput.AllContents(areas);
    forall i | 0 <= i < |areas| && i != n
      ensures after[i] == before[i]
    {
      CoefInput.SeparateFrom(d.scan, areas, i, n);
    }
    if ok {
      CompleteIs(SeqDecoder.Contents(areas[n]), o);
      Follows(d, areas, s, was, n, o);
      UpToMore(d.scan, before, after, was, Reading(d, s, was, n).mcus, n, o, Next(d, s, was, n + 1), d.b);
      HasReadNow(d, areas, s, was, n + 1);
    } else {
      UpToRetry(before, after, was, Reading(d, s, was, n).mcus, n, o, d.b);
      HasReadAgain(d, areas, s, was, n);
    }
  }

  lemma HasReadNow(d: PhuffDecoder, areas: seq<seq<array<Coef>>>, s: PDec, was: seq<Zigzags>, n: nat)
    requires Ready(d, areas, s, was) && d.Valid() && n <= |areas| && Reading(d, s, was, n).PRun? && Awaits(d, s, was, n)
    requires UpTo(CoefInput.AllContents(areas), was, Reading(d, s, was, n).mcus, n, Next(d, s, was, n), d.b)
    ensures HasRead(d, areas, s, was, n)
  {
  }

  lemma NothingRead(d: PhuffDecoder, areas: seq<seq<array<Coef>>>, was: seq<Zigzags>)
    requires d.Valid() && AllValid(d.scan, was) && CoefInput.Separate(d.scan, areas) && |areas| == |was|
    requires forall n | 0 <= n < |was| :: Untouched(SeqDecoder.Contents(areas[n]), was[n])
    ensures HasRead(d, areas, d.Abstract(), was, 0)
  {
    hide ValidProgTables, DerivedProg, PDecodeOne, ValidZs, CoefInput.Separate, Untouched;
    var s := d.Abstract();
    d.ValidAbstract();
    d.TablesFit();
    if |was| > 0 {
      ValidAt(d.scan, was, 0);
      UntouchedIs(d.scan, SeqDecoder.Contents(areas[0]), was[0], Next(d, s, was, 0), d.b);
    }
  }

  // However the bytes arrive, the arrays hold what the stream contains: it
  // comes in the given portions, one whenever reading has been suspended.
  // Reading is left incomplete only if what has arrived altogether does not
  // suffice for the next MCU.
  method ReadScan(d: PhuffDecoder, areas: seq<seq<array<Coef>>>, portions: seq<nat>, ghost was: seq<Zigzags>)
    returns (done: bool, ghost s: PDec)
    requires d.Valid() && AllValid(d.scan, was) && CoefInput.Separate(d.scan, areas) && |areas| == |was|
    requires forall n | 0 <= n < |was| :: Untouched(SeqDecoder.Contents(areas[n]), was[n])
    modifies d, d.cinfo, CoefInput.AreaSet(areas)
    ensures s == old(d.Abstract()) && Ready(d, areas, s, was)
    ensures done ==> Reading(d, s, was, |was|).PRun? && |Reading(d, s, was, |was|).mcus| == |areas|
    ensures done ==> forall n | 0 <= n < |areas| ::
      AllDone(SeqDecoder.Contents(areas[n]), Reading(d, s, was, |was|).mcus[n], |Reading(d, s, was, |was|).mcus[n]|)
    ensures !done ==> d.Valid() && d.Starved()
    ensures !done ==>
      d.cinfo.avail == CoefInput.Sent(d.cinfo.data, old(d.cinfo.avail) + CoefInput.Total(portions, |portions|))
  {
    hide *;
    ghost var first := d.cinfo.avail;
    CoefInput.NoneSent(portions);
    SentAll(d);
    NothingRead(d, areas, was);
    s := d.Abstract();
    var n, i := 0, 0;
    while n < |areas|
      invariant n <= |areas| == |was| && 0 <= i <= |portions| && HasRead(d, areas, s, was, n)
      invariant d.cinfo.avail == CoefInput.Sent(d.cinfo.data, first + CoefInput.Total(portions, i))
      decreases |areas| - n, |portions| - i
    {
      var ok := ReadMcu(d, areas, n, s, was);
      if ok {
        n := n + 1;
      } else {
        if i == |portions| {
          HasReadParts(d, areas, s, was, n);
          return false, s;
        }
        CoefInput.SentMore(d.cinfo.data, first, portions, i);
        Supply(d, areas, CoefInput.Sent(d.cinfo.data, d.cinfo.avail + portions[i]) - d.cinfo.avail, n, s, was);
        i := i + 1;
      }
    }
    AllRead(d, areas, s, was);
    done := true;
  }

  // More bytes arrive.
  method Supply(d: PhuffDecoder, areas: seq<seq<array<Coef>>>, more: nat, ghost n: nat, ghost s: PDec,
                ghost was: seq<Zigzags>)
    requires HasRead(d, areas, s, was, n) && d.cinfo.avail + more <= |d.cinfo.data|
    modifies d.cinfo`avail
    ensures HasRead(d, areas, s, was, n) && d.cinfo.avail == old(d.cinfo.avail) + more
  {
    hide *;
    HasReadOpen(d, areas, s, was, n);
    ghost var contents := CoefInput.AllContents(areas);
    d.More(more);
    if n < |was| {
      ValidAt(d.scan, was, n);
    }
    assert CoefInput.AllContents(areas) == contents;
    HasReadClosed(d, areas, s, was, n);
  }

  lemma SentAll(d: PhuffDecoder)
    requires d.Valid()
    ensures d.cinfo.avail == CoefInput.Sent(d.cinfo.data, d.cinfo.avail)
  {
    hide ValidProgTables, DerivedProg;
  }

  lemma HasReadOpen(d: PhuffDecoder, areas: seq<seq<array<Coef>>>, s: PDec, was: seq<Zigzags>, n: nat)
    requires HasRead(d, areas, s, was, n)
    ensures Ready(d, areas, s, was) && d.Valid() && n <= |areas| && |areas| == |was| && AllValid(d.scan, was)
    ensures ValidProgTables(d.scan, d.b, d.tables) && ValidDec(d.scan, d.cinfo.data, s.core)
    ensures Reading(d, s, was, n).PRun?
    ensures (n < |was| ==> ValidZs(d.scan, was[n]) && d.Next(was[n]) == Expected(d, s, was, n))
    ensures UpTo(CoefInput.AllContents(areas), was, Reading(d, s, was, n).mcus, n, Next(d, s, was, n), d.b)
  {
    hide ValidProgTables, PDecodeOne, PRunOf, ValidZs, CoefInput.Separate, UpTo;
  }

  lemma HasReadClosed(d: PhuffDecoder, areas: seq<seq<array<Coef>>>, s: PDec, was: seq<Zigzags>, n: nat)
    requires Ready(d, areas, s, was) && d.Valid() && n <= |areas| && |areas| == |was| && AllValid(d.scan, was)
    requires ValidProgTables(d.scan, d.b, d.tables) && ValidDec(d.scan, d.cinfo.data, s.core)
    requires Reading(d, s, was, n).PRun?
    requires (n < |was| ==> ValidZs(d.scan, was[n]) && d.Next(was[n]) == Expected(d, s, was, n))
    requires UpTo(CoefInput.AllContents(areas), was, Reading(d, s, was, n).mcus, n, Next(d, s, was, n), d.b)
    ensures HasRead(d, areas, s, was, n)
  {
    hide ValidProgTables, PDecodeOne, PRunOf, ValidZs, CoefInput.Separate, UpTo;
  }

  lemma AllRead(d: PhuffDecoder, areas: seq<seq<array<Coef>>>, s: PDec, was: seq<Zigzags>)
    requires HasRead(d, areas, s, was, |areas|)
    ensures Ready(d, areas, s, was) && |was| == |areas|
    ensures Reading(d, s, was, |was|).PRun? && |Reading(d, s, was, |was|).mcus| == |areas|
    ensures forall n | 0 <= n < |areas| ::
      AllDone(SeqDecoder.Contents(areas[n]), Reading(d, s, was, |was|).mcus[n], |Reading(d, s, was, |was|).mcus[n]|)
  {
    hide ValidProgTables, PDecodeOne, OnTheWay, Untouched, AllDone, PRunOf, ValidZs, CoefInput.Separate;
    assert forall n | 0 <= n < |areas| :: CoefInput.AllContents(areas)[n] == SeqDecoder.Contents(areas[n]);
  }
}
