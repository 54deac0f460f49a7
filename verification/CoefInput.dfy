// Reading a whole scan into the coefficient arrays (consume_data of
// jdcoefct.c): the counters with which a suspended call is taken up again.
module CoefInput {
  import opened Arith
  import opened Blocks
  import opened McuCodec
  import opened BitWriter
  import opened ByteStream
  import opened McuReading
  import opened SeqDecoder

  // ----- what the scan contains -----

  // The state and the blocks after the first n MCUs; Stuck, if the stream ends
  // before a restart marker.
  datatype Run = Stuck | Run(state: DecState, mcus: seq<seq<Block>>)

  function RunOf(scan: Scan, t: DTables, wanted: seq<Wanted>, data: seq<Byte>, s: DecState, n: nat): (r: Run)
    requires ValidTables(scan, t) && ValidWanted(scan, wanted) && ValidDec(scan, data, s)
    ensures r.Run? ==> |r.mcus| == n && ValidDec(scan, data, r.state)
  {
    if n == 0 then Run(s, [])
    else
      var m := RunOf(scan, t, wanted, data, s, n - 1);
      if m.Stuck? then Stuck
      else
        match DecodeOne(scan, t, wanted, data, m.state)
        case Never => Stuck
        case Outcome(blocks, state) => Run(state, m.mcus + [blocks])
  }

  ghost predicate AllZeroes(contents: seq<seq<Coef>>) {
    forall i | 0 <= i < |contents| :: contents[i] == ZeroBlock()
  }

  // Zeroed blocks are on the way to any outcome.
  lemma ZeroesOnTheWay(scan: Scan, contents: seq<seq<Coef>>, o: Outcome)
    requires AllZeroes(contents) && |contents| == |scan.membership|
    requires o.Outcome? ==>
      |o.blocks| == |scan.membership| && forall i | 0 <= i < |o.blocks| :: |o.blocks[i]| == DCTSIZE2
    ensures OnTheWay(contents, o)
  {
    if o.Outcome? {
      forall i | 0 <= i < |contents|
        ensures |contents[i]| == DCTSIZE2 && Partial(Reorder(contents[i]), o.blocks[i])
      {
        assert contents[i] == ZeroBlock();
      }
    }
  }

  lemma RunNext(scan: Scan, t: DTables, wanted: seq<Wanted>, data: seq<Byte>, s: DecState, n: nat)
    requires ValidTables(scan, t) && ValidWanted(scan, wanted) && ValidDec(scan, data, s)
    requires RunOf(scan, t, wanted, data, s, n).Run?
    ensures var m := RunOf(scan, t, wanted, data, s, n);
            var o := DecodeOne(scan, t, wanted, data, m.state);
            o.Outcome? ==> RunOf(scan, t, wanted, data, s, n + 1) == Run(o.state, m.mcus + [o.blocks])
  {
    hide DecodeOne, ValidTables, ValidDec;
  }

  // ----- the coefficient arrays -----

  ghost function AreaSet(areas: seq<seq<array<Coef>>>): set<array<Coef>> {
    set n, i | 0 <= n < |areas| && 0 <= i < |areas[n]| :: areas[n][i]
  }

  ghost function AllContents(areas: seq<seq<array<Coef>>>): (r: seq<seq<seq<Coef>>>)
    reads AreaSet(areas)
    ensures |r| == |areas| && forall n | 0 <= n < |areas| :: r[n] == Contents(areas[n])
  {
    seq(|areas|, n requires 0 <= n < |areas| reads AreaSet(areas) => Contents(areas[n]))
  }

  // The areas of the MCUs are valid and all different.
  ghost predicate Separate(scan: Scan, areas: seq<seq<array<Coef>>>) {
    && (forall n | 0 <= n < |areas| :: ValidBlocks(scan, areas[n]))
    && forall m, n, i, j
      | 0 <= m < |areas| && 0 <= n < |areas| && m != n && 0 <= i < |areas[m]| && 0 <= j < |areas[n]| ::
         areas[m][i] != areas[n][j]
  }

  // The first n MCUs are in place, the next one may be in part, the others are zero.
  ghost predicate InPlaceUpTo(scan: Scan, contents: seq<seq<seq<Coef>>>, mcus: seq<seq<Block>>, n: nat, next: Outcome) {
    && |mcus| == n <= |contents|
    && (forall i | 0 <= i < n :: AllDone(contents[i], mcus[i], |mcus[i]|))
    && (n < |contents| ==> OnTheWay(contents[n], next))
    && (forall i | n < i < |contents| :: |contents[i]| == |scan.membership| && AllZeroes(contents[i]))
  }

  lemma InPlaceRetry(scan: Scan, a: seq<seq<seq<Coef>>>, b: seq<seq<seq<Coef>>>, mcus: seq<seq<Block>>, n: nat,
                     next: Outcome)
    requires InPlaceUpTo(scan, a, mcus, n, next) && n < |a| == |b| && OnTheWay(b[n], next)
    requires forall i | 0 <= i < |a| && i != n :: b[i] == a[i]
    ensures InPlaceUpTo(scan, b, mcus, n, next)
  {
  }

  lemma InPlaceMore(scan: Scan, a: seq<seq<seq<Coef>>>, b: seq<seq<seq<Coef>>>, mcus: seq<seq<Block>>, n: nat,
                    done: Outcome, next: Outcome)
    requires InPlaceUpTo(scan, a, mcus, n, done) && n < |a| == |b| && Complete(b[n], done)
    requires forall i | 0 <= i < |a| && i != n :: b[i] == a[i]
    requires next.Outcome? ==>
      |next.blocks| == |scan.membership| && forall i | 0 <= i < |next.blocks| :: |next.blocks[i]| == DCTSIZE2
    ensures InPlaceUpTo(scan, b, mcus + [done.blocks], n + 1, next)
  {
    hide AllDone, OnTheWay, AllZeroes;
    CompleteIs(b[n], done);
    if n + 1 < |b| {
      ZeroesOnTheWay(scan, b[n + 1], next);
    }
  }

  lemma CompleteIs(contents: seq<seq<Coef>>, done: Outcome)
    requires Complete(contents, done)
    ensures done.Outcome? && AllDone(contents, done.blocks, |done.blocks|)
  {
  }

  // ----- the controller -----

  datatype Progress = RowSuspended | RowCompleted | ScanCompleted

  // How many MCUs lie before a place: row by row, and full_rows rows to a fully
  // interleaved row.
  function Index(full_rows: nat, per_row: nat, imcu_row: nat, row: nat, col: nat): nat {
    (imcu_row * full_rows + row) * per_row + col
  }

  lemma IndexStart(full_rows: nat, per_row: nat)
    ensures Index(full_rows, per_row, 0, 0, 0) == 0
  {
  }

  lemma IndexNext(full_rows: nat, per_row: nat, imcu_row: nat, row: nat)
    ensures Index(full_rows, per_row, imcu_row, row, per_row) == Index(full_rows, per_row, imcu_row, row + 1, 0)
    ensures Index(full_rows, per_row, imcu_row, full_rows, 0) == Index(full_rows, per_row, imcu_row + 1, 0, 0)
  {
    assert (imcu_row + 1) * full_rows == imcu_row * full_rows + full_rows;
  }

  lemma IndexBelow(full_rows: nat, per_row: nat, imcu_row: nat, row: nat, col: nat, last: nat, rows: nat)
    requires col < per_row && row < full_rows && rows <= full_rows
    requires imcu_row < last || (imcu_row == last && row < rows)
    ensures Index(full_rows, per_row, imcu_row, row, col) < Index(full_rows, per_row, last, rows, 0)
  {
    var a, b := imcu_row * full_rows + row, last * full_rows + rows;
    assert a < b by {
      if imcu_row < last {
        MulMono(imcu_row + 1, last, full_rows);
      }
    }
    MulMono(a + 1, b, per_row);
  }

  // A scan's MCUs in rows of MCUs_per_row; full_rows such rows make up a fully
  // interleaved row, last_rows the last one.
  class CoefController {
    const entropy: SeqDecoder
    const areas: seq<seq<array<Coef>>>
    const MCUs_per_row: nat
    const full_rows: nat
    const last_rows: nat
    const total_iMCU_rows: nat
    var input_iMCU_row: nat
    var MCU_vert_offset: nat
    var MCU_ctr: nat
    ghost const start: DecState

    function RowsHere(): nat
      reads this
    {
      if input_iMCU_row + 1 < total_iMCU_rows then full_rows else last_rows
    }

    // How many MCUs have been read.
    function Done(): nat
      reads this
    {
      if input_iMCU_row == total_iMCU_rows then |areas|
      else Index(full_rows, MCUs_per_row, input_iMCU_row, MCU_vert_offset, MCU_ctr)
    }

    ghost predicate Shape()
      reads this
    {
      && MCUs_per_row > 0 && 0 < last_rows <= full_rows && total_iMCU_rows > 0
      && |areas| == Index(full_rows, MCUs_per_row, total_iMCU_rows - 1, last_rows, 0)
      && input_iMCU_row <= total_iMCU_rows && MCU_ctr < MCUs_per_row
      && (input_iMCU_row < total_iMCU_rows ==> MCU_vert_offset < RowsHere())
      && Separate(entropy.scan, areas)
    }

    // The decoder is set up for the scan. (Nothing of this ever changes.)
    ghost predicate Ready() {
      && ValidTables(entropy.scan, entropy.tables) && ValidWanted(entropy.scan, entropy.wanted)
      && ValidDec(entropy.scan, entropy.cinfo.data, start) && Separate(entropy.scan, areas)
    }

    // What the scan contains up to MCU n.
    ghost function Reading(n: nat): Run
      requires Ready()
    {
      RunOf(entropy.scan, entropy.tables, entropy.wanted, entropy.cinfo.data, start, n)
    }

    // What MCU n contains.
    ghost function Expected(n: nat): Outcome
      requires Ready() && Reading(n).Run?
    {
      DecodeOne(entropy.scan, entropy.tables, entropy.wanted, entropy.cinfo.data, Reading(n).state)
    }

    // n MCUs have been read, and the next one will be what it should be.
    ghost predicate HasRead(n: nat)
      reads entropy, entropy.cinfo, AreaSet(areas)
    {
      && Ready() && entropy.Valid() && n <= |areas|
      && Reading(n).Run? && entropy.Next() == Expected(n)
      && InPlaceUpTo(entropy.scan, AllContents(areas), Reading(n).mcus, n, Expected(n))
    }

    ghost predicate Valid()
      reads this, entropy, entropy.cinfo, AreaSet(areas)
    {
      Shape() && HasRead(Done())
    }

    // start_input_pass, with pre-zeroed areas
    constructor (entropy: SeqDecoder, areas: seq<seq<array<Coef>>>, per_row: nat, full_rows: nat, last_rows: nat,
                 imcu_rows: nat)
      requires entropy.Valid() && per_row > 0 && 0 < last_rows <= full_rows && imcu_rows > 0
      requires |areas| == Index(full_rows, per_row, imcu_rows - 1, last_rows, 0) && Separate(entropy.scan, areas)
      requires forall n | 0 <= n < |areas| :: AllZeroes(Contents(areas[n]))
      ensures Valid() && this.entropy == entropy && this.areas == areas && Done() == 0
      ensures start == entropy.Abstract()
    {
      hide HasRead, Separate, AllZeroes, Contents, SeqDecoder.Valid, SeqDecoder.Abstract;
      this.entropy, this.areas := entropy, areas;
      MCUs_per_row, this.full_rows, this.last_rows, total_iMCU_rows := per_row, full_rows, last_rows, imcu_rows;
      input_iMCU_row, MCU_vert_offset, MCU_ctr := 0, 0, 0;
      start := entropy.Abstract();
      new;
      IndexStart(full_rows, per_row);
      NothingRead();
    }

    lemma NothingRead()
      requires Separate(entropy.scan, areas) && entropy.Valid() && start == entropy.Abstract()
      requires forall n | 0 <= n < |areas| :: AllZeroes(Contents(areas[n]))
      ensures HasRead(0)
    {
      hide SegmentBits, SegmentEnd, Derived;
      entropy.ValidAbstract();
      ExpectedBlocks(0);
      if |areas| > 0 {
        ZeroesOnTheWay(entropy.scan, Contents(areas[0]), Expected(0));
      }
    }

    lemma ExpectedBlocks(n: nat)
      requires Ready() && Reading(n).Run?
      ensures var o := Expected(n);
              && (o.Outcome? ==> |o.blocks| == |entropy.scan.membership|)
              && (o.Outcome? ==> forall i | 0 <= i < |o.blocks| :: |o.blocks[i]| == DCTSIZE2)
              && (o.Outcome? ==> Reading(n + 1) == Run(o.state, Reading(n).mcus + [o.blocks]))
    {
      RunNext(entropy.scan, entropy.tables, entropy.wanted, entropy.cinfo.data, start, n);
    }

    // What holds before the next MCU.
    lemma NextReady(n: nat)
      requires HasRead(n) && n < |areas|
      ensures Ready() && Reading(n).Run? && entropy.Valid() && entropy.Next() == Expected(n)
      ensures Separate(entropy.scan, areas) && ValidBlocks(entropy.scan, areas[n])
      ensures OnTheWay(Contents(areas[n]), entropy.Next())
      ensures InPlaceUpTo(entropy.scan, AllContents(areas), Reading(n).mcus, n, Expected(n))
    {
      hide ValidTables, DecodeOne, OnTheWay, ValidBlocks, AllZeroes, AllDone, RunOf;
    }

    lemma HasReadWhen(n: nat)
      requires Ready() && entropy.Valid() && n <= |areas| && Reading(n).Run? && entropy.Next() == Expected(n)
      requires InPlaceUpTo(entropy.scan, AllContents(areas), Reading(n).mcus, n, Expected(n))
      ensures HasRead(n)
    {
    }

    // After an MCU, the decoder expects the one that follows.
    lemma Follows(n: nat, o: Outcome)
      requires Ready() && entropy.Valid() && Reading(n).Run? && o == Expected(n) && o.Outcome?
      requires entropy.Abstract() == o.state
      ensures Reading(n + 1).Run? && Reading(n + 1).mcus == Reading(n).mcus + [o.blocks]
      ensures entropy.Next() == Expected(n + 1)
    {
      hide ValidTables, DecodeOne, RunOf;
      ExpectedBlocks(n);
    }

    // The next MCU.
    method ReadMcu(ghost n: nat, blocks: seq<array<Coef>>) returns (ok: bool)
      requires HasRead(n) && n < |areas| && blocks == areas[n]
      modifies entropy, entropy.cinfo, AreaSet(areas)
      ensures entropy.cinfo.avail == old(entropy.cinfo.avail)
      ensures HasRead(if ok then n + 1 else n)
      ensures !ok ==> entropy.Valid() && entropy.Starved()
    {
      hide *;
      NextReady(n);
      InAreaSet(areas, n);
      ExpectedBlocks(n);
      ghost var before, o := AllContents(areas), Expected(n);
      ok := entropy.DecodeMcu(blocks);
      ghost var after := AllContents(areas);
      forall i | 0 <= i < |areas| && i != n
        ensures after[i] == before[i]
      {
        SeparateFrom(entropy.scan, areas, i, n);
      }
      if ok {
        CompleteIs(Contents(blocks), o);
        Follows(n, o);
        ExpectedBlocks(n + 1);
        InPlaceMore(entropy.scan, before, after, Reading(n).mcus, n, o, Expected(n + 1));
        HasReadWhen(n + 1);
      } else {
        InPlaceRetry(entropy.scan, before, after, Reading(n).mcus, n, o);
        HasReadWhen(n);
      }
    }

    lemma ShapeParts()
      requires Shape() && input_iMCU_row < total_iMCU_rows
      ensures MCU_vert_offset < RowsHere() <= full_rows && MCU_ctr < MCUs_per_row
      ensures forall row, col | 0 <= row < RowsHere() && 0 <= col < MCUs_per_row ::
                Index(full_rows, MCUs_per_row, input_iMCU_row, row, col) < |areas|
      ensures input_iMCU_row + 1 == total_iMCU_rows ==>
        Index(full_rows, MCUs_per_row, input_iMCU_row, RowsHere(), 0) == |areas|
      ensures input_iMCU_row + 1 < total_iMCU_rows ==> RowsHere() == full_rows
      ensures Done() == Index(full_rows, MCUs_per_row, input_iMCU_row, MCU_vert_offset, MCU_ctr)
    {
      hide Separate, Index;
      forall row, col | 0 <= row < RowsHere() && 0 <= col < MCUs_per_row
        ensures Index(full_rows, MCUs_per_row, input_iMCU_row, row, col) < |areas|
      {
        IndexBelow(full_rows, MCUs_per_row, input_iMCU_row, row, col, total_iMCU_rows - 1, last_rows);
      }
    }

    // More bytes arrive, between calls.
    method Supply(n: nat)
      requires Valid() && entropy.cinfo.avail + n <= |entropy.cinfo.data|
      modifies entropy.cinfo`avail
      ensures Valid() && entropy.cinfo.avail == old(entropy.cinfo.avail) + n
    {
      hide Separate, RunOf, DecodeOne, ValidTables;
      entropy.cinfo.Arrive(n);
    }

    lemma Finished()
      requires Valid() && input_iMCU_row == total_iMCU_rows
      ensures Ready() && Reading(|areas|).Run? && |Reading(|areas|).mcus| == |areas|
      ensures forall n, b | 0 <= n < |areas| && 0 <= b < |Reading(|areas|).mcus[n]| ::
        b < |areas[n]| && areas[n][b].Length == DCTSIZE2 && Reorder(areas[n][b][..]) == Reading(|areas|).mcus[n][b]
    {
      hide ValidTables, RunOf, DecodeOne, Reorder;
      forall n, b | 0 <= n < |areas| && 0 <= b < |Reading(|areas|).mcus[n]|
        ensures b < |areas[n]| && areas[n][b].Length == DCTSIZE2
        ensures Reorder(areas[n][b][..]) == Reading(|areas|).mcus[n][b]
      {
        InPlaceAt(entropy.scan, AllContents(areas), Reading(|areas|).mcus, |areas|, Expected(|areas|), n, b);
        assert AllContents(areas)[n] == Contents(areas[n]);
        SeparateAt(entropy.scan, areas, n);
      }
    }

    // consume_data: one fully interleaved row, or what is left of it; a suspended
    // call leaves behind where to go on.
    method ConsumeData() returns (st: Progress)
      requires Valid() && input_iMCU_row < total_iMCU_rows
      modifies this, entropy, entropy.cinfo, AreaSet(areas)
      ensures Valid() && entropy.cinfo.avail == old(entropy.cinfo.avail)
      ensures st.RowSuspended? ==>
        input_iMCU_row == old(input_iMCU_row) < total_iMCU_rows && entropy.Valid() && entropy.Starved()
      ensures !st.RowSuspended? ==> input_iMCU_row == old(input_iMCU_row) + 1
      ensures st.ScanCompleted? <==> input_iMCU_row == total_iMCU_rows
    {
      hide Separate, Index, HasRead;
      ShapeParts();
      var yoffset, rows := MCU_vert_offset, RowsHere();
      ghost var imcu := input_iMCU_row;
      while yoffset < rows
        invariant yoffset <= rows && imcu == input_iMCU_row < total_iMCU_rows && rows == RowsHere() && Shape()
        invariant (yoffset == rows ==> MCU_ctr == 0) && entropy.cinfo.avail == old(entropy.cinfo.avail)
        invariant HasRead(Index(full_rows, MCUs_per_row, imcu, yoffset, MCU_ctr))
        decreases rows - yoffset
      {
        ShapeParts();
        var MCU_col_num := MCU_ctr;
        while MCU_col_num < MCUs_per_row
          invariant MCU_col_num <= MCUs_per_row && yoffset < rows && imcu == input_iMCU_row && rows == RowsHere()
          invariant Shape()
          invariant entropy.cinfo.avail == old(entropy.cinfo.avail)
          invariant HasRead(Index(full_rows, MCUs_per_row, imcu, yoffset, MCU_col_num))
        {
          var n := Index(full_rows, MCUs_per_row, input_iMCU_row, yoffset, MCU_col_num);
          ShapeParts();
          var ok := ReadMcu(n, areas[n]);
          if !ok {
            MCU_vert_offset, MCU_ctr := yoffset, MCU_col_num;
            return RowSuspended;
          }
          IndexStep(full_rows, MCUs_per_row, imcu, yoffset, MCU_col_num);
          MCU_col_num := MCU_col_num + 1;
        }
        MCU_ctr := 0;
        IndexNext(full_rows, MCUs_per_row, imcu, yoffset);
        yoffset := yoffset + 1;
      }
      ShapeParts();
      IndexNext(full_rows, MCUs_per_row, imcu, 0);
      input_iMCU_row := input_iMCU_row + 1;
      if input_iMCU_row < total_iMCU_rows {
        MCU_ctr, MCU_vert_offset := 0, 0;
        return RowCompleted;
      }
      return ScanCompleted;
    }
  }

  // The place of a block among those read so far.
  lemma InPlaceAt(scan: Scan, contents: seq<seq<seq<Coef>>>, mcus: seq<seq<Block>>, n: nat, next: Outcome, i: nat,
                  b: nat)
    requires InPlaceUpTo(scan, contents, mcus, n, next) && i < n && b < |mcus[i]|
    ensures b < |contents[i]| && |contents[i][b]| == DCTSIZE2 && Reorder(contents[i][b]) == mcus[i][b]
  {
  }

  // The first n portions together.
  function Total(portions: seq<nat>, n: nat): nat
    requires n <= |portions|
  {
    if n == 0 then 0 else Total(portions, n - 1) + portions[n - 1]
  }

  // How many bytes of the data there are, of which so many have been sent.
  function Sent(data: seq<Byte>, n: nat): nat {
    if n <= |data| then n else |data|
  }

  lemma SentAll(c: CoefController)
    requires c.Valid()
    ensures c.entropy.cinfo.avail == Sent(c.entropy.cinfo.data, c.entropy.cinfo.avail)
  {
    hide Separate, RunOf, DecodeOne, ValidTables;
  }

  // However the bytes arrive, the arrays hold what the stream contains: the
  // stream comes in the given portions, one whenever reading has been suspended.
  // Reading is left incomplete only if what has arrived altogether does not
  // suffice for the next MCU.
  method ReadScan(c: CoefController, portions: seq<nat>) returns (done: bool)
    requires c.Valid() && c.input_iMCU_row <= c.total_iMCU_rows
    modifies c, c.entropy, c.entropy.cinfo, AreaSet(c.areas)
    ensures c.Valid() && (done <==> c.input_iMCU_row == c.total_iMCU_rows)
    ensures done ==> c.Ready() && c.Reading(|c.areas|).Run? && |c.Reading(|c.areas|).mcus| == |c.areas|
    ensures done ==> forall n, b | 0 <= n < |c.areas| && 0 <= b < |c.Reading(|c.areas|).mcus[n]| ::
      b < |c.areas[n]| && c.areas[n][b].Length == DCTSIZE2
      && Reorder(c.areas[n][b][..]) == c.Reading(|c.areas|).mcus[n][b]
    ensures !done ==> c.entropy.Valid() && c.entropy.Starved()
    ensures !done ==>
      c.entropy.cinfo.avail == Sent(c.entropy.cinfo.data, old(c.entropy.cinfo.avail) + Total(portions, |portions|))
  {
    hide *;
    var i := 0;
    ghost var first := c.entropy.cinfo.avail;
    SentAll(c);
    NoneSent(portions);
    while c.input_iMCU_row < c.total_iMCU_rows
      invariant c.Valid() && c.input_iMCU_row <= c.total_iMCU_rows && 0 <= i <= |portions|
      invariant c.entropy.cinfo.avail == Sent(c.entropy.cinfo.data, first + Total(portions, i))
      decreases c.total_iMCU_rows - c.input_iMCU_row, |portions| - i
    {
      var st := c.ConsumeData();
      if st.RowSuspended? {
        if i == |portions| {
          return false;
        }
        var more := Sent(c.entropy.cinfo.data, c.entropy.cinfo.avail + portions[i]) - c.entropy.cinfo.avail;
        SentMore(c.entropy.cinfo.data, first, portions, i);
        c.Supply(more);
        i := i + 1;
      }
    }
    c.Finished();
    done := true;
  }

  lemma NoneSent(portions: seq<nat>)
    ensures Total(portions, 0) == 0
  {
  }

  lemma SentMore(data: seq<Byte>, first: nat, portions: seq<nat>, i: nat)
    requires i < |portions|
    ensures var now := Sent(data, first + Total(portions, i));
            Sent(data, first + Total(portions, i + 1)) == Sent(data, now + portions[i])
            && now <= Sent(data, now + portions[i]) <= |data|
  {
  }

  lemma IndexStep(full_rows: nat, per_row: nat, imcu_row: nat, row: nat, col: nat)
    ensures Index(full_rows, per_row, imcu_row, row, col + 1) == Index(full_rows, per_row, imcu_row, row, col) + 1
  {
  }

  lemma SeparateAt(scan: Scan, areas: seq<seq<array<Coef>>>, n: nat)
    requires Separate(scan, areas) && n < |areas|
    ensures ValidBlocks(scan, areas[n])
  {
  }

  lemma SeparateFrom(scan: Scan, areas: seq<seq<array<Coef>>>, m: nat, n: nat)
    requires Separate(scan, areas) && m < |areas| && n < |areas| && m != n
    ensures forall i, j | 0 <= i < |areas[m]| && 0 <= j < |areas[n]| :: areas[m][i] != areas[n][j]
  {
  }

  lemma InAreaSet(areas: seq<seq<array<Coef>>>, n: nat)
    requires n < |areas|
    ensures forall i | 0 <= i < |areas[n]| :: areas[n][i] in AreaSet(areas)
  {
  }
}
