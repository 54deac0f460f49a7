// The encoder's coefficient controller (jccoefct.c). In one pass it makes each
// MCU when it is needed; in several passes it fills the coefficient arrays
// first. Both hand the same blocks to the entropy coder.
module CoefOutput {
  import opened Arith
  import opened Blocks
  import opened CoefBlocks
  import opened BitWriter
  import opened McuCodec
  import opened EntropyCoding
  import RowContext

  const C_MAX_BLOCKS_IN_MCU := 10

  // Blocks of the first n components of an MCU.
  ghost function BlocksIn(f: Frame, n: int): int
    requires ValidFrame(f) && 0 <= n <= |f.comps|
    decreases n
  {
    if n == 0 then 0
    else
      assert ValidComp(f, f.comps[n - 1]);
      BlocksIn(f, n - 1) + McuHeight(f, f.comps[n - 1]) * McuWidth(f, f.comps[n - 1])
  }

  predicate Sized(blocks: seq<Block>) {
    forall i | 0 <= i < |blocks| :: |blocks[i]| == Blocks.DCTSIZE2
  }

  lemma {:induction false} RowsCount(c: Comp, p: Plane, y: int, x: int, w: int, n: int)
    requires c.h > 0 && c.width_in_blocks > 0 && c.height_in_blocks > 0 && ValidPlane(c, p) && y >= 0 && x >= 0
    requires w >= 0 && n >= 0
    ensures |RowsOf(c, p, y, x, w, n)| == n * w && Sized(RowsOf(c, p, y, x, w, n))
    decreases n
  {
    hide Padded;
    if n > 0 {
      RowsCount(c, p, y, x, w, n - 1);
      assert n * w == (n - 1) * w + w;
    }
  }

  lemma {:induction false} BlocksCount(f: Frame, img: seq<Plane>, row: int, yoffset: int, col: int, n: int)
    requires ValidFrame(f) && ValidImage(f, img) && row >= 0 && yoffset >= 0 && col >= 0 && 0 <= n <= |f.comps|
    ensures |McuBlocks(f, img, row, yoffset, col, n)| == BlocksIn(f, n) >= 0
    ensures Sized(McuBlocks(f, img, row, yoffset, col, n))
    decreases n
  {
    hide RowsOf;
    if n > 0 {
      BlocksCount(f, img, row, yoffset, col, n - 1);
      Inside(f, img, n - 1, row, yoffset, col);
      var c := f.comps[n - 1];
      RowsCount(c, img[n - 1], row * c.v + yoffset, col * McuWidth(f, c), McuWidth(f, c), McuHeight(f, c));
      MulMono(0, McuHeight(f, c), McuWidth(f, c));
    }
  }

  lemma {:induction false} BlocksGrow(f: Frame, n: int, m: int)
    requires ValidFrame(f) && 0 <= n <= m <= |f.comps|
    ensures BlocksIn(f, n) <= BlocksIn(f, m)
    decreases m
  {
    if n < m {
      BlocksGrow(f, n, m - 1);
      assert ValidComp(f, f.comps[m - 1]);
      MulMono(0, McuHeight(f, f.comps[m - 1]), McuWidth(f, f.comps[m - 1]));
    }
  }

  // ----- which blocks are real -----

  lemma LastOfIs(n: int, d: int, q: int)
    requires d > 0 && (q - 1) * d < n <= q * d
    ensures LastOf(n, d) == n - (q - 1) * d && 0 < LastOf(n, d) <= d
  {
    var k, r := n / d, n % d;
    assert n == k * d + r;
    assert q * d == (q - 1) * d + d;
    RowContext.LastQuotient(n, d, q - 1, k, r);
  }

  lemma RealRow(f: Frame, c: Comp, row: int, y: int)
    requires ValidComp(f, c) && 0 <= row < f.total_iMCU_rows && 0 <= y < c.v
    ensures row * c.v + y < c.height_in_blocks <==> row < f.total_iMCU_rows - 1 || y < LastOf(c.height_in_blocks, c.v)
    ensures 0 < LastOf(c.height_in_blocks, c.v) <= c.v
  {
    LastOfIs(c.height_in_blocks, c.v, f.total_iMCU_rows);
    if row < f.total_iMCU_rows - 1 {
      MulMono(row + 1, f.total_iMCU_rows - 1, c.v);
      assert (row + 1) * c.v == row * c.v + c.v;
    }
  }

  // The number of real blocks in a row of an MCU.
  function BlockCount(f: Frame, c: Comp, col: int): int
    requires f.comps != [] && c.h > 0
  {
    if col < McusPerRow(f) - 1 then McuWidth(f, c) else if Single(f) then 1 else LastOf(c.width_in_blocks, c.h)
  }

  lemma RealColumns(f: Frame, i: int, col: int)
    requires ValidFrame(f) && 0 <= i < |f.comps| && 0 <= col < McusPerRow(f)
    ensures var c := f.comps[i];
            var x, n := col * McuWidth(f, c), BlockCount(f, c, col);
            && ValidComp(f, c) && x >= 0 && 0 < n <= McuWidth(f, c) && x + n <= c.width_in_blocks
            && (n < McuWidth(f, c) ==> x + n == c.width_in_blocks)
  {
    var c := f.comps[i];
    assert ValidComp(f, c);
    MulMono(0, col, McuWidth(f, c));
    if !Single(f) {
      LastOfIs(c.width_in_blocks, c.h, f.interleaved_per_row);
      if col < f.interleaved_per_row - 1 {
        MulMono(col + 1, f.interleaved_per_row - 1, c.h);
        assert (col + 1) * c.h == col * c.h + c.h;
      }
    }
  }

  // ----- one row of an MCU -----

  // forward_DCT: real blocks of a component, into the buffer from at on.
  method ForwardDct(p: Plane, y: int, x: int, buffer: array<Block>, at: int, count: int)
    requires 0 <= y < |p| && 0 <= x && x + count <= |p[y]| && 0 <= at && 0 <= count && at + count <= buffer.Length
    modifies buffer
    ensures forall k | at <= k < at + count :: buffer[k] == p[y][x + (k - at)]
    ensures forall k | 0 <= k < buffer.Length && !(at <= k < at + count) :: buffer[k] == old(buffer[k])
  {
    for i := 0 to count
      invariant forall k | at <= k < at + i :: buffer[k] == p[y][x + (k - at)]
      invariant forall k | 0 <= k < buffer.Length && !(at <= k < at + i) :: buffer[k] == old(buffer[k])
    {
      buffer[at + i] := p[y][x + i];
    }
  }

  // The buffer from at on holds a row of an MCU.
  ghost predicate HoldsRow(buffer: array<Block>, at: int, c: Comp, p: Plane, y: int, x: int, n: int)
    requires c.h > 0 && c.width_in_blocks > 0 && c.height_in_blocks > 0 && ValidPlane(c, p) && y >= 0 && x >= 0
    requires 0 <= at && at + n <= buffer.Length
    reads buffer
  {
    forall k | at <= k < at + n :: buffer[k] == Padded(c, p, y, x + (k - at))
  }

  // A row with real blocks; the first blockcnt of w are real.
  method RealRowBlocks(c: Comp, p: Plane, y: int, x: int, w: int, blockcnt: int, buffer: array<Block>, at: int)
    requires c.h > 0 && c.width_in_blocks > 0 && c.height_in_blocks > 0 && ValidPlane(c, p)
    requires 0 <= y < c.height_in_blocks && x >= 0
    requires 0 < blockcnt <= w && 0 <= at && at + w <= buffer.Length
    requires x + blockcnt <= c.width_in_blocks && (blockcnt < w ==> x + blockcnt == c.width_in_blocks)
    modifies buffer
    ensures HoldsRow(buffer, at, c, p, y, x, w)
    ensures forall k | 0 <= k < at :: buffer[k] == old(buffer[k])
  {
    ForwardDct(p, y, x, buffer, at, blockcnt);
    if blockcnt < w {
      for bi := blockcnt to w
        invariant HoldsRow(buffer, at, c, p, y, x, bi)
        invariant forall k | 0 <= k < at :: buffer[k] == old(buffer[k])
      {
        assert buffer[at + bi - 1] == Padded(c, p, y, x + bi - 1);
        buffer[at + bi] := DcOnly(buffer[at + bi - 1][0]);
      }
    }
  }

  // A row of dummy blocks below the image, after the last block of the row above.
  method DummyRowBlocks(c: Comp, p: Plane, y: int, col: int, buffer: array<Block>, at: int)
    requires c.h > 0 && c.width_in_blocks > 0 && c.height_in_blocks > 0 && ValidPlane(c, p) && c.height_in_blocks <= y
    requires col >= 0
    requires 0 < at && at + c.h <= buffer.Length && col * c.h >= 0
    requires buffer[at - 1] == Padded(c, p, y - 1, col * c.h + c.h - 1)
    modifies buffer
    ensures HoldsRow(buffer, at, c, p, y, col * c.h, c.h)
    ensures forall k | 0 <= k < at :: buffer[k] == old(buffer[k])
  {
    for bi := 0 to c.h
      invariant HoldsRow(buffer, at, c, p, y, col * c.h, bi)
      invariant forall k | 0 <= k < at :: buffer[k] == old(buffer[k])
    {
      RowContext.QuotientIs(col * c.h + bi, c.h, col, bi);
      buffer[at + bi] := DcOnly(buffer[at - 1][0]);
    }
  }

  // ----- an MCU -----

  // The buffer starts with the given blocks.
  ghost predicate Starts(buffer: array<Block>, blocks: seq<Block>)
    reads buffer
  {
    |blocks| <= buffer.Length && buffer[..|blocks|] == blocks
  }

  lemma StartsMore(buffer: array<Block>, was: seq<Block>, x: seq<Block>, y: seq<Block>)
    requires |was| == buffer.Length && |x| <= |was| && was[..|x|] == x && |x| + |y| <= buffer.Length
    requires forall k | 0 <= k < |x| :: buffer[k] == was[k]
    requires forall k | |x| <= k < |x| + |y| :: buffer[k] == y[k - |x|]
    ensures Starts(buffer, x + y)
  {
    forall k | 0 <= k < |x + y|
      ensures buffer[..|x + y|][k] == (x + y)[k]
    {
      if k < |x| {
        assert was[..|x|][k] == x[k];
      }
    }
  }

  // A row of blocks of component i is added to the MCU; above is what its rows so far consist of.
  method AddRow(f: Frame, img: seq<Plane>, i: int, row: int, yoffset: int, col: int, yindex: int, buffer: array<Block>,
                blkn: int,
                ghost before: seq<Block>, ghost above: seq<Block>)
    requires ValidFrame(f) && ValidImage(f, img) && 0 <= i < |f.comps| && 0 <= row < f.total_iMCU_rows
    requires 0 <= yoffset < RowsIn(f, row)
    requires 0 <= col < McusPerRow(f) && 0 <= yindex < McuHeight(f, f.comps[i])
    requires Starts(buffer, before + above) && blkn == |before + above|
    requires blkn + McuWidth(f, f.comps[i]) <= buffer.Length
    requires above == CompRows(f, img, i, row, yoffset, col, yindex)
    modifies buffer
    ensures Starts(buffer, before + CompRows(f, img, i, row, yoffset, col, yindex + 1))
  {
    hide Padded, Starts, RowsOf;
    Inside(f, img, i, row, yoffset, col);
    var c := f.comps[i];
    var y, x, w := row * c.v + yoffset + yindex, col * McuWidth(f, c), McuWidth(f, c);
    RealColumns(f, i, col);
    WithinRow(f, i, row, yoffset, yindex);
    RealRow(f, c, row, yoffset + yindex);
    ghost var was := buffer[..];
    StartsIs(buffer, before + above);
    if row < f.total_iMCU_rows - 1 || yoffset + yindex < LastOf(c.height_in_blocks, c.v) {
      RealRowBlocks(c, img[i], y, x, w, BlockCount(f, c, col), buffer, blkn);
    } else {
      LastAbove(f, img, i, row, yoffset, col, yindex, buffer, before);
      DummyRowBlocks(c, img[i], y, col, buffer, blkn);
    }
    RowAdded(c, img[i], row * c.v + yoffset, x, w, yindex, buffer, was, before);
  }

  lemma StartsIs(buffer: array<Block>, blocks: seq<Block>)
    ensures Starts(buffer, blocks) <==> |blocks| <= buffer.Length && buffer[..|blocks|] == blocks
  {
  }

  // A row of an MCU lies within the iMCU row; below the image only in interleaved MCUs.
  lemma WithinRow(f: Frame, i: int, row: int, yoffset: int, yindex: int)
    requires ValidFrame(f) && 0 <= i < |f.comps| && 0 <= row < f.total_iMCU_rows && f.comps[0].v > 0
    requires 0 <= yoffset < RowsIn(f, row) && 0 <= yindex < McuHeight(f, f.comps[i])
    ensures ValidComp(f, f.comps[i]) && 0 <= yoffset + yindex < f.comps[i].v
    ensures Single(f) && row == f.total_iMCU_rows - 1 ==>
      yoffset + yindex < LastOf(f.comps[i].height_in_blocks, f.comps[i].v)
    ensures !Single(f) ==> yoffset == 0 && McuWidth(f, f.comps[i]) == f.comps[i].h
  {
    assert ValidComp(f, f.comps[0]) && ValidComp(f, f.comps[i]);
    LastOfIs(f.comps[0].height_in_blocks, f.comps[0].v, f.total_iMCU_rows);
  }

  // The block before a dummy row is the last one of the row above in the MCU.
  lemma LastAbove(f: Frame, img: seq<Plane>, i: int, row: int, yoffset: int, col: int, yindex: int,
                  buffer: array<Block>, before: seq<Block>)
    requires ValidFrame(f) && ValidImage(f, img) && 0 <= i < |f.comps| && 0 <= row < f.total_iMCU_rows && 0 <= col
    requires f.comps[0].v > 0 && 0 <= yoffset < RowsIn(f, row) && 0 <= yindex < McuHeight(f, f.comps[i]) && !Single(f)
    requires yoffset == 0
    requires row == f.total_iMCU_rows - 1 && f.comps[i].v > 0
    requires yindex >= LastOf(f.comps[i].height_in_blocks, f.comps[i].v) > 0
    requires Starts(buffer, before + CompRows(f, img, i, row, yoffset, col, yindex))
    ensures var c := f.comps[i];
            var at := |before + CompRows(f, img, i, row, yoffset, col, yindex)|;
            && ValidComp(f, c) && ValidPlane(c, img[i]) && col * c.h >= 0 && row * c.v >= 0
            && 0 < at <= buffer.Length && row * c.v + yoffset + yindex >= 1
            && buffer[at - 1] == Padded(c, img[i], row * c.v + yoffset + yindex - 1, col * c.h + c.h - 1)
  {
    hide Padded;
    Inside(f, img, i, row, yoffset, col);
    var c := f.comps[i];
    var x := RowsOf(c, img[i], row * c.v + yoffset, col * c.h, c.h, yindex);
    var above, last := RowsOf(c, img[i], row * c.v + yoffset, col * c.h, c.h, yindex - 1),
        RowOf(c, img[i], row * c.v + yoffset + yindex - 1, col * c.h, c.h);
    assert x == above + last;
    var at := |before + x|;
    assert buffer[at - 1] == buffer[..at][at - 1] == (before + x)[at - 1] == x[|x| - 1] == last[c.h - 1];
  }

  lemma RowAdded(c: Comp, p: Plane, y: int, x: int, w: int, n: int, buffer: array<Block>, was: seq<Block>,
                 before: seq<Block>)
    requires c.h > 0 && c.width_in_blocks > 0 && c.height_in_blocks > 0 && ValidPlane(c, p) && y >= 0 && x >= 0
    requires w >= 0 && n >= 0
    requires var at := |before + RowsOf(c, p, y, x, w, n)|;
             && at + w <= buffer.Length == |was| && was[..at] == before + RowsOf(c, p, y, x, w, n)
             && (forall k | 0 <= k < at :: buffer[k] == was[k]) && HoldsRow(buffer, at, c, p, y + n, x, w)
    ensures Starts(buffer, before + RowsOf(c, p, y, x, w, n + 1))
  {
    hide Padded;
    var above, last := RowsOf(c, p, y, x, w, n), RowOf(c, p, y + n, x, w);
    StartsMore(buffer, was, before + above, last);
    assert before + RowsOf(c, p, y, x, w, n + 1) == before + above + last;
  }

  // All the blocks of an MCU; the result is their number.
  method BuildMcu(f: Frame, img: seq<Plane>, row: int, yoffset: int, col: int, buffer: array<Block>) returns (blkn: int)
    requires ValidFrame(f) && ValidImage(f, img) && 0 <= row < f.total_iMCU_rows && f.comps[0].v > 0
    requires 0 <= yoffset < RowsIn(f, row)
    requires 0 <= col < McusPerRow(f) && BlocksIn(f, |f.comps|) <= buffer.Length
    modifies buffer
    ensures blkn == |McuAt(f, img, row, yoffset, col)| && Starts(buffer, McuAt(f, img, row, yoffset, col))
  {
    hide Padded, Starts, RowsOf, BlocksIn;
    blkn := 0;
    StartsIs(buffer, []);
    for ci := 0 to |f.comps|
      invariant blkn == |McuBlocks(f, img, row, yoffset, col, ci)|
      invariant Starts(buffer, McuBlocks(f, img, row, yoffset, col, ci))
    {
      Inside(f, img, ci, row, yoffset, col);
      var c := f.comps[ci];
      BlocksCount(f, img, row, yoffset, col, ci + 1);
      BlocksGrow(f, ci + 1, |f.comps|);
      ghost var before := McuBlocks(f, img, row, yoffset, col, ci);
      NoRows(f, img, ci, row, yoffset, col, before);
      for yindex := 0 to McuHeight(f, c)
        invariant blkn == |before + CompRows(f, img, ci, row, yoffset, col, yindex)|
        invariant Starts(buffer, before + CompRows(f, img, ci, row, yoffset, col, yindex))
      {
        RowFits(f, img, ci, row, yoffset, col, yindex);
        AddRow(f, img, ci, row, yoffset, col, yindex, buffer, blkn, before,
               CompRows(f, img, ci, row, yoffset, col, yindex));
        blkn := blkn + McuWidth(f, c);
      }
    }
  }

  lemma NoRows(f: Frame, img: seq<Plane>, i: int, row: int, yoffset: int, col: int, before: seq<Block>)
    requires ValidFrame(f) && ValidImage(f, img) && 0 <= i < |f.comps| && row >= 0 && yoffset >= 0 && col >= 0
    ensures before + CompRows(f, img, i, row, yoffset, col, 0) == before
  {
  }

  lemma RowFits(f: Frame, img: seq<Plane>, i: int, row: int, yoffset: int, col: int, n: int)
    requires ValidFrame(f) && ValidImage(f, img) && 0 <= i < |f.comps| && row >= 0 && yoffset >= 0 && col >= 0
    requires 0 <= n < McuHeight(f, f.comps[i])
    ensures var w := McuWidth(f, f.comps[i]);
            && |CompRows(f, img, i, row, yoffset, col, n + 1)| == |CompRows(f, img, i, row, yoffset, col, n)| + w
            && |CompRows(f, img, i, row, yoffset, col, n)|
                + w <= |CompRows(f, img, i, row, yoffset, col, McuHeight(f, f.comps[i]))|
  {
    hide RowsOf;
    Inside(f, img, i, row, yoffset, col);
    var c := f.comps[i];
    var y, x, w, m := row * c.v + yoffset, col * McuWidth(f, c), McuWidth(f, c), McuHeight(f, c);
    RowsCount(c, img[i], y, x, w, n);
    RowsCount(c, img[i], y, x, w, n + 1);
    RowsCount(c, img[i], y, x, w, m);
    MulMono(n + 1, m, w);
    assert (n + 1) * w == n * w + w;
  }

  // ----- the coefficient arrays -----

  // The virtual array of a component, padded to whole MCUs.
  ghost predicate ArrayFor(f: Frame, c: Comp, a: array2<Block>) {
    a.Length0 == f.total_iMCU_rows * c.v && a.Length1 == f.interleaved_per_row * c.h
  }

  // Rows from..to-1 of the array hold the component's blocks, dummy ones included.
  ghost predicate HoldsRows(f: Frame, c: Comp, p: Plane, a: array2<Block>, from: int, to: int)
    requires ValidComp(f, c) && ValidPlane(c, p) && 0 <= from && to <= a.Length0
    reads a
  {
    forall y, x | from <= y < to && 0 <= x < a.Length1 :: a[y, x] == Padded(c, p, y, x)
  }

  // One row with real blocks, and dummy blocks at the right edge.
  method FillRealRow(f: Frame, c: Comp, p: Plane, a: array2<Block>, y: int)
    requires ValidComp(f, c) && ValidPlane(c, p) && ArrayFor(f, c, a) && 0 <= y < a.Length0 && y < c.height_in_blocks
    modifies a
    ensures forall x | 0 <= x < a.Length1 :: a[y, x] == Padded(c, p, y, x)
    ensures forall i, x | 0 <= i < a.Length0 && i != y && 0 <= x < a.Length1 :: a[i, x] == old(a[i, x])
  {
    var blocks_across := c.width_in_blocks;
    DummyCount(f, c);
    var ndummy := blocks_across % c.h;
    if ndummy > 0 {
      ndummy := c.h - ndummy;
    }
    for x := 0 to blocks_across
      invariant forall j | 0 <= j < x :: a[y, j] == Padded(c, p, y, j)
      invariant forall i, j | 0 <= i < a.Length0 && i != y && 0 <= j < a.Length1 :: a[i, j] == old(a[i, j])
    {
      a[y, x] := p[y][x];
    }
    if ndummy > 0 {
      var lastDC := a[y, blocks_across - 1][0];
      for bi := 0 to ndummy
        invariant forall j | 0 <= j < blocks_across + bi :: a[y, j] == Padded(c, p, y, j)
        invariant forall j | blocks_across - 1 <= j < blocks_across + bi :: a[y, j][0] == lastDC
        invariant forall i, j | 0 <= i < a.Length0 && i != y && 0 <= j < a.Length1 :: a[i, j] == old(a[i, j])
      {
        a[y, blocks_across + bi] := DcOnly(lastDC);
        assert Padded(c, p, y, blocks_across + bi - 1)[0] == lastDC;
      }
    }
  }

  lemma DummyCount(f: Frame, c: Comp)
    requires ValidComp(f, c)
    ensures c.width_in_blocks + (if c.width_in_blocks % c.h > 0 then c.h - c.width_in_blocks % c.h else 0)
        == f.interleaved_per_row * c.h
    ensures c.width_in_blocks % c.h >= 0
  {
    LastOfIs(c.width_in_blocks, c.h, f.interleaved_per_row);
    assert f.interleaved_per_row * c.h == (f.interleaved_per_row - 1) * c.h + c.h;
  }

  // A row of dummy blocks below the image, MCU by MCU.
  method FillDummyRow(f: Frame, c: Comp, p: Plane, a: array2<Block>, y: int)
    requires ValidComp(f, c) && ValidPlane(c, p) && ArrayFor(f, c, a) && c.height_in_blocks <= y < a.Length0
    requires HoldsRows(f, c, p, a, y - 1, y)
    modifies a
    ensures forall x | 0 <= x < a.Length1 :: a[y, x] == Padded(c, p, y, x)
    ensures forall i, x | 0 <= i < a.Length0 && i != y && 0 <= x < a.Length1 :: a[i, x] == old(a[i, x])
  {
    hide Padded, ArrayFor;
    assert a.Length1 == f.interleaved_per_row * c.h by {
      ArrayIs(f, c, a);
    }
    for MCUindex := 0 to f.interleaved_per_row
      invariant forall j | 0 <= j < MCUindex * c.h && j < a.Length1 :: a[y, j] == Padded(c, p, y, j)
      invariant forall i, j | 0 <= i < a.Length0 && i != y && 0 <= j < a.Length1 :: a[i, j] == old(a[i, j])
    {
      var start := MCUindex * c.h;
      MulMono(0, MCUindex, c.h);
      MulMono(MCUindex + 1, f.interleaved_per_row, c.h);
      assert (MCUindex + 1) * c.h == start + c.h;
      var lastDC := a[y - 1, start + c.h - 1][0];
      for bi := 0 to c.h
        invariant forall j | 0 <= j < start + bi :: a[y, j] == Padded(c, p, y, j)
        invariant forall i, j | 0 <= i < a.Length0 && i != y && 0 <= j < a.Length1 :: a[i, j] == old(a[i, j])
      {
        BottomIs(c, p, y, MCUindex, bi);
        a[y, start + bi] := DcOnly(lastDC);
      }
    }
  }

  lemma ArrayIs(f: Frame, c: Comp, a: array2<Block>)
    requires ArrayFor(f, c, a)
    ensures a.Length0 == f.total_iMCU_rows * c.v && a.Length1 == f.interleaved_per_row * c.h
  {
  }

  lemma BottomIs(c: Comp, p: Plane, y: int, col: int, bi: int)
    requires c.h > 0 && c.width_in_blocks > 0 && c.height_in_blocks > 0 && ValidPlane(c, p) && c.height_in_blocks <= y
    requires 0 <= col && 0 <= bi < c.h
    ensures col * c.h >= 0 && Padded(c, p, y, col * c.h + bi) == DcOnly(Padded(c, p, y - 1, col * c.h + c.h - 1)[0])
  {
    MulMono(0, col, c.h);
    RowContext.QuotientIs(col * c.h + bi, c.h, col, bi);
  }

  // The rows of a component in an iMCU row.
  method FillComp(f: Frame, c: Comp, p: Plane, a: array2<Block>, row: int)
    requires ValidComp(f, c) && ValidPlane(c, p) && ArrayFor(f, c, a) && 0 <= row < f.total_iMCU_rows
    modifies a
    ensures 0 <= row * c.v && row * c.v + c.v <= a.Length0 && HoldsRows(f, c, p, a, row * c.v, row * c.v + c.v)
    ensures forall y, x | 0 <= y < row * c.v && 0 <= x < a.Length1 :: a[y, x] == old(a[y, x])
  {
    hide Padded;
    MulMono(0, row, c.v);
    MulMono(row + 1, f.total_iMCU_rows, c.v);
    assert (row + 1) * c.v == row * c.v + c.v;
    var base, block_rows := row * c.v, c.v;
    if row >= f.total_iMCU_rows - 1 {
      block_rows := c.height_in_blocks % c.v;
      if block_rows == 0 {
        block_rows := c.v;
      }
    }
    RealRow(f, c, row, 0);
    for block_row := 0 to block_rows
      invariant HoldsRows(f, c, p, a, base, base + block_row)
      invariant forall y, x | 0 <= y < base && 0 <= x < a.Length1 :: a[y, x] == old(a[y, x])
    {
      RealRow(f, c, row, block_row);
      FillRealRow(f, c, p, a, base + block_row);
    }
    if row == f.total_iMCU_rows - 1 {
      for block_row := block_rows to c.v
        invariant HoldsRows(f, c, p, a, base, base + block_row)
        invariant forall y, x | 0 <= y < base && 0 <= x < a.Length1 :: a[y, x] == old(a[y, x])
      {
        RealRow(f, c, row, block_row);
        FillDummyRow(f, c, p, a, base + block_row);
      }
    }
  }

  // The array holds the first n iMCU rows.
  ghost predicate FullTo(f: Frame, c: Comp, p: Plane, a: array2<Block>, n: int)
    reads a
  {
    && ValidComp(f, c) && ValidPlane(c, p) && ArrayFor(f, c, a)
    && 0 <= n * c.v <= a.Length0 && HoldsRows(f, c, p, a, 0, n * c.v)
  }

  method FillNext(f: Frame, c: Comp, p: Plane, a: array2<Block>, row: int)
    requires FullTo(f, c, p, a, row) && 0 <= row < f.total_iMCU_rows
    modifies a
    ensures FullTo(f, c, p, a, row + 1)
  {
    hide Padded;
    FillComp(f, c, p, a, row);
    assert (row + 1) * c.v == row * c.v + c.v;
  }

  lemma FullHolds(f: Frame, c: Comp, p: Plane, a: array2<Block>, n: int, row: int)
    requires FullTo(f, c, p, a, n) && 0 <= row < n
    ensures ArrayHolds(f, c, p, a, row) && FullTo(f, c, p, a, row)
  {
    hide Padded;
    MulMono(0, row, c.v);
    MulMono(row + 1, n, c.v);
    assert (row + 1) * c.v == row * c.v + c.v;
  }

  // ----- compress_output: an MCU from the arrays -----

  // The arrays hold an iMCU row.
  ghost predicate ArraysHold(f: Frame, img: seq<Plane>, arrays: seq<array2<Block>>, row: int)
    requires ValidFrame(f) && ValidImage(f, img)
    reads arrays
  {
    && |arrays| == |f.comps|
    && forall i | 0 <= i < |arrays| :: ArrayHolds(f, f.comps[i], img[i], arrays[i], row)
  }

  ghost predicate ArrayHolds(f: Frame, c: Comp, p: Plane, a: array2<Block>, row: int)
    reads a
  {
    && ValidComp(f, c) && ValidPlane(c, p) && ArrayFor(f, c, a)
    && 0 <= row * c.v && row * c.v + c.v <= a.Length0 && HoldsRows(f, c, p, a, row * c.v, row * c.v + c.v)
  }

  lemma ColumnInside(f: Frame, i: int, col: int)
    requires ValidFrame(f) && 0 <= i < |f.comps| && 0 <= col < McusPerRow(f)
    ensures var c := f.comps[i];
            0 <= col * McuWidth(f, c) && col * McuWidth(f, c) + McuWidth(f, c) <= f.interleaved_per_row * c.h
  {
    var c := f.comps[i];
    assert ValidComp(f, c);
    MulMono(0, col, McuWidth(f, c));
    if !Single(f) {
      MulMono(col + 1, f.interleaved_per_row, c.h);
      assert (col + 1) * c.h == col * c.h + c.h;
    }
  }

  method FetchRow(f: Frame, img: seq<Plane>, i: int, row: int, yoffset: int, col: int, yindex: int,
                  array_i: array2<Block>,
                  buffer: array<Block>, blkn: int, ghost before: seq<Block>)
    requires ValidFrame(f) && ValidImage(f, img) && 0 <= i < |f.comps| && 0 <= row < f.total_iMCU_rows
    requires f.comps[0].v > 0
    requires 0 <= yoffset < RowsIn(f, row) && 0 <= col < McusPerRow(f) && 0 <= yindex < McuHeight(f, f.comps[i])
    requires ArrayHolds(f, f.comps[i], img[i], array_i, row)
    requires Starts(buffer, before + CompRows(f, img, i, row, yoffset, col, yindex))
    requires blkn == |before + CompRows(f, img, i, row, yoffset, col, yindex)|
    requires blkn + McuWidth(f, f.comps[i]) <= buffer.Length
    modifies buffer
    ensures Starts(buffer, before + CompRows(f, img, i, row, yoffset, col, yindex + 1))
  {
    hide Padded, Starts, RowsOf;
    Inside(f, img, i, row, yoffset, col);
    var c := f.comps[i];
    var y, start_col, w := row * c.v + yindex + yoffset, col * McuWidth(f, c), McuWidth(f, c);
    WithinRow(f, i, row, yoffset, yindex);
    ColumnInside(f, i, col);
    ghost var was := buffer[..];
    StartsIs(buffer, before + CompRows(f, img, i, row, yoffset, col, yindex));
    for xindex := 0 to McuWidth(f, c)
      invariant HoldsRow(buffer, blkn, c, img[i], y, start_col, xindex)
      invariant forall k | 0 <= k < blkn :: buffer[k] == was[k]
    {
      buffer[blkn + xindex] := array_i[y, start_col + xindex];
    }
    RowAdded(c, img[i], row * c.v + yoffset, start_col, w, yindex, buffer, was, before);
  }

  method FetchMcu(f: Frame, img: seq<Plane>, row: int, yoffset: int, col: int, arrays: seq<array2<Block>>,
                  buffer: array<Block>)
    returns (blkn: int)
    requires ValidFrame(f) && ValidImage(f, img) && 0 <= row < f.total_iMCU_rows && f.comps[0].v > 0
    requires 0 <= yoffset < RowsIn(f, row)
    requires 0 <= col < McusPerRow(f) && BlocksIn(f, |f.comps|) <= buffer.Length && ArraysHold(f, img, arrays, row)
    modifies buffer
    ensures blkn == |McuAt(f, img, row, yoffset, col)| && Starts(buffer, McuAt(f, img, row, yoffset, col))
  {
    hide Padded, Starts, RowsOf, BlocksIn, HoldsRows;
    blkn := 0;
    StartsIs(buffer, []);
    for ci := 0 to |f.comps|
      invariant blkn == |McuBlocks(f, img, row, yoffset, col, ci)|
      invariant Starts(buffer, McuBlocks(f, img, row, yoffset, col, ci))
    {
      Inside(f, img, ci, row, yoffset, col);
      var c := f.comps[ci];
      BlocksCount(f, img, row, yoffset, col, ci + 1);
      BlocksGrow(f, ci + 1, |f.comps|);
      ghost var before := McuBlocks(f, img, row, yoffset, col, ci);
      NoRows(f, img, ci, row, yoffset, col, before);
      for yindex := 0 to McuHeight(f, c)
        invariant blkn == |before + CompRows(f, img, ci, row, yoffset, col, yindex)|
        invariant Starts(buffer, before + CompRows(f, img, ci, row, yoffset, col, yindex))
      {
        RowFits(f, img, ci, row, yoffset, col, yindex);
        FetchRow(f, img, ci, row, yoffset, col, yindex, arrays[ci], buffer, blkn, before);
        blkn := blkn + McuWidth(f, c);
      }
    }
  }

  // ----- the controller -----

  method AllocateArrays(f: Frame) returns (arrays: seq<array2<Block>>)
    requires ValidFrame(f)
    ensures |arrays| == |f.comps| && fresh(arrays) && forall i | 0 <= i < |arrays| :: ArrayFor(f, f.comps[i], arrays[i])
    ensures forall i, j | 0 <= i < j < |arrays| :: arrays[i] != arrays[j]
  {
    arrays := [];
    for ci := 0 to |f.comps|
      invariant |arrays| == ci && fresh(arrays) && forall i | 0 <= i < ci :: ArrayFor(f, f.comps[i], arrays[i])
      invariant forall i, j | 0 <= i < j < ci :: arrays[i] != arrays[j]
    {
      var c := f.comps[ci];
      assert ValidComp(f, c);
      MulMono(0, f.total_iMCU_rows, c.v);
      MulMono(0, f.interleaved_per_row, c.h);
      var a := new Block[f.total_iMCU_rows * c.v, f.interleaved_per_row * c.h]((y, x) => ZeroBlock());
      arrays := arrays + [a];
    }
  }

  // The encoder has no room for the next MCU.
  ghost predicate Refused(coder: EntropyCoder, mcus: seq<Mcu>)
    requires coder.Installed()
    reads coder, coder.Objects()
  {
    && coder.Valid() && coder.huff != null && coder.huff.suspending && |coder.taken| < |mcus|
    && ValidMcu(coder.scan, mcus[|coder.taken|]) && !coder.huff.Accepts(mcus[|coder.taken|])
  }

  class CoefController {
    const f: Frame
    const img: seq<Plane>                  // what forward_DCT makes of the image
    const MCU_buffer: array<Block>
    const whole_image: seq<array2<Block>>  // empty for a single pass
    var iMCU_row_num: int
    var mcu_ctr: int
    var MCU_vert_offset: int
    var MCU_rows_per_iMCU_row: int
    var coder: EntropyCoder

    ghost predicate Set()
      reads this
    {
      && ValidFrame(f) && ValidImage(f, img) && MCU_buffer.Length == C_MAX_BLOCKS_IN_MCU >= BlocksIn(f, |f.comps|)
      && CoderFits(coder)
      && (whole_image == [] || |whole_image| == |f.comps|)
      && (forall i | 0 <= i < |whole_image| :: ArrayFor(f, f.comps[i], whole_image[i]))
      && (forall i, j | 0 <= i < j < |whole_image| :: whole_image[i] != whole_image[j])
    }

    // An entropy coder for a scan of all components.
    ghost predicate CoderFits(e: EntropyCoder)
      requires ValidFrame(f)
    {
      && e.Installed() && |e.scan.membership| == BlocksIn(f, |f.comps|)
      && this !in e.Objects()
      && MCU_buffer !in e.Objects()
      && forall i | 0 <= i < |whole_image| :: whole_image[i] !in e.Objects()
    }

    // The MCUs of the image.
    ghost function Image(): seq<Mcu>
      requires ValidFrame(f) && ValidImage(f, img)
    {
      Through(f, img, f.total_iMCU_rows)
    }

    // The entropy coder has taken the MCUs of the image, in order, up to the counters.
    ghost predicate At(row: int, yoffset: int, col: int)
      requires Set()
      reads this, coder, coder.Objects()
    {
      && 0 <= row && 0 <= yoffset && 0 <= col && coder.Valid()
      && coder.taken == Through(f, img, row) + InRow(f, img, row, yoffset, col)
    }

    ghost predicate Valid()
      reads this, coder, coder.Objects()
    {
      && Set() && 0 <= iMCU_row_num <= f.total_iMCU_rows && 0 <= mcu_ctr < McusPerRow(f)
      && f.comps[0].v > 0
      && MCU_rows_per_iMCU_row == RowsIn(f, iMCU_row_num)
      && 0 <= MCU_vert_offset < MCU_rows_per_iMCU_row
      && At(iMCU_row_num, MCU_vert_offset, mcu_ctr)
      && (iMCU_row_num == f.total_iMCU_rows ==> mcu_ctr == 0 && MCU_vert_offset == 0)
    }

    // start_pass_coef
    constructor (f: Frame, img: seq<Plane>, need_full_buffer: bool, coder: EntropyCoder)
      requires ValidFrame(f) && ValidImage(f, img) && BlocksIn(f, |f.comps|) <= C_MAX_BLOCKS_IN_MCU
      requires coder.Installed() && coder.Valid() && coder.taken == []
      requires |coder.scan.membership| == BlocksIn(f, |f.comps|)
      ensures Valid() && this.f == f && this.img == img && this.coder == coder && iMCU_row_num == 0
      ensures if need_full_buffer then Filled(0) else whole_image == []
      ensures fresh(MCU_buffer) && fresh(whole_image)
    {
      hide McuAt, Through, InRow, BlocksIn, EntropyCoder.Valid, EntropyCoder.Installed, ValidImage, ValidComp,
        ArrayFor, FullTo;
      RowsPositive(f, 0);
      var arrays: seq<array2<Block>> := [];
      if need_full_buffer {
        arrays := AllocateArrays(f);
      }
      this.f, this.img, whole_image := f, img, arrays;
      MCU_buffer := new Block[C_MAX_BLOCKS_IN_MCU];
      this.coder := coder;
      iMCU_row_num, mcu_ctr, MCU_vert_offset := 0, 0, 0;
      MCU_rows_per_iMCU_row := RowsIn(f, 0);
      new;
      StartPlace();
      NothingFilled();
    }

    lemma StartPlace()
      requires ValidFrame(f) && ValidImage(f, img)
      ensures Through(f, img, 0) == [] && InRow(f, img, 0, 0, 0) == []
    {
    }

    lemma NothingFilled()
      requires Set()
      ensures whole_image != [] ==> Filled(0)
    {
    }

    // The coefficient arrays hold the first n iMCU rows.
    ghost predicate Filled(n: int)
      requires Set()
      reads this, whole_image
    {
      |whole_image| == |f.comps| && forall i | 0 <= i < |whole_image| :: FullTo(f, f.comps[i], img[i], whole_image[i],
                                                                                n)
    }

    lemma FilledHolds(n: int, row: int)
      requires Set() && Filled(n) && 0 <= row < n
      ensures ArraysHold(f, img, whole_image, row) && Filled(row)
    {
      hide FullTo, ArrayHolds;
      forall i | 0 <= i < |whole_image|
        ensures ArrayHolds(f, f.comps[i], img[i], whole_image[i], row)
        ensures FullTo(f, f.comps[i], img[i], whole_image[i], row)
      {
        FullHolds(f, f.comps[i], img[i], whole_image[i], n, row);
      }
    }

    // start_pass_coef, for a pass over filled arrays
    method StartPass(coder: EntropyCoder)
      requires Set() && CoderFits(coder) && coder.Valid() && coder.taken == []
      modifies this
      ensures Valid() && this.coder == coder && iMCU_row_num == 0
    {
      hide McuAt, BlocksIn, EntropyCoder.Valid, EntropyCoder.Objects, EntropyCoder.Installed, ValidImage, ValidComp;
      this.coder := coder;
      iMCU_row_num, mcu_ctr, MCU_vert_offset := 0, 0, 0;
      StartImcuRow();
    }

    // start_iMCU_row
    method StartImcuRow()
      requires Set() && 0 <= iMCU_row_num <= f.total_iMCU_rows && At(iMCU_row_num, 0, 0)
      modifies this`mcu_ctr, this`MCU_vert_offset, this`MCU_rows_per_iMCU_row
      ensures Valid() && mcu_ctr == 0 && MCU_vert_offset == 0
    {
      hide Through, McuAt, InRow, BlocksIn, EntropyCoder.Valid, EntropyCoder.Objects, EntropyCoder.Installed,
        ValidImage, ValidComp;
      RowsPositive(f, iMCU_row_num);
      if |f.comps| > 1 {
        MCU_rows_per_iMCU_row := 1;
      } else {
        if iMCU_row_num < f.total_iMCU_rows - 1 {
          MCU_rows_per_iMCU_row := f.comps[0].v;
        } else {
          MCU_rows_per_iMCU_row := LastOf(f.comps[0].height_in_blocks, f.comps[0].v);
        }
      }
      mcu_ctr := 0;
      MCU_vert_offset := 0;
    }

    lemma NextMcu(row: int, yoffset: int, col: int, mcu: seq<Block>)
      requires Set() && row >= 0 && yoffset >= 0 && col >= 0 && mcu == McuAt(f, img, row, yoffset, col)
      ensures InRow(f, img, row, yoffset, col + 1) == InRow(f, img, row, yoffset, col) + [mcu]
      ensures f.comps != [] && McusPerRow(f) > 0
      ensures InRow(f, img, row, yoffset + 1, 0) == InRow(f, img, row, yoffset, McusPerRow(f))
    {
      RowsPositive(f, row);
    }

    lemma NextRow(row: int)
      requires Set() && row >= 0
      ensures f.comps[0].v > 0
      ensures Through(f, img, row + 1) == Through(f, img, row) + InRow(f, img, row, RowsIn(f, row), 0)
      ensures InRow(f, img, row + 1, 0, 0) == []
    {
      RowsPositive(f, row);
    }

    // The next MCU is the one at the place where the coder is.
    lemma NextInImage(row: int, yoffset: int, col: int, n: int)
      requires Set() && At(row, yoffset, col) && row < f.total_iMCU_rows && f.comps[0].v > 0 && yoffset < RowsIn(f, row)
      requires col < McusPerRow(f)
      requires 0 <= n <= MCU_buffer.Length && MCU_buffer[..n] == McuAt(f, img, row, yoffset, col)
      ensures ValidMcu(coder.scan, MCU_buffer[..n])
      ensures coder.taken + [MCU_buffer[..n]] == Through(f, img, row) + InRow(f, img, row, yoffset, col + 1)
      ensures coder.taken + [MCU_buffer[..n]] <= Image()
    {
      hide McuAt, Through, InRow, BlocksIn, Padded;
      McuFits(f, img, row, yoffset, col);
      NextMcu(row, yoffset, col, MCU_buffer[..n]);
      Assoc(Through(f, img, row), InRow(f, img, row, yoffset, col), [MCU_buffer[..n]]);
      WithinImage(f, img, row, yoffset, col + 1);
    }

    // encode_mcu, for the MCU in the buffer
    method SendMcu(row: int, yoffset: int, col: int, n: int) returns (st: Status)
      requires Set() && At(row, yoffset, col) && row < f.total_iMCU_rows && f.comps[0].v > 0 && yoffset < RowsIn(f, row)
      requires col < McusPerRow(f)
      requires 0 <= n <= MCU_buffer.Length && MCU_buffer[..n] == McuAt(f, img, row, yoffset, col)
      modifies coder, coder.Objects()
      ensures Set() && (st.Done? ==> At(row, yoffset, col + 1) && old(coder.taken) <= coder.taken)
      ensures st.Suspended? ==> At(row, yoffset, col) && coder.taken == old(coder.taken) && Refused(coder, Image())
      ensures st.Failed? ==> !coder.CanTake(Image())
    {
      hide McuAt, Through, InRow, BlocksIn, Padded, EntropyCoder.CanTake, ValidMcu;
      NextInImage(row, yoffset, col, n);
      ghost var more := coder.taken + [MCU_buffer[..n]];
      assert more == Image()[..|more|];
      if coder.CanTake(Image()) {
        CanTakePrefix(coder, Image(), |more|);
      }
      st := coder.EncodeMcu(MCU_buffer[..n]);
    }

    // The loop that compress_data and compress_output share; they differ in where
    // an MCU comes from.
    method SendImcuRow(buffered: bool) returns (st: Status)
      requires Valid() && iMCU_row_num < f.total_iMCU_rows
      requires (buffered ==> ArraysHold(f, img, whole_image, iMCU_row_num))
      modifies this, MCU_buffer, coder, coder.Objects()
      ensures Set() && coder == old(coder) && Outcome(st, old(iMCU_row_num))
      ensures (!st.Failed? ==> old(coder.taken) <= coder.taken)
    {
      hide McuAt, Through, InRow, ArraysHold, Starts, BlocksIn, EntropyCoder.Valid, EntropyCoder.CanTake, Refused;
      var row := iMCU_row_num;
      var yoffset := MCU_vert_offset;
      while yoffset < MCU_rows_per_iMCU_row
        invariant Set() && row == iMCU_row_num == old(iMCU_row_num) && MCU_rows_per_iMCU_row == RowsIn(f, row)
        invariant coder == old(coder)
        invariant 0 <= yoffset <= MCU_rows_per_iMCU_row && 0 <= mcu_ctr < McusPerRow(f)
        invariant (yoffset == MCU_rows_per_iMCU_row ==> mcu_ctr == 0)
        invariant At(row, yoffset, mcu_ctr) && old(coder.taken) <= coder.taken
        invariant (buffered ==> ArraysHold(f, img, whole_image, row))
      {
        var MCU_col_num := mcu_ctr;
        while MCU_col_num < McusPerRow(f)
          invariant Set() && row == iMCU_row_num == old(iMCU_row_num) && MCU_rows_per_iMCU_row == RowsIn(f, row)
          invariant coder == old(coder)
          invariant 0 <= yoffset < MCU_rows_per_iMCU_row && 0 <= MCU_col_num <= McusPerRow(f)
          invariant At(row, yoffset, MCU_col_num) && old(coder.taken) <= coder.taken
          invariant (buffered ==> ArraysHold(f, img, whole_image, row))
        {
          var n;
          if buffered {
            n := FetchMcu(f, img, row, yoffset, MCU_col_num, whole_image, MCU_buffer);
          } else {
            n := BuildMcu(f, img, row, yoffset, MCU_col_num, MCU_buffer);
          }
          StartsIs(MCU_buffer, McuAt(f, img, row, yoffset, MCU_col_num));
          st := SendMcu(row, yoffset, MCU_col_num, n);
          if !st.Done? {
            MCU_vert_offset := yoffset;
            mcu_ctr := MCU_col_num;
            return;
          }
          MCU_col_num := MCU_col_num + 1;
        }
        mcu_ctr := 0;
        NextMcu(row, yoffset, 0, McuAt(f, img, row, yoffset, 0));
        yoffset := yoffset + 1;
      }
      NextRow(row);
      iMCU_row_num := iMCU_row_num + 1;
      ghost var all := coder.taken;
      assert all + [] == all;
      StartImcuRow();
      st := Done;
    }

    // How a call on iMCU row row has ended.
    ghost predicate Outcome(st: Status, row: int)
      requires Set()
      reads this, coder, coder.Objects()
    {
      match st
      case Done => Valid() && iMCU_row_num == row + 1
      case Suspended => Valid() && iMCU_row_num == row && Refused(coder, Image())
      case Failed(_) => !coder.CanTake(Image())
    }

    // compress_data
    method CompressData() returns (st: Status)
      requires Valid() && iMCU_row_num < f.total_iMCU_rows && whole_image == []
      modifies this, MCU_buffer, coder, coder.Objects()
      ensures Set() && coder == old(coder) && Outcome(st, old(iMCU_row_num))
      ensures (!st.Failed? ==> old(coder.taken) <= coder.taken)
    {
      st := SendImcuRow(false);
    }

    // compress_output
    method CompressOutput() returns (st: Status)
      requires Valid() && iMCU_row_num < f.total_iMCU_rows && Filled(iMCU_row_num + 1)
      modifies this, MCU_buffer, coder, coder.Objects()
      ensures Set() && coder == old(coder) && Outcome(st, old(iMCU_row_num))
      ensures (!st.Failed? ==> old(coder.taken) <= coder.taken)
    {
      hide McuAt, Through, InRow, BlocksIn, FullTo, ArrayFor, ValidComp, EntropyCoder.Valid, EntropyCoder.CanTake,
        Refused, ArraysHold;
      FilledHolds(iMCU_row_num + 1, iMCU_row_num);
      st := SendImcuRow(true);
    }

    // compress_first_pass: what a suspended call has put into the arrays is put
    // there again.
    method CompressFirstPass() returns (st: Status)
      requires Valid() && iMCU_row_num < f.total_iMCU_rows && Filled(iMCU_row_num)
      modifies this, MCU_buffer, whole_image, coder, coder.Objects()
      ensures Set() && coder == old(coder) && Outcome(st, old(iMCU_row_num))
      ensures (!st.Failed? ==> old(coder.taken) <= coder.taken)
      ensures !st.Failed? ==> Filled(iMCU_row_num)
    {
      hide McuAt, Through, InRow, BlocksIn, FullTo, ArrayFor, ValidComp, EntropyCoder.Valid, EntropyCoder.CanTake,
        Refused;
      for ci := 0 to |f.comps|
        invariant Valid() && |whole_image| == |f.comps|
        invariant forall i | 0 <= i < |whole_image| ::
          FullTo(f, f.comps[i], img[i], whole_image[i], iMCU_row_num + (if i < ci then 1 else 0))
        modifies whole_image
      {
        FillNext(f, f.comps[ci], img[ci], whole_image[ci], iMCU_row_num);
      }
      FilledHolds(iMCU_row_num + 1, iMCU_row_num);
      st := CompressOutput();
    }
  }

  // What has been sent up to a place is the beginning of the image.
  lemma WithinImage(f: Frame, img: seq<Plane>, row: int, yoffset: int, col: int)
    requires ValidFrame(f) && ValidImage(f, img) && 0 <= row < f.total_iMCU_rows && f.comps[0].v > 0
    requires 0 <= yoffset < RowsIn(f, row) && 0 <= col <= McusPerRow(f)
    ensures Through(f, img, row) + InRow(f, img, row, yoffset, col) <= Through(f, img, f.total_iMCU_rows)
  {
    hide McuAt, InRow;
    WithinRowOf(f, img, row, yoffset, col, RowsIn(f, row), 0);
    assert Through(f, img, row) + InRow(f, img, row, yoffset, col) <= Through(f, img, row + 1);
    ThroughGrows(f, img, row + 1, f.total_iMCU_rows);
  }

  lemma {:induction false} WithinRowOf(f: Frame, img: seq<Plane>, row: int, yoffset: int, col: int, y: int, c: int)
    requires ValidFrame(f) && ValidImage(f, img) && row >= 0 && 0 <= yoffset && 0 <= col <= McusPerRow(f)
    requires (yoffset < y && c >= 0) || (yoffset == y && col <= c)
    ensures InRow(f, img, row, yoffset, col) <= InRow(f, img, row, y, c)
    decreases y, c
  {
    hide McuAt;
    if (yoffset, col) != (y, c) {
      if c > 0 {
        WithinRowOf(f, img, row, yoffset, col, y, c - 1);
      } else {
        RowsPositive(f, row);
        WithinRowOf(f, img, row, yoffset, col, y - 1, McusPerRow(f));
      }
    }
  }

  lemma {:induction false} ThroughGrows(f: Frame, img: seq<Plane>, n: int, m: int)
    requires ValidFrame(f) && ValidImage(f, img) && 0 <= n <= m
    ensures Through(f, img, n) <= Through(f, img, m)
    decreases m
  {
    hide InRow;
    if n < m {
      ThroughGrows(f, img, n, m - 1);
    }
  }

  lemma McuFits(f: Frame, img: seq<Plane>, row: int, yoffset: int, col: int)
    requires ValidFrame(f) && ValidImage(f, img) && row >= 0 && yoffset >= 0 && col >= 0
    ensures |McuAt(f, img, row, yoffset, col)| == BlocksIn(f, |f.comps|)
    ensures forall i | 0 <= i < |McuAt(f, img, row, yoffset, col)| ::
      |McuAt(f, img, row, yoffset, col)[i]| == Blocks.DCTSIZE2
  {
    hide BlocksIn, McuBlocks;
    BlocksCount(f, img, row, yoffset, col, |f.comps|);
  }

  // A single pass and a pass over the coefficient arrays, whatever their
  // suspensions, have sent the same blocks when they are through: those of the image.
  lemma SameBlocks(a: CoefController, b: CoefController)
    requires a.Valid() && b.Valid() && a.f == b.f && a.img == b.img
    requires a.iMCU_row_num == b.iMCU_row_num == a.f.total_iMCU_rows
    ensures a.coder.taken == b.coder.taken == a.Image()
  {
    AllTaken(a);
    AllTaken(b);
  }

  lemma AllTaken(c: CoefController)
    requires c.Valid() && c.iMCU_row_num == c.f.total_iMCU_rows
    ensures c.coder.taken == c.Image()
  {
    hide Through, McuAt;
  }
}
