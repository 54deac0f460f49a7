// Which blocks an encoder's scan of all components consists of, dummy blocks
// at the right and bottom edges included (per_scan_setup of jcmaster.c,
// jccoefct.c).
module CoefBlocks {
  import opened Arith
  import opened Blocks
  import RowContext

  // A component: its sampling factors, and its size in blocks.
  datatype Comp = Comp(h: int, v: int, width_in_blocks: int, height_in_blocks: int)

  // The components of the image, the number of iMCU rows, and of interleaved MCUs in a row.
  datatype Frame = Frame(comps: seq<Comp>, total_iMCU_rows: int, interleaved_per_row: int)

  ghost predicate ValidComp(f: Frame, c: Comp) {
    && c.h > 0 && c.v > 0 && c.width_in_blocks > 0 && c.height_in_blocks > 0
    && (f.total_iMCU_rows - 1) * c.v < c.height_in_blocks <= f.total_iMCU_rows * c.v
    && (f.interleaved_per_row - 1) * c.h < c.width_in_blocks <= f.interleaved_per_row * c.h
  }

  ghost predicate ValidFrame(f: Frame) {
    && f.comps != [] && f.total_iMCU_rows > 0 && f.interleaved_per_row > 0
    && forall i | 0 <= i < |f.comps| :: ValidComp(f, f.comps[i])
  }

  // The dimensions as initial_setup and per_scan_setup compute them.
  function CompFor(image_width: int, image_height: int, max_h: int, max_v: int, h: int, v: int): Comp
    requires max_h > 0 && max_v > 0
  {
    Comp(h, v, RowContext.CeilDiv(image_width * h, max_h * 8), RowContext.CeilDiv(image_height * v, max_v * 8))
  }

  function FrameFor(image_width: int, image_height: int, max_h: int, max_v: int, factors: seq<(int, int)>): (f: Frame)
    requires max_h > 0 && max_v > 0
    ensures |f.comps| == |factors|
    ensures forall i | 0 <= i < |factors| ::
      f.comps[i] == CompFor(image_width, image_height, max_h, max_v, factors[i].0, factors[i].1)
  {
    Frame(seq(|factors|, i requires 0 <= i < |factors| =>
                CompFor(image_width, image_height, max_h, max_v, factors[i].0, factors[i].1)),
          RowContext.CeilDiv(image_height, max_v * 8), RowContext.CeilDiv(image_width, max_h * 8))
  }

  lemma Swap(a: int, b: int, c: int)
    ensures a * b * c == a * c * b
  {
  }

  lemma CeilUpper(size: int, n: int, full: int, q: int, w: int)
    requires n > 0 && full > 0 && size <= q * full && (w - 1) * full < size * n
    ensures w <= q * n
  {
    Swap(q, full, n);
    MulMono(size, q * full, n);
    if w > q * n {
      MulMono(q * n, w - 1, full);
    }
  }

  lemma CeilLower(size: int, n: int, full: int, q: int, w: int)
    requires n > 0 && full > 0 && q * full < size && size * n <= w * full
    ensures q * n < w
  {
    Swap(q, full, n);
    MulMono(q * full + 1, size, n);
    assert (q * full + 1) * n == q * full * n + n;
    if w <= q * n {
      MulMono(w, q * n, full);
    }
  }

  lemma CeilPositive(x: int, d: int)
    requires x > 0 && d > 0
    ensures RowContext.CeilDiv(x, d) > 0
  {
    RowContext.CeilBounds(x, d);
    if RowContext.CeilDiv(x, d) <= 0 {
      MulMono(RowContext.CeilDiv(x, d), 0, d);
    }
  }

  // A component's blocks fill the interleaved MCUs, but for dummy blocks in the last one.
  lemma CeilScaled(size: int, n: int, full: int)
    requires size > 0 && n > 0 && full > 0
    ensures var q, w := RowContext.CeilDiv(size, full), RowContext.CeilDiv(size * n, full);
            q > 0 && w > 0 && (q - 1) * n < w <= q * n
  {
    hide RowContext.CeilDiv;
    MulMono(1, size, n);
    var q, w := RowContext.CeilDiv(size, full), RowContext.CeilDiv(size * n, full);
    RowContext.CeilBounds(size, full);
    RowContext.CeilBounds(size * n, full);
    CeilPositive(size, full);
    CeilPositive(size * n, full);
    CeilUpper(size, n, full, q, w);
    CeilLower(size, n, full, q - 1, w);
  }

  lemma FrameValid(image_width: int, image_height: int, max_h: int, max_v: int, factors: seq<(int, int)>)
    requires image_width > 0 && image_height > 0 && max_h > 0 && max_v > 0 && factors != []
    requires forall i | 0 <= i < |factors| :: factors[i].0 > 0 && factors[i].1 > 0
    ensures ValidFrame(FrameFor(image_width, image_height, max_h, max_v, factors))
  {
    hide RowContext.CeilDiv;
    var f := FrameFor(image_width, image_height, max_h, max_v, factors);
    CeilScaled(image_width, 1, max_h * 8);
    CeilScaled(image_height, 1, max_v * 8);
    forall i | 0 <= i < |factors|
      ensures ValidComp(f, f.comps[i])
    {
      CeilScaled(image_width, factors[i].0, max_h * 8);
      CeilScaled(image_height, factors[i].1, max_v * 8);
    }
  }

  // ----- MCUs -----

  predicate Single(f: Frame) {
    |f.comps| == 1
  }

  function McusPerRow(f: Frame): int
    requires f.comps != []
  {
    if Single(f) then f.comps[0].width_in_blocks else f.interleaved_per_row
  }

  function McuWidth(f: Frame, c: Comp): int {
    if Single(f) then 1 else c.h
  }

  function McuHeight(f: Frame, c: Comp): int {
    if Single(f) then 1 else c.v
  }

  function LastOf(n: int, d: int): int
    requires d > 0
  {
    if n % d == 0 then d else n % d
  }

  // MCU rows in an iMCU row.
  function RowsIn(f: Frame, row: int): int
    requires f.comps != [] && f.comps[0].v > 0
  {
    if !Single(f) then 1
    else if row < f.total_iMCU_rows - 1 then f.comps[0].v
    else LastOf(f.comps[0].height_in_blocks, f.comps[0].v)
  }

  // ----- blocks -----

  // The real blocks of a component, by row and column.
  type Plane = seq<seq<Block>>

  ghost predicate ValidPlane(c: Comp, p: Plane) {
    |p| == c.height_in_blocks
    && forall y | 0 <= y < |p| :: |p[y]| == c.width_in_blocks && forall x | 0 <= x < |p[y]| :: |p[y][x]| == DCTSIZE2
  }

  ghost predicate ValidImage(f: Frame, img: seq<Plane>) {
    |img| == |f.comps| && forall i | 0 <= i < |img| :: ValidPlane(f.comps[i], img[i])
  }

  // A dummy block.
  function DcOnly(v: Coef): (b: Block)
    ensures |b| == DCTSIZE2 && b[0] == v
  {
    ZeroBlock()[0 := v]
  }

  // Block x of block row y. A dummy block at the right edge has the DC value of
  // the block before it; one at the bottom that of the last block of the row
  // above within its MCU.
  function Padded(c: Comp, p: Plane, y: int, x: int): (b: Block)
    requires c.h > 0 && c.width_in_blocks > 0 && c.height_in_blocks > 0
    requires |p| == c.height_in_blocks
    requires forall i | 0 <= i < |p| ::
      |p[i]| == c.width_in_blocks && forall j | 0 <= j < |p[i]| :: |p[i][j]| == DCTSIZE2
    requires y >= 0 && x >= 0
    ensures |b| == DCTSIZE2
    decreases y, x
  {
    if y < c.height_in_blocks then
      if x < c.width_in_blocks then p[y][x] else DcOnly(Padded(c, p, y, x - 1)[0])
    else
      assert x / c.h * c.h + c.h - 1 >= 0 by { Quotients(x, c.h); }
      DcOnly(Padded(c, p, y - 1, x / c.h * c.h + c.h - 1)[0])
  }

  lemma Quotients(x: int, d: int)
    requires d > 0 && x >= 0
    ensures 0 <= x / d * d <= x < x / d * d + d
  {
    assert x == x / d * d + x % d;
    if x / d < 0 {
      MulMono(x / d, -1, d);
    }
  }

  // A row of n blocks of an MCU.
  ghost function RowOf(c: Comp, p: Plane, y: int, x: int, n: int): (r: seq<Block>)
    requires c.h > 0 && c.width_in_blocks > 0 && c.height_in_blocks > 0 && ValidPlane(c, p) && y >= 0 && x >= 0
    requires n >= 0
    ensures |r| == n && forall i | 0 <= i < n :: r[i] == Padded(c, p, y, x + i)
  {
    seq(n, i requires 0 <= i < n => Padded(c, p, y, x + i))
  }

  // n such rows.
  ghost function RowsOf(c: Comp, p: Plane, y: int, x: int, w: int, n: int): (r: seq<Block>)
    requires c.h > 0 && c.width_in_blocks > 0 && c.height_in_blocks > 0 && ValidPlane(c, p) && y >= 0 && x >= 0
    requires w >= 0 && n >= 0
    decreases n
  {
    if n == 0 then [] else RowsOf(c, p, y, x, w, n - 1) + RowOf(c, p, y + n - 1, x, w)
  }

  lemma Inside(f: Frame, img: seq<Plane>, i: int, row: int, yoffset: int, col: int)
    requires ValidFrame(f) && ValidImage(f, img) && 0 <= i < |f.comps| && row >= 0 && yoffset >= 0 && col >= 0
    ensures var c := f.comps[i];
            && ValidComp(f, c) && ValidPlane(c, img[i]) && row * c.v + yoffset >= 0 && col * McuWidth(f, c) >= 0
            && McuWidth(f, c) > 0 && McuHeight(f, c) > 0
  {
    assert ValidComp(f, f.comps[i]);
    MulMono(0, row, f.comps[i].v);
    MulMono(0, col, McuWidth(f, f.comps[i]));
  }

  // n rows of the blocks of component i in an MCU.
  ghost function CompRows(f: Frame, img: seq<Plane>, i: int, row: int, yoffset: int, col: int, n: int): seq<Block>
    requires ValidFrame(f) && ValidImage(f, img) && 0 <= i < |f.comps| && row >= 0 && yoffset >= 0 && col >= 0 && n >= 0
  {
    Inside(f, img, i, row, yoffset, col);
    var c := f.comps[i];
    RowsOf(c, img[i], row * c.v + yoffset, col * McuWidth(f, c), McuWidth(f, c), n)
  }

  // The blocks of the first n components of an MCU.
  ghost function McuBlocks(f: Frame, img: seq<Plane>, row: int, yoffset: int, col: int, n: int): seq<Block>
    requires ValidFrame(f) && ValidImage(f, img) && row >= 0 && yoffset >= 0 && col >= 0 && 0 <= n <= |f.comps|
    decreases n
  {
    if n == 0 then []
    else
      Inside(f, img, n - 1, row, yoffset, col);
      McuBlocks(f, img, row, yoffset, col, n - 1)
          + CompRows(f, img, n - 1, row, yoffset, col, McuHeight(f, f.comps[n - 1]))
  }

  ghost function McuAt(f: Frame, img: seq<Plane>, row: int, yoffset: int, col: int): seq<Block>
    requires ValidFrame(f) && ValidImage(f, img) && row >= 0 && yoffset >= 0 && col >= 0
  {
    McuBlocks(f, img, row, yoffset, col, |f.comps|)
  }

  lemma RowsPositive(f: Frame, row: int)
    requires ValidFrame(f)
    ensures f.comps[0].v > 0 && RowsIn(f, row) > 0 && McusPerRow(f) > 0
  {
    assert ValidComp(f, f.comps[0]);
  }

  // The first n MCU rows of an iMCU row, and col MCUs of the next one.
  ghost function InRow(f: Frame, img: seq<Plane>, row: int, yoffset: int, col: int): seq<seq<Block>>
    requires ValidFrame(f) && ValidImage(f, img) && row >= 0 && yoffset >= 0 && col >= 0
    decreases yoffset, col
  {
    if col > 0 then InRow(f, img, row, yoffset, col - 1) + [McuAt(f, img, row, yoffset, col - 1)]
    else if yoffset > 0 then RowsPositive(f, row); InRow(f, img, row, yoffset - 1, McusPerRow(f))
    else []
  }

  // The MCUs of the first n iMCU rows.
  ghost function Through(f: Frame, img: seq<Plane>, n: int): seq<seq<Block>>
    requires ValidFrame(f) && ValidImage(f, img) && n >= 0
    decreases n
  {
    if n == 0 then [] else RowsPositive(f, n - 1); Through(f, img, n - 1) + InRow(f, img, n - 1, RowsIn(f, n - 1), 0)
  }
}
