// Which block stands where in an MCU (jccoefct.c), real and dummy.
module CoefLaws {
  import opened Arith
  import opened Blocks
  import opened CoefBlocks
  import opened CoefOutput

  lemma {:induction false} RowsAt(c: Comp, p: Plane, y: int, x: int, w: int, n: int, i: int, j: int)
    requires c.h > 0 && c.width_in_blocks > 0 && c.height_in_blocks > 0 && ValidPlane(c, p) && y >= 0 && x >= 0
    requires 0 <= i < n && 0 <= j < w
    ensures 0 <= i * w + j < |RowsOf(c, p, y, x, w, n)|
    ensures RowsOf(c, p, y, x, w, n)[i * w + j] == Padded(c, p, y + i, x + j)
    decreases n
  {
    hide Padded;
    RowsCount(c, p, y, x, w, n - 1);
    MulMono(0, i, w);
    MulMono(i + 1, n, w);
    assert (i + 1) * w == i * w + w && (n - 1) * w == n * w - w;
    RowsCount(c, p, y, x, w, n);
    if i < n - 1 {
      MulMono(i + 1, n - 1, w);
      RowsAt(c, p, y, x, w, n - 1, i, j);
    }
  }

  // The blocks of component i follow those of the components before it.
  lemma {:induction false} CompAt(f: Frame, img: seq<Plane>, row: int, yoffset: int, col: int, i: int, n: int)
    requires ValidFrame(f) && ValidImage(f, img) && row >= 0 && yoffset >= 0 && col >= 0 && 0 <= i < n <= |f.comps|
    ensures var m := McuBlocks(f, img, row, yoffset, col, n);
            var r := CompRows(f, img, i, row, yoffset, col, McuHeight(f, f.comps[i]));
            0 <= BlocksIn(f, i) && BlocksIn(f, i) + |r| <= |m| && m[BlocksIn(f, i)..BlocksIn(f, i) + |r|] == r
    decreases n
  {
    hide RowsOf, BlocksIn;
    BlocksCount(f, img, row, yoffset, col, n - 1);
    BlocksCount(f, img, row, yoffset, col, i);
    if i < n - 1 {
      CompAt(f, img, row, yoffset, col, i, n - 1);
    }
  }

  // Block (y, x) of component i in an MCU.
  lemma BlockAt(f: Frame, img: seq<Plane>, row: int, yoffset: int, col: int, i: int, y: int, x: int)
    requires ValidFrame(f) && ValidImage(f, img) && row >= 0 && yoffset >= 0 && col >= 0 && 0 <= i < |f.comps|
    requires 0 <= y < McuHeight(f, f.comps[i]) && 0 <= x < McuWidth(f, f.comps[i])
    ensures var c, k := f.comps[i], BlocksIn(f, i) + y * McuWidth(f, f.comps[i]) + x;
            && ValidComp(f, c) && ValidPlane(c, img[i]) && row * c.v + yoffset >= 0 && col * McuWidth(f, c) >= 0
            && 0 <= k < |McuAt(f, img, row, yoffset, col)|
            && McuAt(f, img, row, yoffset, col)[k]
               == Padded(c, img[i], row * c.v + yoffset + y, col * McuWidth(f, c) + x)
  {
    hide RowsOf, BlocksIn, Padded;
    Inside(f, img, i, row, yoffset, col);
    var c := f.comps[i];
    CompAt(f, img, row, yoffset, col, i, |f.comps|);
    RowsAt(c, img[i], row * c.v + yoffset, col * McuWidth(f, c), McuWidth(f, c), McuHeight(f, c), y, x);
    var r := CompRows(f, img, i, row, yoffset, col, McuHeight(f, c));
    var k := BlocksIn(f, i);
    assert McuAt(f, img, row, yoffset, col)[k..k + |r|][y * McuWidth(f, c) + x] == r[y * McuWidth(f, c) + x];
  }

  // Within the component a block of an MCU is the real one; beyond its edges the
  // block is a dummy: its AC coefficients are zero, and its DC value is that of
  // the block before it in the MCU, so that no difference has to be sent.
  lemma McuContent(f: Frame, img: seq<Plane>, row: int, yoffset: int, col: int, i: int, y: int, x: int)
    requires ValidFrame(f) && ValidImage(f, img) && 0 <= row < f.total_iMCU_rows && 0 <= col < McusPerRow(f)
    requires 0 <= i < |f.comps| && f.comps[0].v > 0 && 0 <= yoffset < RowsIn(f, row)
    requires 0 <= y < McuHeight(f, f.comps[i]) && 0 <= x < McuWidth(f, f.comps[i])
    ensures var c, m := f.comps[i], McuAt(f, img, row, yoffset, col);
            var Y, X, k := row * c.v + yoffset + y, col * McuWidth(f, c) + x, BlocksIn(f, i) + y * McuWidth(f, c) + x;
            && 0 <= k < |m| && |m[k]| == DCTSIZE2
            && if Y < c.height_in_blocks && X < c.width_in_blocks then
                 0 <= Y < |img[i]| && 0 <= X < |img[i][Y]| && m[k] == img[i][Y][X]
               else
                 && y + x > 0 && k > 0 && |m[k - 1]| == DCTSIZE2 && m[k][0] == m[k - 1][0]
                 && forall j | 0 < j < DCTSIZE2 :: m[k][j] == 0
  {
    hide RowsOf, BlocksIn, McuBlocks, RowsIn;
    Inside(f, img, i, row, yoffset, col);
    var c := f.comps[i];
    var p, w, Y, X := img[i], McuWidth(f, c), row * c.v + yoffset + y, col * McuWidth(f, c) + x;
    BlockAt(f, img, row, yoffset, col, i, y, x);
    if Y >= c.height_in_blocks || X >= c.width_in_blocks {
      WithinRow(f, i, row, yoffset, y);
      WithinRow(f, i, row, yoffset, 0);
      RealColumns(f, i, col);
      RealRow(f, c, row, yoffset + y);
      RealRow(f, c, row, yoffset);
      if Y < c.height_in_blocks {
        RightEdge(c, p, Y, X);
        BlockAt(f, img, row, yoffset, col, i, y, x - 1);
      } else {
        BottomIs(c, p, Y, col, x);
        if x > 0 {
          BottomIs(c, p, Y, col, x - 1);
          BlockAt(f, img, row, yoffset, col, i, y, x - 1);
        } else {
          BlockAt(f, img, row, yoffset, col, i, y - 1, w - 1);
          assert (y - 1) * w + (w - 1) == y * w - 1;
        }
      }
    } else {
      RealIs(c, p, Y, X);
    }
  }

  lemma RealIs(c: Comp, p: Plane, y: int, x: int)
    requires c.h > 0 && 0 <= y < c.height_in_blocks && 0 <= x < c.width_in_blocks && ValidPlane(c, p)
    ensures Padded(c, p, y, x) == p[y][x] && y < |p| && x < |p[y]|
  {
  }

  lemma RightEdge(c: Comp, p: Plane, y: int, x: int)
    requires c.h > 0 && 0 <= y < c.height_in_blocks && x >= c.width_in_blocks > 0 && ValidPlane(c, p)
    ensures Padded(c, p, y, x) == DcOnly(Padded(c, p, y, x - 1)[0])
  {
  }

  // ----- the order of the MCUs -----

  lemma {:induction false} RowPlace(f: Frame, img: seq<Plane>, row: int, yoffset: int, col: int, j: int, k: int)
    requires ValidFrame(f) && ValidImage(f, img)
    requires row >= 0 && 0 <= yoffset && 0 <= col <= McusPerRow(f) && 0 <= j && 0 <= k
    requires (j < yoffset && k < McusPerRow(f)) || (j == yoffset && k < col)
    ensures var i := j * McusPerRow(f) + k;
            && |InRow(f, img, row, yoffset, col)| == yoffset * McusPerRow(f) + col
            && 0 <= i < |InRow(f, img, row, yoffset, col)|
            && InRow(f, img, row, yoffset, col)[i] == McuAt(f, img, row, j, k)
    decreases yoffset, col
  {
    hide McuAt;
    RowsPositive(f, row);
    var w := McusPerRow(f);
    RowLength(f, img, row, yoffset, col);
    MulMono(0, j, w);
    if j < yoffset {
      MulMono(j + 1, yoffset, w);
      assert (j + 1) * w == j * w + w;
    }
    if col > 0 {
      RowLength(f, img, row, yoffset, col - 1);
      if !(j == yoffset && k == col - 1) {
        RowPlace(f, img, row, yoffset, col - 1, j, k);
      }
    } else {
      RowPlace(f, img, row, yoffset - 1, w, j, k);
    }
  }

  lemma {:induction false} RowLength(f: Frame, img: seq<Plane>, row: int, yoffset: int, col: int)
    requires ValidFrame(f) && ValidImage(f, img) && row >= 0 && yoffset >= 0 && 0 <= col <= McusPerRow(f)
    ensures |InRow(f, img, row, yoffset, col)| == yoffset * McusPerRow(f) + col
    decreases yoffset, col
  {
    hide McuAt;
    RowsPositive(f, row);
    if col > 0 {
      RowLength(f, img, row, yoffset, col - 1);
    } else if yoffset > 0 {
      RowLength(f, img, row, yoffset - 1, McusPerRow(f));
      assert (yoffset - 1) * McusPerRow(f) + McusPerRow(f) == yoffset * McusPerRow(f);
    }
  }

  // MCU rows in an iMCU row that is not the last.
  function FullRows(f: Frame): int
    requires f.comps != []
  {
    if Single(f) then f.comps[0].v else 1
  }

  lemma RowsFull(f: Frame, row: int)
    requires ValidFrame(f) && f.comps[0].v > 0 && row < f.total_iMCU_rows - 1
    ensures RowsIn(f, row) == FullRows(f)
  {
  }

  lemma Distributes(a: int, b: int, w: int)
    ensures (a + b) * w == a * w + b * w
  {
  }

  lemma {:induction false} ThroughLength(f: Frame, img: seq<Plane>, n: int)
    requires ValidFrame(f) && ValidImage(f, img) && 0 <= n < f.total_iMCU_rows
    ensures |Through(f, img, n)| == n * FullRows(f) * McusPerRow(f)
    decreases n
  {
    hide McuAt, InRow, RowsIn;
    if n > 0 {
      ThroughLength(f, img, n - 1);
      RowsPositive(f, n - 1);
      RowLength(f, img, n - 1, RowsIn(f, n - 1), 0);
      RowsFull(f, n - 1);
      Distributes(n - 1, 1, FullRows(f));
      Distributes((n - 1) * FullRows(f), FullRows(f), McusPerRow(f));
    }
  }

  // The MCUs of the image go from left to right and from top to bottom.
  lemma ImageOrder(f: Frame, img: seq<Plane>, row: int, yoffset: int, col: int)
    requires ValidFrame(f) && ValidImage(f, img) && 0 <= row < f.total_iMCU_rows && f.comps[0].v > 0
    requires 0 <= yoffset < RowsIn(f, row) && 0 <= col < McusPerRow(f)
    ensures var all, i := Through(f, img, f.total_iMCU_rows), (row * FullRows(f) + yoffset) * McusPerRow(f) + col;
            0 <= i < |all| && all[i] == McuAt(f, img, row, yoffset, col)
  {
    hide McuAt, InRow, RowsIn, Through;
    var w := McusPerRow(f);
    ThroughLength(f, img, row);
    WithinImage(f, img, row, yoffset, col + 1);
    RowPlace(f, img, row, yoffset, col + 1, yoffset, col);
    assert (row * FullRows(f) + yoffset) * w == row * FullRows(f) * w + yoffset * w;
    var all, before := Through(f, img, f.total_iMCU_rows), Through(f, img, row);
    var i := (row * FullRows(f) + yoffset) * w + col;
    var now := before + InRow(f, img, row, yoffset, col + 1);
    assert now[i] == InRow(f, img, row, yoffset, col + 1)[i - |before|];
    assert all[..|now|] == now;
  }
}
