// The encoder's main controller and its caller: process_data_simple_main
// (jcmainct.c) and jpeg_write_scanlines (jcapistd.c). A compressor that has to
// be suspended must not make the application think that all rows are done.
module CompressMain {
  import opened Arith
  import opened PrepOutput
  import opened Preprocessing

  const DCTSIZE := 8

  lemma RowsOfGroups(c: int, total: int, V: int)
    requires V > 0
    ensures (c * DCTSIZE) * V == c * (DCTSIZE * V)
    ensures c < total ==> c * (DCTSIZE * V) <= (total - 1) * (DCTSIZE * V)
  {
    if c < total {
      MulMono(c, total - 1, DCTSIZE * V);
    }
  }

  class MainController {
    const prep: Preprocessor
    const buffer: array<Row>               // an iMCU row of a component
    const total_iMCU_rows: int
    var cur_iMCU_row: int
    var rowgroup_ctr: int
    var suspended: bool
    var next_scanline: int
    ghost var compressed: seq<seq<Row>>    // the iMCU rows that the compressor has completed

    ghost predicate Shape() {
      && prep.Installed() && buffer !in prep.Objects() && buffer.Length == DCTSIZE * prep.v
      && (total_iMCU_rows - 1) * (DCTSIZE * prep.V) < prep.H <= total_iMCU_rows * (DCTSIZE * prep.V)
    }

    // The first n row groups of iMCU row i of the padded component.
    ghost predicate HoldsRow(i: int, buf: seq<Row>, n: int)
      requires prep.Installed()
    {
      Output(prep.need_context_rows, prep.V, prep.H, prep.v, buf, i * DCTSIZE, n)
    }

    // The compressor has got the iMCU rows of the padded component, in order.
    ghost predicate CompressedRight()
      requires prep.Installed()
      reads this
    {
      |compressed| == cur_iMCU_row
      && forall i | 0 <= i < |compressed| :: |compressed[i]| == DCTSIZE * prep.v && HoldsRow(i, compressed[i], DCTSIZE)
    }

    // Within a call.
    ghost predicate Busy()
      requires prep.Installed()
      reads this, prep.Objects(), buffer
    {
      && Shape() && prep.Valid() && 0 <= cur_iMCU_row <= total_iMCU_rows && 0 <= rowgroup_ctr <= DCTSIZE
      && prep.Made() == cur_iMCU_row * DCTSIZE + rowgroup_ctr
      && HoldsRow(cur_iMCU_row, buffer[..], rowgroup_ctr) && CompressedRight()
      && (suspended ==> rowgroup_ctr == DCTSIZE && cur_iMCU_row < total_iMCU_rows)
      && (cur_iMCU_row == total_iMCU_rows ==> rowgroup_ctr == 0)
    }

    // Between calls: the application has handed over all rows but those to go;
    // one of them is held back while the compressor is suspended.
    ghost predicate Valid()
      requires prep.Installed()
      reads this, prep.Objects(), buffer
    {
      && Busy() && next_scanline == prep.H - prep.RowsToGo() - (if suspended then 1 else 0)
      && (cur_iMCU_row < total_iMCU_rows && !suspended ==> rowgroup_ctr < DCTSIZE && prep.RowsToGo() > 0)
    }

    // start_pass_main, and jpeg_start_compress
    constructor (need_context_rows: bool, V: int, H: int, v: int, total: int)
      requires V > 0 && H > 0 && v > 0 && (total - 1) * (DCTSIZE * V) < H <= total * (DCTSIZE * V)
      ensures prep.Installed() && Valid() && next_scanline == 0 && cur_iMCU_row == 0
      ensures prep.need_context_rows == need_context_rows && prep.V == V && prep.H == H && prep.v == v
      ensures total_iMCU_rows == total
      ensures fresh(prep.Objects()) && fresh(buffer)
    {
      prep := new Preprocessor(need_context_rows, V, H, v);
      buffer := new Row[DCTSIZE * v](_ => Sampled([], 0));
      total_iMCU_rows := total;
      cur_iMCU_row, rowgroup_ctr, suspended, next_scanline, compressed := 0, 0, false, 0, [];
      new;
      if total <= 0 {
        MulMono(total, 0, DCTSIZE * V);
      }
    }

    // All row groups have been made only when all rows have been taken, and row
    // groups of the image are left as long as an iMCU row is.
    lemma RowsAndGroups()
      requires prep.Installed() && Busy()
      ensures 0 <= prep.RowsToGo() <= prep.H
      ensures cur_iMCU_row == total_iMCU_rows ==> prep.RowsToGo() == 0
      ensures cur_iMCU_row < total_iMCU_rows && rowgroup_ctr == 0 ==> prep.Made() * prep.V < prep.H
    {
      hide Output, HoldsRow, CompressedRight;
      prep.RowsTaken();
      RowsOfGroups(cur_iMCU_row, total_iMCU_rows, prep.V);
    }

    // compress_data completes the iMCU row.
    method Completed()
      requires prep.Installed() && Busy() && rowgroup_ctr == DCTSIZE && cur_iMCU_row < total_iMCU_rows
      modifies this`cur_iMCU_row, this`rowgroup_ctr, this`compressed, this`suspended
      ensures Busy() && cur_iMCU_row == old(cur_iMCU_row) + 1 && rowgroup_ctr == 0 && !suspended
      ensures compressed == old(compressed) + [buffer[..]]
    {
      compressed := compressed + [buffer[..]];
      rowgroup_ctr := 0;
      cur_iMCU_row := cur_iMCU_row + 1;
      suspended := false;
    }

    // The preprocessor is called, unless all rows of the image have been used.
    method FillBuffer(in0: nat, in_rows_avail: nat) returns (in_row_ctr: nat)
      requires prep.Installed() && Busy() && !suspended && rowgroup_ctr < DCTSIZE && cur_iMCU_row < total_iMCU_rows
      requires in_rows_avail - in0 <= prep.RowsToGo() && (rowgroup_ctr > 0 ==> prep.RowsToGo() > 0)
      modifies this`rowgroup_ctr, prep.Objects(), buffer
      ensures Busy() && in0 <= in_row_ctr && prep.RowsToGo() == old(prep.RowsToGo()) - (in_row_ctr - in0) >= 0
      ensures in_row_ctr > in0 ==> in_row_ctr <= in_rows_avail
      ensures rowgroup_ctr == DCTSIZE || (rowgroup_ctr < DCTSIZE && in_row_ctr >= in_rows_avail && prep.RowsToGo() > 0)
      ensures rowgroup_ctr == DCTSIZE ==> in_row_ctr > in0 || old(prep.RowsToGo()) == 0
    {
      hide Output, Preprocessor.Valid, Preprocessor.RowsToGo, Preprocessor.Made;
      RowsAndGroups();
      in_row_ctr, rowgroup_ctr := prep.PreProcessData(in0, in_rows_avail, buffer, rowgroup_ctr, DCTSIZE);
      prep.RowsTaken();
    }

    // process_data_simple_main; the compressor completes oks iMCU rows before it
    // has to be suspended.
    method ProcessData(in_rows_avail: nat, oks: nat) returns (in_row_ctr: nat)
      requires prep.Installed() && Valid() && in_rows_avail <= prep.H - next_scanline
      modifies this`cur_iMCU_row, this`rowgroup_ctr, this`suspended, this`compressed, prep.Objects(), buffer
      ensures Busy() && next_scanline + in_row_ctr == prep.H - prep.RowsToGo() - (if suspended then 1 else 0)
      ensures cur_iMCU_row < total_iMCU_rows && !suspended ==> rowgroup_ctr < DCTSIZE && prep.RowsToGo() > 0
      ensures old(compressed) <= compressed
      ensures suspended ==> cur_iMCU_row == old(cur_iMCU_row) + oks
      ensures !suspended ==> in_row_ctr == in_rows_avail || (old(suspended) && in_rows_avail == 0 && in_row_ctr == 1)
    {
      hide HoldsRow, Preprocessor.Valid, Preprocessor.RowsToGo, Preprocessor.Made;
      in_row_ctr := 0;
      var left := oks;
      while cur_iMCU_row < total_iMCU_rows
        invariant Busy() && next_scanline + in_row_ctr == prep.H - prep.RowsToGo() - (if suspended then 1 else 0)
        invariant !suspended && cur_iMCU_row < total_iMCU_rows ==>
          in_row_ctr >= 1 || (rowgroup_ctr < DCTSIZE && prep.RowsToGo() > 0)
        invariant !suspended ==> rowgroup_ctr < DCTSIZE && (rowgroup_ctr > 0 ==> prep.RowsToGo() > 0)
        invariant suspended ==> old(suspended) && in_row_ctr == 0
        invariant in_row_ctr <= in_rows_avail || (old(suspended) && in_rows_avail == 0 && in_row_ctr == 1)
        invariant old(compressed) <= compressed && cur_iMCU_row - old(cur_iMCU_row) + left == oks
        decreases total_iMCU_rows - cur_iMCU_row
      {
        if rowgroup_ctr < DCTSIZE {
          in_row_ctr := FillBuffer(in_row_ctr, in_rows_avail);
        }
        if rowgroup_ctr != DCTSIZE {
          return;
        }
        if left == 0 {
          if !suspended {
            in_row_ctr := in_row_ctr - 1;
            suspended := true;
          }
          return;
        }
        left := left - 1;
        if suspended {
          in_row_ctr := in_row_ctr + 1;
        }
        Completed();
      }
      RowsAndGroups();
    }

    // jpeg_write_scanlines: all rows count as written exactly when every iMCU row
    // has been compressed. Fewer rows than offered are taken only when the
    // compressor has to be suspended. (A call that offers no row takes the row
    // held back, if the compressor goes on.)
    method WriteScanlines(num_lines: nat, oks: nat) returns (row_ctr: nat)
      requires prep.Installed() && Valid()
      modifies this, prep.Objects(), buffer
      ensures Valid() && next_scanline == old(next_scanline) + row_ctr
      ensures next_scanline == prep.H <==> cur_iMCU_row == total_iMCU_rows
      ensures old(compressed) <= compressed
      ensures suspended ==> cur_iMCU_row == old(cur_iMCU_row) + oks
      ensures !suspended ==>
        var rows_left := prep.H - old(next_scanline);
        row_ctr == (if num_lines < rows_left then num_lines else rows_left)
        || (old(suspended) && num_lines == 0 && row_ctr == 1)
    {
      RowsAndGroups();
      var rows_left := prep.H - next_scanline;
      var num := if num_lines > rows_left then rows_left else num_lines;
      row_ctr := ProcessData(num, oks);
      next_scanline := next_scanline + row_ctr;
      RowsAndGroups();
    }
  }
}
