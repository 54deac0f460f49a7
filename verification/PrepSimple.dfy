// The encoder's preprocessing controller without context rows (jcprepct.c): a
// buffer of one row group; at the bottom the output is padded, not the buffer.
module PrepSimple {
  import opened Arith
  import opened PrepOutput

  class SimpleController {
    const V: int                   // max_v_samp_factor
    const H: int                   // image_height
    const v: int                   // v_samp_factor of the component
    const color_buf: array<int>    // which image row each row of the buffer holds
    var rows_to_go: int
    var next_buf_row: int
    ghost var made: int            // row groups made so far

    ghost predicate Allocated() {
      V > 0 && H > 0 && v > 0 && color_buf.Length == V
    }

    // Rows first, first + 1, ... are in the buffer.
    ghost predicate Holds(n: int)
      requires Allocated() && 0 <= n <= V
      reads this, color_buf
    {
      color_buf[..n] == Rows(H, made * V, V)[..n]
    }

    // The rows taken are those of the row groups made and those in the buffer.
    ghost predicate Counters()
      reads this
    {
      && 0 <= rows_to_go <= H && made >= 0
      && if rows_to_go > 0 then made * V + next_buf_row == H - rows_to_go else made * V >= H
    }

    ghost predicate Valid()
      reads this, color_buf
    {
      Allocated() && 0 <= next_buf_row < V && Counters() && Holds(next_buf_row)
      && (rows_to_go == 0 ==> next_buf_row == 0)
    }

    // start_pass_prep
    constructor (V: int, H: int, v: int)
      requires V > 0 && H > 0 && v > 0
      ensures Valid() && this.V == V && this.H == H && this.v == v && rows_to_go == H && made == 0
      ensures fresh(color_buf)
    {
      this.V, this.H, this.v := V, H, v;
      color_buf := new int[V];
      rows_to_go, next_buf_row, made := H, 0, 0;
    }

    // color_convert
    method ConvertRows(numrows: int)
      requires Valid() && 0 < numrows <= V - next_buf_row && numrows <= rows_to_go
      modifies color_buf, this`next_buf_row, this`rows_to_go
      ensures rows_to_go == old(rows_to_go) - numrows && next_buf_row == old(next_buf_row) + numrows <= V
      ensures Holds(next_buf_row) && made * V + next_buf_row == H - rows_to_go
    {
      var first := H - rows_to_go;
      for i := 0 to numrows
        invariant color_buf[..next_buf_row + i] == Rows(H, made * V, V)[..next_buf_row + i]
        modifies color_buf
      {
        color_buf[next_buf_row + i] := first + i;
      }
      next_buf_row := next_buf_row + numrows;
      rows_to_go := rows_to_go - numrows;
    }

    // expand_bottom_edge, on the buffer
    method PadBuffer()
      requires Allocated() && 0 < next_buf_row <= V && Holds(next_buf_row) && made * V + next_buf_row == H
      modifies color_buf, this`next_buf_row
      ensures next_buf_row == V && Holds(V)
    {
      assert color_buf[next_buf_row - 1] == color_buf[..next_buf_row][next_buf_row - 1];
      for row := next_buf_row to V
        invariant color_buf[..row] == Rows(H, made * V, V)[..row] && color_buf[next_buf_row - 1] == H - 1
        modifies color_buf
      {
        color_buf[row] := color_buf[next_buf_row - 1];
      }
      next_buf_row := V;
    }

    // expand_bottom_edge, on the output: its last row is repeated.
    method PadOutput(output_buf: array<Row>, out: int, avail: int)
      requires Allocated() && made > 0 && (made - 1) * V < H <= made * V && output_buf.Length == avail * v
      requires 0 < out <= avail && Output(false, V, H, v, output_buf[..], made - out, out)
      requires rows_to_go == next_buf_row == 0 && color_buf as object != output_buf
      modifies this`made, output_buf
      ensures Valid() && made == old(made) + (avail - out)
      ensures Output(false, V, H, v, output_buf[..], made - avail, avail)
    {
      hide Output, Rows;
      MulMono(out, avail, v);
      MulMono(1, out, v);
      ghost var was, first, win := output_buf[..], made - out, Rows(H, (H - 1) / V * V, V);
      LastRow(was, first, out);
      var last := output_buf[out * v - 1];
      for row := out * v to avail * v
        invariant output_buf[..out * v] == was[..out * v]
        invariant forall i | out * v <= i < row :: output_buf[i] == last
        modifies output_buf
      {
        output_buf[row] := output_buf[out * v - 1];
      }
      AllRepeated(was, output_buf[..], first, out, avail, win);
      MulMono(made, made + (avail - out), V);
      made := made + (avail - out);
    }

    // The last row made so far.
    lemma LastRow(buf: seq<Row>, first: int, n: int)
      requires Allocated() && made > 0 && (made - 1) * V < H <= made * V && 0 < n && first + n == made
      requires Output(false, V, H, v, buf, first, n)
      ensures 0 <= n * v - 1 < |buf| && buf[n * v - 1] == Sampled(Rows(H, (H - 1) / V * V, V), v - 1)
    {
      assert GroupAt(false, V, H, v, buf, first, n - 1);
      assert (n - 1) * v + v == n * v;
      assert buf[(n - 1) * v..(n - 1) * v + v][v - 1] == buf[n * v - 1];
      QuotientIs(H - 1, V, made - 1);
    }

    static lemma QuotientIs(x: int, d: int, q: int)
      requires d > 0 && q * d <= x < (q + 1) * d
      ensures x / d == q
    {
      var k := x / d;
      assert x == k * d + x % d && (k + 1) * d == k * d + d && (q + 1) * d == q * d + d;
      if k < q {
        MulMono(k + 1, q, d);
      } else if q < k {
        MulMono(q + 1, k, d);
      }
    }

    lemma AllRepeated(was: seq<Row>, buf: seq<Row>, first: int, out: int, avail: int, win: seq<int>)
      requires Allocated() && first + out == made && H <= made * V && 0 < out <= avail
      requires win == Rows(H, (H - 1) / V * V, V)
      requires Output(false, V, H, v, was, first, out) && |was| == |buf| == avail * v
      requires 0 <= out * v <= avail * v && buf[..out * v] == was[..out * v]
      requires forall i | out * v <= i < avail * v :: buf[i] == Sampled(win, v - 1)
      ensures Output(false, V, H, v, buf, first, avail)
    {
      OutputStays(false, V, H, v, was, buf, first, out);
      forall j | 0 <= j < avail
        ensures GroupAt(false, V, H, v, buf, first, j)
      {
        if j >= out {
          MulMono(out, j, v);
          MulMono(j + 1, avail, v);
          assert (j + 1) * v == j * v + v;
          MulMono(made, first + j, V);
          assert buf[j * v..j * v + v] == Repeated(win, v);
        }
      }
    }

    // pre_process_data: takes rows and makes row groups until either run out; at
    // the bottom of the image it fills the output in one step.
    method PreProcessData(in0: nat, in_rows_avail: nat, output_buf: array<Row>, out0: nat, out_row_groups_avail: nat)
      returns (in_row_ctr: nat, out_row_group_ctr: nat)
      requires Valid() && in_rows_avail - in0 <= rows_to_go && out0 <= out_row_groups_avail
      requires output_buf.Length == out_row_groups_avail * v
      requires Output(false, V, H, v, output_buf[..], made - out0, out0)
      requires color_buf as object != output_buf
      modifies this, color_buf, output_buf
      ensures Valid() && in0 <= in_row_ctr && rows_to_go == old(rows_to_go) - (in_row_ctr - in0)
      ensures in_row_ctr > in0 ==> in_row_ctr <= in_rows_avail
      ensures out0 <= out_row_group_ctr && made == old(made) + (out_row_group_ctr - out0)
      ensures Output(false, V, H, v, output_buf[..], made - out_row_group_ctr, out_row_group_ctr)
      ensures out_row_group_ctr <= out_row_groups_avail
      ensures out_row_group_ctr < out_row_groups_avail ==>
        in_row_ctr >= in_rows_avail && (rows_to_go > 0 || old(rows_to_go) == 0)
      ensures out_row_group_ctr > out0 ==> in_row_ctr > in0
    {
      hide Output, OutGroup, Rows, Holds;
      in_row_ctr, out_row_group_ctr := in0, out0;
      while in_row_ctr < in_rows_avail && out_row_group_ctr < out_row_groups_avail
        invariant Valid() && in0 <= in_row_ctr && rows_to_go == old(rows_to_go) - (in_row_ctr - in0)
        invariant in_row_ctr > in0 ==> in_row_ctr <= in_rows_avail
        invariant out0 <= out_row_group_ctr <= out_row_groups_avail && made == old(made) + (out_row_group_ctr - out0)
        invariant Output(false, V, H, v, output_buf[..], made - out_row_group_ctr, out_row_group_ctr)
        invariant out_row_group_ctr > out0 ==> in_row_ctr > in0
        invariant rows_to_go > 0 || out_row_group_ctr == out_row_groups_avail || old(rows_to_go) == 0
        decreases in_rows_avail - in_row_ctr
      {
        var inrows := in_rows_avail - in_row_ctr;
        var numrows := V - next_buf_row;
        numrows := if numrows < inrows then numrows else inrows;
        ConvertRows(numrows);
        in_row_ctr := in_row_ctr + numrows;
        if rows_to_go == 0 && next_buf_row < V {
          PadBuffer();
        }
        if next_buf_row == V {
          EmptyBuffer(output_buf, out_row_group_ctr, out_row_groups_avail);
          out_row_group_ctr := out_row_group_ctr + 1;
        }
        if rows_to_go == 0 && out_row_group_ctr < out_row_groups_avail {
          PadOutput(output_buf, out_row_group_ctr, out_row_groups_avail);
          out_row_group_ctr := out_row_groups_avail;
          break;
        }
      }
    }

    // downsample
    method EmptyBuffer(output_buf: array<Row>, out: int, ghost avail: int)
      requires Allocated() && Holds(V) && made >= 0 && made * V < H && 0 <= out < avail
      requires output_buf.Length == avail * v
      requires Output(false, V, H, v, output_buf[..], made - out, out)
      modifies this`next_buf_row, this`made, output_buf
      ensures next_buf_row == 0 && Holds(0) && made == old(made) + 1 && made * V == old(made) * V + V
      ensures (made - 1) * V == old(made) * V
      ensures Output(false, V, H, v, output_buf[..], made - (out + 1), out + 1)
    {
      MulMono(out + 1, avail, v);
      assert (out + 1) * v == out * v + v;
      assert color_buf[..] == Rows(H, made * V, V);
      Downsample(false, V, H, v, color_buf[..], output_buf, out, made - out);
      next_buf_row := 0;
      made := made + 1;
    }
  }
}
