// The encoder's preprocessing controller with context rows (jcprepct.c): a ring
// of three row groups behind pointers to five.
module PrepContext {
  import opened Arith
  import opened PrepOutput

  // ----- the wrapped-around buffer -----

  // The row of the ring that position j of the pointer array stands for; one
  // row group of positions lies before 0 and one behind the ring.
  function Ring(V: int, j: int): int
    requires V > 0
  {
    if j < 0 then j + 3 * V else if j < 3 * V then j else j - 3 * V
  }

  ghost predicate Pointers(V: int, fake: array<int>)
    reads fake
  {
    V > 0 && fake.Length == 5 * V && forall k | 0 <= k < 5 * V :: fake[k] == Ring(V, k - V)
  }

  // create_context_buffer
  method CreateContextBuffer(rgroup_height: int) returns (fake: array<int>)
    requires rgroup_height > 0
    ensures Pointers(rgroup_height, fake) && fresh(fake)
  {
    fake := new int[5 * rgroup_height];
    for i := 0 to 3 * rgroup_height
      invariant forall k | rgroup_height <= k < rgroup_height + i :: fake[k] == k - rgroup_height
    {
      fake[rgroup_height + i] := i;
    }
    for i := 0 to rgroup_height
      invariant forall k | rgroup_height <= k < 4 * rgroup_height :: fake[k] == k - rgroup_height
      invariant forall k | 0 <= k < i :: fake[k] == Ring(rgroup_height, k - rgroup_height)
      invariant forall k | 4 * rgroup_height <= k < 4 * rgroup_height + i ::
        fake[k] == Ring(rgroup_height, k - rgroup_height)
    {
      fake[i] := 2 * rgroup_height + i;
      fake[4 * rgroup_height + i] := i;
    }
  }

  // ----- what is to be seen -----

  // What downsampling row group g has to see: the row group with those above and below it.
  ghost predicate Right(V: int, H: int, g: int, win: seq<int>) {
    V > 0 && win == Rows(H, (g - 1) * V, 3 * V)
  }

  // ----- the controller -----

  // Positions below next hold rows base, base + 1, ...; those from stop on still
  // hold the rows before base.
  ghost predicate Holds(V: int, H: int, ring: array<int>, base: int, next: int, stop: int)
    reads ring
  {
    && ring.Length == 3 * V && 0 <= next <= stop <= 3 * V
    && (forall k | 0 <= k < next :: ring[k] == Padded(H, base + k))
    && (forall k | stop <= k < 3 * V :: ring[k] == Padded(H, base + k - 3 * V))
  }

  // The rows seen through the pointers from position first on.
  function Window(V: int, ring: array<int>, fake: array<int>, first: int): (r: seq<int>)
    requires V > 0 && 0 <= first <= 2 * V && ring.Length == 3 * V && Pointers(V, fake)
    reads ring, fake
    ensures |r| == 3 * V && forall i | 0 <= i < 3 * V :: r[i] == ring[Ring(V, first - V + i)]
  {
    seq(3 * V, i requires 0 <= i < 3 * V && ring.Length == 3 * V && Pointers(V, fake)
           reads ring, fake => ring[fake[first + i]])
  }

  // Once the row group below is complete, the pointers show all that is needed.
  lemma WindowRight(V: int, H: int, ring: array<int>, fake: array<int>, base: int, stop: int, g: int)
    requires V > 0 && Pointers(V, fake) && Holds(V, H, ring, base, stop, stop) && stop in {V, 2 * V, 3 * V}
    requires base + stop == (g + 2) * V
    ensures Right(V, H, g, Window(V, ring, fake, Ring(V, stop - 2 * V)))
  {
    assert (g - 1) * V == base + stop - 3 * V;
  }

  // The step to the next row group.
  lemma HoldsStep(V: int, H: int, ring: array<int>, base: int, stop: int)
    requires V > 0 && Holds(V, H, ring, base, stop, stop) && stop in {V, 2 * V, 3 * V}
    ensures stop < 3 * V ==> Holds(V, H, ring, base, stop, stop + V)
    ensures stop == 3 * V ==> Holds(V, H, ring, base + 3 * V, 0, V)
  {
  }

  // Rows stored one after the other.
  method StoreRows(V: int, H: int, ring: array<int>, fake: array<int>, next: int, numrows: int, first: int,
                   ghost base: int, ghost stop: int)
    requires V > 0 && Pointers(V, fake) && ring != fake && 0 <= numrows && next + numrows <= stop
    requires first == base + next && first + numrows <= H
    requires ring.Length == 3 * V && 0 <= next <= stop <= 3 * V && base >= 0
    modifies ring
    ensures old(Holds(V, H, ring, base, next, stop)) ==> Holds(V, H, ring, base, next + numrows, stop)
    ensures forall k | next <= k < next + numrows :: ring[k] == Padded(H, base + k)
    ensures forall k | 0 <= k < 3 * V && !(next <= k < next + numrows) :: ring[k] == old(ring[k])
  {
    for i := 0 to numrows
      invariant forall k | next <= k < next + i :: ring[k] == Padded(H, base + k)
      invariant forall k | 0 <= k < 3 * V && !(next <= k < next + i) :: ring[k] == old(ring[k])
    {
      assert fake[V + next + i] == next + i;
      ring[fake[V + next + i]] := first + i;
    }
  }

  // Copies of the first row above it.
  method PadTop(V: int, H: int, ring: array<int>, fake: array<int>, ghost n: int)
    requires V > 0 && H > 0 && Pointers(V, fake) && ring != fake && ring.Length == 3 * V && 0 < n <= 2 * V
    requires forall k | 0 <= k < n :: ring[k] == Padded(H, k)
    modifies ring
    ensures Holds(V, H, ring, 0, n, 2 * V)
  {
    for row := 1 to V + 1
      invariant forall k | 0 <= k < n :: ring[k] == Padded(H, k)
      invariant forall k | 3 * V - row < k < 3 * V :: ring[k] == 0
    {
      assert fake[V] == 0 && fake[V - row] == 3 * V - row;
      ring[fake[V - row]] := ring[fake[V]];
    }
  }

  // expand_bottom_edge: the last row is repeated up to stop. If it is the last one
  // of the ring, it is found through the pointer before the first.
  method ExpandBottomEdge(V: int, H: int, ring: array<int>, fake: array<int>, input_rows: int, output_rows: int,
                          ghost base: int)
    requires V > 0 && Pointers(V, fake) && ring != fake && Holds(V, H, ring, base, input_rows, output_rows)
    requires base + input_rows >= H > 0 && (input_rows == 0 ==> output_rows < 3 * V)
    modifies ring
    ensures Holds(V, H, ring, base, output_rows, output_rows)
  {
    var last := fake[V + input_rows - 1];
    assert last == Ring(V, input_rows - 1) && ring[last] == H - 1;
    for row := input_rows to output_rows
      invariant forall k | 0 <= k < row :: ring[k] == Padded(H, base + k)
      invariant forall k | output_rows <= k < 3 * V :: ring[k] == Padded(H, base + k - 3 * V)
      invariant ring[last] == H - 1
    {
      assert fake[V + row] == row;
      ring[fake[V + row]] := ring[fake[V + input_rows - 1]];
    }
  }

  class PrepController {
    const V: int                 // max_v_samp_factor
    const H: int                 // image_height
    const v: int                 // v_samp_factor of the component
    const ring: array<int>       // which image row each row of the buffer holds
    const color_buf: array<int>  // the pointers; position j is at V + j
    var rows_to_go: int
    var next_buf_row: int
    var this_row_group: int
    var next_buf_stop: int
    ghost var base: int          // the row that belongs at position 0 this time round
    ghost var seen: seq<seq<int>>

    ghost predicate Allocated()
      reads color_buf
    {
      V > 0 && H > 0 && v > 0 && ring.Length == 3 * V && Pointers(V, color_buf) && ring != color_buf
    }

    // How many rows of the padded image have been stored.
    ghost function Stored(): int
      reads this
    {
      base + next_buf_row
    }

    ghost predicate Counters()
      reads this
    {
      && 0 <= rows_to_go <= H && V > 0 && next_buf_stop in {V, 2 * V, 3 * V} && 0 <= next_buf_row <= next_buf_stop
      && base + next_buf_stop == (|seen| + 2) * V && this_row_group == Ring(V, next_buf_stop - 2 * V)
      && (rows_to_go > 0 ==> Stored() == H - rows_to_go) && (rows_to_go == 0 ==> Stored() >= H) && base >= 0
      && (|seen| > 0 ==> next_buf_row >= next_buf_stop - V)
    }

    ghost predicate SeenRight()
      reads this
    {
      forall g | 0 <= g < |seen| :: Right(V, H, g, seen[g])
    }

    ghost predicate Buffered()
      reads this, ring, color_buf
    {
      Allocated() && Counters() && SeenRight() && (Stored() > 0 ==> Holds(V, H, ring, base, next_buf_row,
                                                                          next_buf_stop))
    }

    ghost predicate Valid()
      reads this, ring, color_buf
    {
      Buffered() && next_buf_row < next_buf_stop
    }

    // start_pass_prep
    constructor (V: int, H: int, v: int)
      requires V > 0 && H > 0 && v > 0
      ensures Valid() && this.V == V && this.H == H && this.v == v && rows_to_go == H && seen == []
      ensures fresh(ring) && fresh(color_buf)
    {
      this.V, this.H, this.v := V, H, v;
      var fake := CreateContextBuffer(V);
      color_buf := fake;
      ring := new int[3 * V];
      rows_to_go, next_buf_row, this_row_group, next_buf_stop := H, 0, 0, 2 * V;
      base, seen := 0, [];
    }

    // color_convert, and copies of the first row above it when it is the first
    method ConvertRows(numrows: int)
      requires Buffered() && 0 < numrows <= next_buf_stop - next_buf_row && numrows <= rows_to_go
      modifies ring, this`next_buf_row, this`rows_to_go
      ensures Buffered() && rows_to_go == old(rows_to_go) - numrows && next_buf_row == old(next_buf_row) + numrows
    {
      hide Holds, Right, Ring;
      StoreRows(V, H, ring, color_buf, next_buf_row, numrows, H - rows_to_go, base, next_buf_stop);
      if rows_to_go == H {
        PadTop(V, H, ring, color_buf, numrows);
      }
      next_buf_row := next_buf_row + numrows;
      rows_to_go := rows_to_go - numrows;
    }

    // The bottom of the image.
    method Pad()
      requires Buffered() && rows_to_go == 0 && next_buf_row < next_buf_stop
      modifies ring, this`next_buf_row
      ensures Buffered() && next_buf_row == next_buf_stop
    {
      hide Holds, Right, Ring;
      ExpandBottomEdge(V, H, ring, color_buf, next_buf_row, next_buf_stop, base);
      next_buf_row := next_buf_stop;
    }

    // downsample, and the step to the next row group
    method MakeGroup(output_buf: array<Row>, out: int)
      requires Buffered() && next_buf_row == next_buf_stop && out >= 0 && out * v + v <= output_buf.Length
      requires Output(true, V, H, v, output_buf[..], |seen| - out, out)
      modifies this`seen, this`this_row_group, this`next_buf_row, this`next_buf_stop, this`base, output_buf
      ensures Valid() && |seen| == |old(seen)| + 1 && old(seen) <= seen
      ensures Output(true, V, H, v, output_buf[..], |seen| - (out + 1), out + 1)
    {
      hide Holds, Right, Pointers, Output;
      WindowRight(V, H, ring, color_buf, base, next_buf_stop, |seen|);
      HoldsStep(V, H, ring, base, next_buf_stop);
      assert (|seen| + 1 + 2) * V == (|seen| + 2) * V + V;
      var win := Window(V, ring, color_buf, this_row_group);
      RightGroup(|seen|, win);
      Downsample(true, V, H, v, win, output_buf, out, |seen| - out);
      seen := seen + [win];
      this_row_group := this_row_group + V;
      if this_row_group >= 3 * V {
        this_row_group := 0;
      }
      if next_buf_row >= 3 * V {
        next_buf_row := 0;
        base := base + 3 * V;
      }
      next_buf_stop := next_buf_row + V;
    }

    lemma RightGroup(g: int, win: seq<int>)
      requires V > 0 && H > 0 && v > 0 && Right(V, H, g, win)
      ensures OutGroup(true, V, H, v, g) == Downsampled(win, v)
    {
    }

    lemma NotNegative()
      requires Valid()
      ensures rows_to_go >= 0
    {
    }

    // pre_process_context: takes rows and makes row groups until either run out;
    // at the bottom of the image row groups can be made without further rows.
    method PreProcessContext(in0: nat, in_rows_avail: nat, output_buf: array<Row>, out0: nat, out_row_groups_avail: nat)
      returns (in_row_ctr: nat, out_row_group_ctr: nat)
      requires Valid() && in_rows_avail - in0 <= rows_to_go && out0 <= out_row_groups_avail
      requires output_buf.Length == out_row_groups_avail * v
      requires Output(true, V, H, v, output_buf[..], |seen| - out0, out0)
      requires output_buf as object !in {ring, color_buf}
      modifies this, ring, output_buf
      ensures Valid() && in0 <= in_row_ctr && rows_to_go == old(rows_to_go) - (in_row_ctr - in0)
      ensures in_row_ctr > in0 ==> in_row_ctr <= in_rows_avail
      ensures old(seen) <= seen && |seen| - |old(seen)| == out_row_group_ctr - out0
      ensures Output(true, V, H, v, output_buf[..], |seen| - out_row_group_ctr, out_row_group_ctr)
      ensures out_row_group_ctr <= out_row_groups_avail
      ensures out_row_group_ctr < out_row_groups_avail ==> in_row_ctr >= in_rows_avail && rows_to_go > 0
      ensures out_row_group_ctr > out0 ==> in_row_ctr > in0 || rows_to_go == 0
    {
      hide Holds, Right, Ring, Pointers, Counters, Output;
      in_row_ctr, out_row_group_ctr := in0, out0;
      while out_row_group_ctr < out_row_groups_avail
        invariant Valid() && in0 <= in_row_ctr && rows_to_go == old(rows_to_go) - (in_row_ctr - in0)
        invariant in_row_ctr > in0 ==> in_row_ctr <= in_rows_avail
        invariant Output(true, V, H, v, output_buf[..], |seen| - out_row_group_ctr, out_row_group_ctr)
        invariant out_row_group_ctr > out0 ==> in_row_ctr > in0 || rows_to_go == 0
        invariant old(seen) <= seen && |seen| - |old(seen)| == out_row_group_ctr - out0
        invariant out_row_group_ctr <= out_row_groups_avail
        decreases out_row_groups_avail - out_row_group_ctr, in_rows_avail - in_row_ctr
      {
        if in_row_ctr < in_rows_avail {
          var inrows := in_rows_avail - in_row_ctr;
          var numrows := next_buf_stop - next_buf_row;
          numrows := if numrows < inrows then numrows else inrows;
          ConvertRows(numrows);
          in_row_ctr := in_row_ctr + numrows;
        } else {
          NotNegative();
          if rows_to_go != 0 {
            break;
          }
          Pad();
        }
        if next_buf_row == next_buf_stop {
          MulMono(out_row_group_ctr + 1, out_row_groups_avail, v);
          assert (out_row_group_ctr + 1) * v == out_row_group_ctr * v + v;
          MakeGroup(output_buf, out_row_group_ctr);
          out_row_group_ctr := out_row_group_ctr + 1;
        }
      }
    }
  }
}
