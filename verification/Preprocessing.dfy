// jinit_c_prep_controller (jcprepct.c): which preprocessing controller is
// installed, and what the main controller may expect of either.
module Preprocessing {
  import opened PrepOutput
  import opened PrepContext
  import opened PrepSimple

  class Preprocessor {
    const need_context_rows: bool
    const V: int
    const H: int
    const v: int
    const ring: PrepController?
    const simple: SimpleController?

    ghost predicate Installed() {
      && V > 0 && H > 0 && v > 0
      && (need_context_rows ==> ring != null && ring.V == V && ring.H == H && ring.v == v)
      && (!need_context_rows ==> simple != null && simple.V == V && simple.H == H && simple.v == v)
    }

    ghost function Objects(): set<object>
      requires Installed()
    {
      if need_context_rows then {ring, ring.ring, ring.color_buf} else {simple, simple.color_buf}
    }

    ghost predicate Valid()
      requires Installed()
      reads Objects()
    {
      if need_context_rows then ring.Valid() else simple.Valid()
    }

    // How many image rows have not been taken yet.
    ghost function RowsToGo(): int
      requires Installed()
      reads Objects()
    {
      if need_context_rows then ring.rows_to_go else simple.rows_to_go
    }

    // How many row groups have been made.
    ghost function Made(): int
      requires Installed()
      reads Objects()
    {
      if need_context_rows then |ring.seen| else simple.made
    }

    constructor (need_context_rows: bool, V: int, H: int, v: int)
      requires V > 0 && H > 0 && v > 0
      ensures Installed() && Valid() && fresh(Objects()) && RowsToGo() == H && Made() == 0
      ensures this.need_context_rows == need_context_rows && this.V == V && this.H == H && this.v == v
    {
      this.need_context_rows, this.V, this.H, this.v := need_context_rows, V, H, v;
      if need_context_rows {
        ring := new PrepController(V, H, v);
        simple := null;
      } else {
        ring := null;
        simple := new SimpleController(V, H, v);
      }
    }

    // Every row has been taken before all row groups of the image have been made.
    lemma RowsTaken()
      requires Installed() && Valid()
      ensures 0 <= RowsToGo() <= H && Made() >= 0
      ensures Made() * V >= H ==> RowsToGo() == 0
    {
      if need_context_rows {
        assert (|ring.seen| + 2) * V == |ring.seen| * V + 2 * V;
      }
    }

    // pre_process_data of either kind. As long as rows or row groups of the image
    // are left it fills the output, or else needs more rows.
    method PreProcessData(in0: nat, in_rows_avail: nat, output_buf: array<Row>, out0: nat, out_row_groups_avail: nat)
      returns (in_row_ctr: nat, out_row_group_ctr: nat)
      requires Installed() && Valid() && in_rows_avail - in0 <= RowsToGo() && out0 <= out_row_groups_avail
      requires output_buf.Length == out_row_groups_avail * v && output_buf !in Objects()
      requires Output(need_context_rows, V, H, v, output_buf[..], Made() - out0, out0)
      modifies Objects(), output_buf
      ensures Valid() && in0 <= in_row_ctr && RowsToGo() == old(RowsToGo()) - (in_row_ctr - in0)
      ensures in_row_ctr > in0 ==> in_row_ctr <= in_rows_avail
      ensures out0 <= out_row_group_ctr && Made() == old(Made()) + (out_row_group_ctr - out0)
      ensures Output(need_context_rows, V, H, v, output_buf[..], Made() - out_row_group_ctr, out_row_group_ctr)
      ensures out_row_group_ctr <= out_row_groups_avail
      ensures out_row_group_ctr < out_row_groups_avail ==> in_row_ctr >= in_rows_avail
      ensures out_row_group_ctr < out_row_groups_avail ==>
        RowsToGo() > 0 || (old(RowsToGo()) == 0 && old(Made()) * V >= H)
      ensures out_row_group_ctr > out0 ==> in_row_ctr > in0 || RowsToGo() == 0
    {
      hide Output;
      if need_context_rows {
        in_row_ctr, out_row_group_ctr := ring.PreProcessContext(in0, in_rows_avail, output_buf, out0,
                                                                out_row_groups_avail);
      } else {
        in_row_ctr, out_row_group_ctr := simple.PreProcessData(in0, in_rows_avail, output_buf, out0,
                                                               out_row_groups_avail);
      }
    }
  }
}
