// What the encoder's preprocessing controllers (jcprepct.c) are to make of an
// image: the rows of a component, downsampled from the padded image.
module PrepOutput {
  import opened Arith

  // Row k of what the downsampler makes of the image rows in win.
  datatype Row = Sampled(win: seq<int>, k: int)

  // The image row that stands for a row of the padded image.
  function Padded(H: int, row: int): int {
    if row < 0 then 0 else if row < H then row else H - 1
  }

  function Rows(H: int, first: int, n: int): (r: seq<int>)
    requires n >= 0
    ensures |r| == n && forall i | 0 <= i < n :: r[i] == Padded(H, first + i)
  {
    seq(n, i => Padded(H, first + i))
  }

  // A row group of v rows.
  function Downsampled(win: seq<int>, v: int): (r: seq<Row>)
    requires v >= 0
    ensures |r| == v && forall k | 0 <= k < v :: r[k] == Sampled(win, k)
  {
    seq(v, k => Sampled(win, k))
  }

  // The last row made, again and again.
  function Repeated(win: seq<int>, v: int): (r: seq<Row>)
    requires v >= 0
    ensures |r| == v && forall k | 0 <= k < v :: r[k] == Sampled(win, v - 1)
  {
    seq(v, _ => Sampled(win, v - 1))
  }

  // Row group g of a component with v rows to a row group, while V image rows
  // make up a row group. With context rows it is made from the rows of three row
  // groups; without them the last row made is repeated below the image.
  function OutGroup(context: bool, V: int, H: int, v: int, g: int): (r: seq<Row>)
    requires V > 0 && H > 0 && v > 0
    ensures |r| == v
  {
    if context then Downsampled(Rows(H, (g - 1) * V, 3 * V), v)
    else if g * V < H then Downsampled(Rows(H, g * V, V), v)
    else Repeated(Rows(H, (H - 1) / V * V, V), v)
  }

  // Row group j of the buffer is row group first + j of the component.
  ghost predicate GroupAt(context: bool, V: int, H: int, v: int, buf: seq<Row>, first: int, j: int)
    requires V > 0 && H > 0 && v > 0
  {
    0 <= j * v && j * v + v <= |buf| && buf[j * v..j * v + v] == OutGroup(context, V, H, v, first + j)
  }

  // The first n row groups of the buffer are row groups first, first + 1, ... of the component.
  ghost predicate Output(context: bool, V: int, H: int, v: int, buf: seq<Row>, first: int, n: int)
    requires V > 0 && H > 0 && v > 0
  {
    forall j | 0 <= j < n :: GroupAt(context, V, H, v, buf, first, j)
  }

  // Whatever is written behind them, the row groups stay.
  lemma OutputStays(context: bool, V: int, H: int, v: int, was: seq<Row>, buf: seq<Row>, first: int, n: int)
    requires V > 0 && H > 0 && v > 0 && n >= 0 && Output(context, V, H, v, was, first, n)
    requires |was| == |buf| && 0 <= n * v <= |was| && buf[..n * v] == was[..n * v]
    ensures Output(context, V, H, v, buf, first, n)
  {
    hide OutGroup;
    forall j | 0 <= j < n
      ensures GroupAt(context, V, H, v, buf, first, j)
    {
      assert GroupAt(context, V, H, v, was, first, j);
      MulMono(0, j, v);
      MulMono(j + 1, n, v);
      assert (j + 1) * v == j * v + v;
      assert buf[..n * v][j * v..j * v + v] == was[..n * v][j * v..j * v + v];
    }
  }

  // downsample: one row group.
  method Downsample(context: bool, V: int, H: int, v: int, win: seq<int>, output_buf: array<Row>, out: int,
                    ghost first: int)
    requires V > 0 && H > 0 && v > 0 && out >= 0 && out * v + v <= output_buf.Length
    requires OutGroup(context, V, H, v, first + out) == Downsampled(win, v)
    requires Output(context, V, H, v, output_buf[..], first, out)
    modifies output_buf
    ensures Output(context, V, H, v, output_buf[..], first, out + 1)
  {
    hide OutGroup, Output;
    MulMono(0, out, v);
    var at := out * v;
    ghost var was := output_buf[..];
    for k := 0 to v
      invariant output_buf[..at] == was[..at] && output_buf[at..at + k] == Downsampled(win, v)[..k]
    {
      output_buf[at + k] := Sampled(win, k);
    }
    GroupMore(context, V, H, v, was, output_buf[..], first, out);
  }

  lemma GroupMore(context: bool, V: int, H: int, v: int, was: seq<Row>, buf: seq<Row>, first: int, n: int)
    requires V > 0 && H > 0 && v > 0 && n >= 0 && Output(context, V, H, v, was, first, n)
    requires |was| == |buf| && 0 <= n * v && n * v + v <= |was| && buf[..n * v] == was[..n * v]
    requires buf[n * v..n * v + v] == OutGroup(context, V, H, v, first + n)
    ensures Output(context, V, H, v, buf, first, n + 1)
  {
    OutputStays(context, V, H, v, was, buf, first, n);
    assert GroupAt(context, V, H, v, buf, first, n);
  }
}
