// The decoder's main controller with context rows (jdmainct.c): two permuted
// lists of pointers to one workspace of M + 2 row groups.
module RowContext {
  import opened Arith

  // A component's shape: M row groups of rgroup sample rows in an iMCU row,
  // total iMCU rows, height real sample rows.
  datatype Shape = Shape(M: int, rgroup: int, total: int, height: int)

  // Sample rows of an iMCU row.
  function Tall(s: Shape): int {
    s.M * s.rgroup
  }

  ghost predicate ValidShape(s: Shape) {
    s.M >= 2 && s.rgroup > 0 && s.total > 0 && (s.total - 1) * Tall(s) < s.height <= s.total * Tall(s)
  }

  // The number of row groups that are not all padding.
  function Groups(s: Shape): int
    requires s.rgroup > 0 && s.height > 0
  {
    (s.height - 1) / s.rgroup + 1
  }

  // Real sample rows in the last iMCU row.
  function RowsLeft(s: Shape): int {
    s.height - (s.total - 1) * Tall(s)
  }

  // The row groups there that are not all padding.
  function GroupsLeft(s: Shape): int
    requires s.rgroup > 0
  {
    (RowsLeft(s) - 1) / s.rgroup + 1
  }

  // Padding: whatever the decoder leaves in rows below the image.
  const PADDING := -1

  function Delivered(s: Shape, row: int): int {
    if row < s.height then row else PADDING
  }

  // The row that stands for a row outside of the image: the first or the last one.
  function Nearest(s: Shape, row: int): int {
    if row < 0 then 0 else if row < s.height then row else s.height - 1
  }

  // ----- the two permuted row lists -----

  // The workspace row at position j of list w, in the normal state.
  function Phys(s: Shape, w: nat, j: int): int {
    if w == 0 || j < Tall(s) - 2 * s.rgroup then j
    else if j < Tall(s) then j + 2 * s.rgroup
    else j - 2 * s.rgroup
  }

  // ... also before the first and behind the last position.
  function Around(s: Shape, w: nat, j: int): int {
    if j < 0 then Phys(s, w, j + Tall(s) + 2 * s.rgroup)
    else if j < Tall(s) + 2 * s.rgroup then Phys(s, w, j)
    else Phys(s, w, j - Tall(s) - 2 * s.rgroup)
  }

  lemma PhysInjective(s: Shape, w: nat, i: int, j: int)
    requires ValidShape(s) && w < 2 && 0 <= i < Tall(s) + 2 * s.rgroup && 0 <= j < Tall(s) + 2 * s.rgroup
    ensures 0 <= Phys(s, w, i) < Tall(s) + 2 * s.rgroup
    ensures 0 <= Phys(s, w, j) < Tall(s) + 2 * s.rgroup
    ensures Phys(s, w, i) == Phys(s, w, j) ==> i == j
  {
    TallEnough(s);
  }

  lemma PhysRange(s: Shape, w: nat)
    requires ValidShape(s) && w < 2
    ensures forall j | 0 <= j < Tall(s) + 2 * s.rgroup :: 0 <= Phys(s, w, j) < Tall(s) + 2 * s.rgroup
  {
    TallEnough(s);
  }

  // The last two row groups of one list are the two behind the iMCU row in the other.
  lemma PhysSaved(s: Shape, w: nat, i: int)
    requires ValidShape(s) && w < 2 && 0 <= i < 2 * s.rgroup
    ensures Phys(s, 1 - w, Tall(s) + i) == Phys(s, w, Tall(s) - 2 * s.rgroup + i)
  {
    TallEnough(s);
  }

  lemma TallEnough(s: Shape)
    requires ValidShape(s)
    ensures Tall(s) >= 2 * s.rgroup > 0
  {
    MulMono(2, s.M, s.rgroup);
  }

  datatype ContextState = PrepareForImcu | ProcessImcu | PostponedRow

  // Positions lo..hi-1 of list w are as in the normal state. (Position j is at
  // rgroup + j: there is room for one row group before the start.)
  ghost predicate Listed(s: Shape, list: array<int>, w: nat, lo: int, hi: int)
    requires 0 <= s.rgroup + lo && s.rgroup + hi <= list.Length
    reads list
  {
    forall k | s.rgroup + lo <= k < s.rgroup + hi :: list[k] == Around(s, w, k - s.rgroup)
  }

  // The positions before the start all point to the first row.
  ghost predicate TopListed(s: Shape, list: array<int>)
    requires s.rgroup <= list.Length
    reads list
  {
    forall k | 0 <= k < s.rgroup :: list[k] == 0
  }

  // The workspace pointers as they are.
  method CopyWorkspace(s: Shape, xbuf0: array<int>, xbuf1: array<int>)
    requires ValidShape(s) && xbuf0.Length == xbuf1.Length == Tall(s) + 4 * s.rgroup && xbuf0 != xbuf1
    modifies xbuf0, xbuf1
    ensures forall k | s.rgroup <= k < Tall(s) + 3 * s.rgroup :: xbuf0[k] == xbuf1[k] == k - s.rgroup
  {
    var n := Tall(s) + 2 * s.rgroup;
    TallEnough(s);
    for i := 0 to n
      invariant forall k | s.rgroup <= k < s.rgroup + i :: xbuf0[k] == xbuf1[k] == k - s.rgroup
    {
      xbuf0[s.rgroup + i], xbuf1[s.rgroup + i] := i, i;
    }
  }

  // In the second list, the last four row groups in swapped order.
  method SwapLastFour(s: Shape, xbuf1: array<int>)
    requires ValidShape(s) && xbuf1.Length == Tall(s) + 4 * s.rgroup
    requires forall k | s.rgroup <= k < Tall(s) + 3 * s.rgroup :: xbuf1[k] == k - s.rgroup
    modifies xbuf1
    ensures Listed(s, xbuf1, 1, 0, Tall(s) + 2 * s.rgroup)
  {
    hide Tall;
    var top, rgroup := Tall(s), s.rgroup;
    TallEnough(s);
    for i := 0 to 2 * rgroup
      invariant forall k | rgroup <= k < top - rgroup :: xbuf1[k] == k - rgroup
      invariant forall k | top - rgroup <= k < top - rgroup + i :: xbuf1[k] == k + rgroup
      invariant forall k | top + rgroup <= k < top + rgroup + i :: xbuf1[k] == k - 3 * rgroup
    {
      xbuf1[rgroup + (top - 2 * rgroup) + i] := top + i;
      xbuf1[rgroup + top + i] := top - 2 * rgroup + i;
    }
  }

  // make_funny_pointers
  method MakeFunnyPointers(s: Shape, xbuf0: array<int>, xbuf1: array<int>)
    requires ValidShape(s) && xbuf0.Length == xbuf1.Length == Tall(s) + 4 * s.rgroup && xbuf0 != xbuf1
    modifies xbuf0, xbuf1
    ensures Listed(s, xbuf0, 0, 0, Tall(s) + 2 * s.rgroup) && Listed(s, xbuf1, 1, 0, Tall(s) + 2 * s.rgroup)
    ensures TopListed(s, xbuf0)
  {
    hide Tall;
    var top, rgroup := Tall(s), s.rgroup;
    TallEnough(s);
    CopyWorkspace(s, xbuf0, xbuf1);
    SwapLastFour(s, xbuf1);
    for i := 0 to rgroup
      invariant Listed(s, xbuf0, 0, 0, top + 2 * rgroup) && xbuf0[rgroup] == 0
      invariant forall k | 0 <= k < i :: xbuf0[k] == 0
      modifies xbuf0
    {
      xbuf0[i] := xbuf0[rgroup];
    }
  }

  // One list's part of set_wraparound_pointers.
  method Wrap(s: Shape, xbuf: array<int>)
    requires ValidShape(s) && xbuf.Length == Tall(s) + 4 * s.rgroup
    modifies xbuf
    ensures forall k | 0 <= k < s.rgroup :: xbuf[k] == old(xbuf[k + (Tall(s) + 2 * s.rgroup)])
    ensures forall k | s.rgroup <= k < Tall(s) + 3 * s.rgroup :: xbuf[k] == old(xbuf[k])
    ensures forall k | Tall(s) + 3 * s.rgroup <= k < xbuf.Length :: xbuf[k] == old(xbuf[k - (Tall(s) + 2 * s.rgroup)])
  {
    hide Tall;
    var top, rgroup := Tall(s), s.rgroup;
    TallEnough(s);
    for i := 0 to rgroup
      invariant forall k | 0 <= k < i :: xbuf[k] == old(xbuf[k + (top + 2 * rgroup)])
      invariant forall k | rgroup <= k < top + 3 * rgroup :: xbuf[k] == old(xbuf[k])
      invariant forall k | top + 3 * rgroup <= k < top + 3 * rgroup + i :: xbuf[k] == old(xbuf[k - (top + 2 * rgroup)])
    {
      xbuf[i] := xbuf[rgroup + (top + rgroup) + i];
      xbuf[rgroup + (top + 2 * rgroup) + i] := xbuf[rgroup + i];
    }
  }

  // A list with its wraparound pointers.
  ghost predicate Normal(s: Shape, list: array<int>, w: nat)
    reads list
  {
    && ValidShape(s) && list.Length == Tall(s) + 4 * s.rgroup
    && forall k | 0 <= k < list.Length :: list[k] == Around(s, w, k - s.rgroup)
  }

  // set_wraparound_pointers takes the lists from the top-of-image to the normal state.
  method SetWraparoundPointers(s: Shape, xbuf0: array<int>, xbuf1: array<int>)
    requires ValidShape(s) && xbuf0.Length == xbuf1.Length == Tall(s) + 4 * s.rgroup && xbuf0 != xbuf1
    modifies xbuf0, xbuf1
    ensures old(Listed(s, xbuf0, 0, 0, Tall(s) + 2 * s.rgroup)) ==> Normal(s, xbuf0, 0)
    ensures old(Listed(s, xbuf1, 1, 0, Tall(s) + 2 * s.rgroup)) ==> Normal(s, xbuf1, 1)
  {
    hide Tall, Phys;
    TallEnough(s);
    Wrap(s, xbuf0);
    Wrap(s, xbuf1);
  }

  lemma LastRows(s: Shape)
    requires ValidShape(s)
    ensures Tall(s) > 0 && 0 < RowsLeft(s) <= Tall(s)
    ensures RowsLeft(s) == if s.height % Tall(s) == 0 then Tall(s) else s.height % Tall(s)
  {
    TallEnough(s);
    var q, r := s.height / Tall(s), s.height % Tall(s);
    LastQuotient(s.height, Tall(s), s.total - 1, q, r);
  }

  lemma LastQuotient(h: int, t: int, n: int, q: int, r: int)
    requires t > 0 && h == q * t + r && 0 <= r < t && n * t < h <= n * t + t
    ensures h - n * t == if r == 0 then t else r
  {
    assert (q + 1) * t == q * t + t && (n + 1) * t == n * t + t;
    if q < n {
      MulMono(q + 1, n, t);
    } else if q > n {
      MulMono(n + 1, q, t);
    }
  }

  // set_bottom_pointers: the last real row is duplicated.
  method SetBottomPointers(s: Shape, xbuf: array<int>) returns (rowgroups_avail: int)
    requires ValidShape(s) && xbuf.Length == Tall(s) + 4 * s.rgroup
    modifies xbuf
    ensures rowgroups_avail == GroupsLeft(s)
    ensures forall k | 0 <= k < s.rgroup + RowsLeft(s) :: xbuf[k] == old(xbuf[k])
    ensures forall k | s.rgroup + RowsLeft(s) <= k < 3 * s.rgroup + RowsLeft(s) ::
      xbuf[k] == old(xbuf[s.rgroup + RowsLeft(s) - 1])
  {
    hide Tall, RowsLeft;
    var rgroup := s.rgroup;
    LastRows(s);
    var rows_left := s.height % Tall(s);
    if rows_left == 0 {
      rows_left := Tall(s);
    }
    rowgroups_avail := (rows_left - 1) / rgroup + 1;
    for i := 0 to 2 * rgroup
      invariant forall k | 0 <= k < rgroup + rows_left :: xbuf[k] == old(xbuf[k])
      invariant forall k | rgroup + rows_left <= k < rgroup + rows_left + i ::
        xbuf[k] == old(xbuf[rgroup + rows_left - 1])
    {
      xbuf[rgroup + rows_left + i] := xbuf[rgroup + rows_left - 1];
    }
  }

  // ----- what the workspace holds -----

  // The rows of an iMCU row that starts with row0, through list w ...
  ghost predicate Loaded(s: Shape, content: array<int>, w: nat, row0: int)
    requires ValidShape(s) && content.Length == Tall(s) + 2 * s.rgroup && w < 2
    reads content
  {
    forall j | 0 <= j < Tall(s) ::
      (PhysInjective(s, w, j, j); content[Phys(s, w, j)] == Delivered(s, row0 + j))
  }

  // ... and behind them the last two row groups of the one before.
  ghost predicate Saved(s: Shape, content: array<int>, w: nat, row0: int)
    requires ValidShape(s) && content.Length == Tall(s) + 2 * s.rgroup && w < 2
    reads content
  {
    forall j | Tall(s) <= j < Tall(s) + 2 * s.rgroup ::
      (PhysInjective(s, w, j, j); content[Phys(s, w, j)] == row0 + (j - Tall(s) - 2 * s.rgroup))
  }

  // decompress_data: the rows of an iMCU row, through the pointers of a list.
  method DecompressData(s: Shape, content: array<int>, list: array<int>, ghost w: nat, row0: int)
    requires ValidShape(s) && content.Length == Tall(s) + 2 * s.rgroup && w < 2 && content != list
    requires list.Length == Tall(s) + 4 * s.rgroup && Listed(s, list, w, 0, Tall(s) + 2 * s.rgroup)
    modifies content
    ensures Loaded(s, content, w, row0)
    ensures forall r | old(Saved(s, content, w, r)) :: Saved(s, content, w, r)
  {
    hide Tall, Phys;
    TallEnough(s);
    PhysRange(s, w);
    var top := Tall(s);
    for i := 0 to top
      invariant forall j | 0 <= j < i ::
        0 <= Phys(s, w, j) < content.Length && content[Phys(s, w, j)] == Delivered(s, row0 + j)
      invariant forall j | top <= j < top + 2 * s.rgroup ::
        0 <= Phys(s, w, j) < content.Length && content[Phys(s, w, j)] == old(content[Phys(s, w, j)])
    {
      forall j | 0 <= j < top + 2 * s.rgroup
        ensures 0 <= Phys(s, w, j) < content.Length && (j != i ==> Phys(s, w, j) != Phys(s, w, i))
      {
        PhysInjective(s, w, i, j);
      }
      content[list[s.rgroup + i]] := Delivered(s, row0 + i);
    }
  }

  // ----- what the postprocessor sees -----

  // Entries from..to-1 of a list point to rows row0 + from, row0 + from + 1, ...
  ghost predicate Shows(s: Shape, content: array<int>, list: array<int>, from: int, to: int, row0: int)
    requires 0 <= from && to <= list.Length
    reads content, list
  {
    forall k | from <= k < to :: 0 <= list[k] < content.Length && content[list[k]] == Nearest(s, row0 + k)
  }

  // A row group with the row groups above and below it; base is where the latter begin in the list.
  ghost function Window(content: array<int>, list: array<int>, base: int, rgroup: int): (r: seq<int>)
    requires 0 <= base && rgroup >= 0 && base + 3 * rgroup <= list.Length
    requires forall k | base <= k < base + 3 * rgroup :: 0 <= list[k] < content.Length
    reads content, list
    ensures |r| == 3 * rgroup && forall i | 0 <= i < 3 * rgroup :: r[i] == content[list[base + i]]
  {
    seq(3 * rgroup, i requires 0 <= i < 3 * rgroup && 0 <= list[base + i] < content.Length reads content,
        list => content[list[base + i]])
  }

  // The last row group before a last iMCU row that has less than a row group of real rows.
  ghost predicate Cramped(s: Shape, row: int) {
    row + s.rgroup == (s.total - 1) * Tall(s) && RowsLeft(s) < s.rgroup
  }

  // What the row group that starts with row is seen with: the rows above and
  // below it are the true ones, the first or last one being duplicated at the
  // edges of the image. Only in the cramped case the rows below are the ones
  // the decoder has delivered, padding included.
  ghost predicate Right(s: Shape, row: int, win: seq<int>) {
    && |win| == 3 * s.rgroup && s.rgroup > 0
    && forall i | 0 <= i < |win| ::
         win[i] == if Cramped(s, row) && i >= 2 * s.rgroup then Delivered(s, row - s.rgroup + i)
             else Nearest(s, row - s.rgroup + i)
  }

  // The whole context is right ...
  ghost predicate Exact(s: Shape, row: int, win: seq<int>) {
    |win| == 3 * s.rgroup && forall i | 0 <= i < |win| :: win[i] == Nearest(s, row - s.rgroup + i)
  }

  // ... unless the row group is the cramped one; and the nearest row below is right even then.
  lemma ContextRight(s: Shape, row: int, win: seq<int>)
    requires ValidShape(s) && Right(s, row, win)
    ensures Exact(s, row, win) <==> !Cramped(s, row)
    ensures 0 <= row < s.height ==>
      forall i | 0 <= i <= 2 * s.rgroup && row + s.rgroup < s.height :: win[i] == Nearest(s, row - s.rgroup + i)
  {
    hide Tall;
    if Cramped(s, row) {
      var i := 2 * s.rgroup + RowsLeft(s);
      LastRows(s);
      assert row - s.rgroup + i == s.height;
      assert win[i] == Delivered(s, s.height) == PADDING;
      assert Nearest(s, s.height) == s.height - 1 >= 0;
    }
  }

  // A row group within an iMCU row.
  lemma WithinRight(s: Shape, content: array<int>, list: array<int>, row0: int, p: int, avail: int, c: int)
    requires ValidShape(s) && 0 <= p < avail && (avail + 2) * s.rgroup <= list.Length && 1 <= c <= s.total
    requires row0 == (c - 1) * Tall(s) && Shows(s, content, list, 0, (avail + 2) * s.rgroup, row0 - s.rgroup)
    requires c < s.total ==> avail == s.M - 1
    ensures 0 <= p * s.rgroup && p * s.rgroup + 3 * s.rgroup <= list.Length
    ensures forall k | p * s.rgroup <= k < p * s.rgroup + 3 * s.rgroup :: 0 <= list[k] < content.Length
    ensures Right(s, row0 + p * s.rgroup, Window(content, list, p * s.rgroup, s.rgroup))
  {
    MulMono(p + 3, avail + 2, s.rgroup);
    assert (p + 3) * s.rgroup == p * s.rgroup + 3 * s.rgroup;
    NotCramped(s, row0, p, avail, c);
  }

  lemma NotCramped(s: Shape, row0: int, p: int, avail: int, c: int)
    requires ValidShape(s) && 0 <= p < avail && 1 <= c <= s.total && row0 == (c - 1) * Tall(s)
    requires (c < s.total ==> avail == s.M - 1)
    ensures !Cramped(s, row0 + p * s.rgroup)
  {
    if c < s.total {
      MulMono(c, s.total - 1, Tall(s));
      assert c * Tall(s) == row0 + Tall(s);
      MulMono(p + 1, s.M - 1, s.rgroup);
      assert (p + 1) * s.rgroup == p * s.rgroup + s.rgroup && (s.M - 1) * s.rgroup == Tall(s) - s.rgroup;
    } else {
      MulMono(0, p, s.rgroup);
    }
  }

  // The rows that the wraparound pointers show around the postponed row group.
  lemma PostponedContent(s: Shape, content: array<int>, list: array<int>, w: nat, row0: int, k: int)
    requires ValidShape(s) && w < 2 && content.Length == Tall(s) + 2 * s.rgroup && Normal(s, list, w)
    requires Loaded(s, content, w, row0) && Saved(s, content, w, row0)
    requires Tall(s) + s.rgroup <= k < Tall(s) + 4 * s.rgroup
    ensures k < list.Length == Tall(s) + 4 * s.rgroup && 0 <= list[k] < content.Length
    ensures var row := row0 + k - Tall(s) - 3 * s.rgroup;
            content[list[k]] == if k < Tall(s) + 3 * s.rgroup then row else Delivered(s, row)
  {
    hide Tall, Phys;
    TallEnough(s);
    PhysRange(s, w);
    assert list[k] == Around(s, w, k - s.rgroup);
  }

  // The postponed row group: the last one of the iMCU row before.
  lemma PostponedRight(s: Shape, content: array<int>, list: array<int>, w: nat, row0: int, c: int)
    requires ValidShape(s) && w < 2 && content.Length == Tall(s) + 2 * s.rgroup && Normal(s, list, w)
    requires 2 <= c <= s.total && row0 == (c - 1) * Tall(s) && Loaded(s, content, w, row0) && Saved(s, content, w, row0)
    ensures list.Length == Tall(s) + 4 * s.rgroup
    ensures forall k | Tall(s) + s.rgroup <= k < Tall(s) + 4 * s.rgroup :: 0 <= list[k] < content.Length
    ensures Right(s, row0 - s.rgroup, Window(content, list, Tall(s) + s.rgroup, s.rgroup))
  {
    hide Tall, Phys, Normal, Loaded, Saved;
    TallEnough(s);
    LastRows(s);
    RowsOf(s, row0, c);
    var base := Tall(s) + s.rgroup;
    PostponedContent(s, content, list, w, row0, base);
    forall k | base <= k < base + 3 * s.rgroup
      ensures 0 <= list[k] < content.Length
      ensures content[list[k]] == if k < base + 2 * s.rgroup then row0 + (k - base) - 2 * s.rgroup
          else Delivered(s, row0 + (k - base) - 2 * s.rgroup)
    {
      PostponedContent(s, content, list, w, row0, k);
    }
    LastStarts(s, row0, c);
  }

  lemma LastStarts(s: Shape, row0: int, c: int)
    requires ValidShape(s) && 1 <= c <= s.total && row0 == (c - 1) * Tall(s)
    ensures row0 <= (s.total - 1) * Tall(s) && (c < s.total ==> row0 < (s.total - 1) * Tall(s))
  {
    TallEnough(s);
    MulMono(c - 1, s.total - 1, Tall(s));
    if c < s.total {
      MulMono(c, s.total - 1, Tall(s));
      assert c * Tall(s) == row0 + Tall(s);
    }
  }

  // An iMCU row below the first one, as its list shows it before the bottom of the image is marked.
  lemma NormalShows(s: Shape, content: array<int>, list: array<int>, w: nat, row0: int, c: int, n: int)
    requires ValidShape(s) && w < 2 && content.Length == Tall(s) + 2 * s.rgroup && Normal(s, list, w)
    requires 2 <= c <= s.total && row0 == (c - 1) * Tall(s) && Loaded(s, content, w, row0) && Saved(s, content, w, row0)
    requires n == if c < s.total then Tall(s) else RowsLeft(s)
    ensures Shows(s, content, list, 0, s.rgroup + n, row0 - s.rgroup)
  {
    hide Tall, Phys;
    TallEnough(s);
    PhysRange(s, w);
    LastRows(s);
    RowsOf(s, row0, c);
  }

  // The first one.
  lemma TopShows(s: Shape, content: array<int>, list: array<int>, n: int)
    requires ValidShape(s) && content.Length == Tall(s) + 2 * s.rgroup && list.Length == Tall(s) + 4 * s.rgroup
    requires Listed(s, list, 0, 0, Tall(s) + 2 * s.rgroup) && TopListed(s, list) && Loaded(s, content, 0, 0)
    requires n == if 1 < s.total then Tall(s) else RowsLeft(s)
    ensures Shows(s, content, list, 0, s.rgroup + n, -s.rgroup)
  {
    hide Tall;
    TallEnough(s);
    LastRows(s);
    RowsOf(s, 0, 1);
    assert content[Phys(s, 0, 0)] == Delivered(s, 0 + 0);
  }

  // Which rows of an iMCU row are real.
  lemma RowsOf(s: Shape, row0: int, c: int)
    requires ValidShape(s) && 1 <= c <= s.total && row0 == (c - 1) * Tall(s)
    ensures c < s.total ==> row0 + Tall(s) < s.height
    ensures c == s.total ==> row0 + RowsLeft(s) == s.height
    ensures row0 >= 0 && (c >= 2 ==> row0 >= Tall(s))
  {
    TallEnough(s);
    MulMono(0, c - 1, Tall(s));
    if c >= 2 {
      MulMono(1, c - 1, Tall(s));
    }
    if c < s.total {
      MulMono(c, s.total - 1, Tall(s));
      assert c * Tall(s) == row0 + Tall(s);
    }
  }

  // Marking the bottom makes the list show copies of the last row.
  lemma BottomShows(s: Shape, content: array<int>, was: seq<int>, list: array<int>, row0: int)
    requires ValidShape(s) && list.Length == Tall(s) + 4 * s.rgroup == |was| && row0 == (s.total - 1) * Tall(s)
    requires forall k | 0 <= k < s.rgroup + RowsLeft(s) ::
      list[k] == was[k] && 0 <= was[k] < content.Length && content[was[k]] == Nearest(s, row0 - s.rgroup + k)
    requires forall k | s.rgroup + RowsLeft(s) <= k < 3 * s.rgroup + RowsLeft(s) ::
      list[k] == was[s.rgroup + RowsLeft(s) - 1]
    ensures RowsLeft(s) <= Tall(s)
    ensures Shows(s, content, list, 0, 3 * s.rgroup + RowsLeft(s), row0 - s.rgroup)
  {
    hide Tall;
    LastRows(s);
    RowsOf(s, row0, s.total);
  }

  // ----- the controller -----

  // The last two row groups of an iMCU row stay where the other list has its
  // positions behind the iMCU row.
  lemma SavedForNext(s: Shape, content: array<int>, w: nat, row0: int)
    requires ValidShape(s) && content.Length == Tall(s) + 2 * s.rgroup && w < 2
    requires Loaded(s, content, w, row0) && row0 + Tall(s) < s.height
    ensures Saved(s, content, 1 - w, row0 + Tall(s))
  {
    hide Tall, Phys;
    TallEnough(s);
    PhysRange(s, 1 - w);
    var v := 1 - w;
    forall j | Tall(s) <= j < Tall(s) + 2 * s.rgroup
      ensures content[Phys(s, v, j)] == row0 + Tall(s) + (j - Tall(s) - 2 * s.rgroup)
    {
      PhysSaved(s, w, j - Tall(s));
      assert content[Phys(s, w, j - 2 * s.rgroup)] == Delivered(s, row0 + (j - 2 * s.rgroup));
    }
  }

  // The row groups up to the last iMCU row, and those in it.
  lemma GroupsSplit(s: Shape)
    requires ValidShape(s)
    ensures s.height > 0 && Groups(s) == (s.total - 1) * s.M + GroupsLeft(s)
    ensures 0 < GroupsLeft(s) * s.rgroup < RowsLeft(s) + s.rgroup
  {
    hide Tall, RowsLeft;
    LastRows(s);
    RowsOf(s, (s.total - 1) * Tall(s), s.total);
    GroupRow(s, s.total, 0);
    var n, left := (s.total - 1) * s.M, RowsLeft(s);
    var q, r := Divided(left - 1, s.rgroup);
    SumQuotient(s.height - 1, s.rgroup, n, q, r);
  }

  lemma Divided(v: int, d: int) returns (q: int, r: int)
    requires d > 0 && v >= 0
    ensures q == v / d && r == v % d && v == q * d + r && 0 <= r < d && q >= 0 && (q + 1) * d == q * d + d && q * d >= 0
  {
    q, r := v / d, v % d;
    MulMono(0, q, d);
  }

  lemma SumQuotient(v: int, d: int, n: int, q: int, r: int)
    requires d > 0 && v == n * d + (q * d + r) && 0 <= r < d
    ensures v / d == n + q
  {
    assert (n + q) * d == n * d + q * d;
    QuotientIs(v, d, n + q, r);
  }

  lemma QuotientIs(v: int, d: int, q: int, r: int)
    requires d > 0 && v == q * d + r && 0 <= r < d
    ensures v / d == q
  {
    var q', r' := v / d, v % d;
    if q' < q {
      MulMono(q' + 1, q, d);
    } else if q < q' {
      MulMono(q + 1, q', d);
    }
  }

  // Where a row group starts.
  lemma GroupRow(s: Shape, c: int, p: int)
    ensures ((c - 1) * s.M + p) * s.rgroup == (c - 1) * Tall(s) + p * s.rgroup
  {
    assert ((c - 1) * s.M) * s.rgroup == (c - 1) * (s.M * s.rgroup);
  }

  // The row groups handed out, in order, with the rows around them.
  ghost predicate AllRight(s: Shape, seen: seq<seq<int>>) {
    forall g | 0 <= g < |seen| :: Right(s, g * s.rgroup, seen[g])
  }

  lemma RightMore(s: Shape, seen: seq<seq<int>>, win: seq<int>)
    requires AllRight(s, seen) && Right(s, |seen| * s.rgroup, win)
    ensures AllRight(s, seen + [win]) && seen <= seen + [win]
  {
    hide Right;
  }

  class MainController {
    const s: Shape
    const content: array<int>
    const xbuffer0: array<int>
    const xbuffer1: array<int>
    var whichptr: nat
    var buffer_full: bool
    var rowgroup_ctr: int
    var rowgroups_avail: int
    var context_state: ContextState
    var iMCU_row_ctr: int
    ghost var seen: seq<seq<int>>

    function List(w: nat): array<int> {
      if w == 0 then xbuffer0 else xbuffer1
    }

    ghost predicate Allocated() {
      && ValidShape(s) && content.Length == Tall(s) + 2 * s.rgroup
      && xbuffer0.Length == xbuffer1.Length == Tall(s) + 4 * s.rgroup
      && xbuffer0 != xbuffer1 && xbuffer0 != content && xbuffer1 != content
    }

    ghost function Row0(): int
      reads this
    {
      (iMCU_row_ctr - 1) * Tall(s)
    }

    // Both lists, without and with their wraparound pointers.
    ghost predicate BothListed()
      requires Allocated()
      reads xbuffer0, xbuffer1
    {
      TallEnough(s);
      Listed(s, xbuffer0, 0, 0, Tall(s) + 2 * s.rgroup) && Listed(s, xbuffer1, 1, 0, Tall(s) + 2 * s.rgroup)
    }

    ghost predicate BothNormal()
      reads xbuffer0, xbuffer1
    {
      Normal(s, xbuffer0, 0) && Normal(s, xbuffer1, 1)
    }

    // All row groups so far have been seen right, in order.
    ghost predicate SeenRight()
      reads this
    {
      AllRight(s, seen)
    }

    // Nothing has been read.
    ghost predicate Starting()
      requires Allocated()
      reads this, xbuffer0, xbuffer1
    {
      && context_state.PrepareForImcu? && !buffer_full && iMCU_row_ctr == 0 && whichptr == 0 && |seen| == 0
      && BothListed() && (TallEnough(s); TopListed(s, xbuffer0))
    }

    // An iMCU row is in the workspace, behind the end of the one before.
    ghost predicate Filled()
      requires Allocated()
      reads this, content
    {
      && buffer_full
      && 1 <= iMCU_row_ctr <= s.total
      && whichptr == (iMCU_row_ctr - 1) % 2
      && Loaded(s, content, whichptr, Row0())
      && (iMCU_row_ctr > 1 ==> Saved(s, content, whichptr, Row0()))
    }

    // A row group is postponed until the next iMCU row has been read.
    ghost predicate Awaiting()
      requires Allocated()
      reads this, content, xbuffer0, xbuffer1
    {
      && context_state.PostponedRow? && !buffer_full && 1 <= iMCU_row_ctr < s.total && whichptr == iMCU_row_ctr % 2
      && rowgroup_ctr == s.M + 1 && rowgroups_avail == s.M + 2
      && BothNormal() && Saved(s, content, whichptr, Row0() + Tall(s)) && |seen| == iMCU_row_ctr * s.M - 1
    }

    ghost predicate Late()
      requires Allocated()
      reads this, content, xbuffer0, xbuffer1
    {
      && context_state.PostponedRow?
      && Filled()
      && iMCU_row_ctr > 1
      && rowgroup_ctr == s.M + 1
      && rowgroups_avail == s.M + 2
      && BothNormal() && |seen| == (iMCU_row_ctr - 1) * s.M - 1
    }

    // The iMCU row is about to be handed out.
    ghost predicate Ready()
      requires Allocated()
      reads this, content, xbuffer0, xbuffer1
    {
      && context_state.PrepareForImcu? && Filled() && |seen| == (iMCU_row_ctr - 1) * s.M
      && if iMCU_row_ctr == 1 then BothListed() && (TallEnough(s); TopListed(s, xbuffer0)) else BothNormal()
    }

    // It is being handed out.
    ghost predicate Working()
      requires Allocated()
      reads this, content, xbuffer0, xbuffer1
    {
      && context_state.ProcessImcu? && buffer_full && 1 <= iMCU_row_ctr <= s.total && whichptr == (iMCU_row_ctr - 1) % 2
      && 0 <= rowgroup_ctr <= rowgroups_avail && |seen| == (iMCU_row_ctr - 1) * s.M + rowgroup_ctr
      && rowgroups_avail == (if iMCU_row_ctr < s.total then s.M - 1 else GroupsLeft(s))
      && 0 <= (rowgroups_avail + 2) * s.rgroup <= Tall(s) + 4 * s.rgroup
      && Shows(s, content, List(whichptr), 0, (rowgroups_avail + 2) * s.rgroup, Row0() - s.rgroup)
      && (iMCU_row_ctr < s.total ==>
          Loaded(s, content, whichptr, Row0()) && if iMCU_row_ctr == 1 then BothListed() else BothNormal())
    }

    // All of the image has been handed out.
    ghost predicate Done()
      reads this
    {
      s.rgroup > 0 && s.height > 0 && |seen| == Groups(s)
    }

    ghost predicate Valid()
      reads this, content, xbuffer0, xbuffer1
    {
      && Allocated() && SeenRight()
      && (Done() || Starting() || Awaiting() || Late() || (Ready() && iMCU_row_ctr > 1)
          || (Working() && rowgroup_ctr < rowgroups_avail))
    }

    // start_pass_main, with context rows
    constructor (s: Shape)
      requires ValidShape(s)
      ensures Valid() && this.s == s && seen == []
    {
      TallEnough(s);
      this.s := s;
      var x0, x1 := new int[Tall(s) + 4 * s.rgroup], new int[Tall(s) + 4 * s.rgroup];
      MakeFunnyPointers(s, x0, x1);
      content := new int[Tall(s) + 2 * s.rgroup];
      xbuffer0, xbuffer1 := x0, x1;
      whichptr, buffer_full, rowgroup_ctr, rowgroups_avail := 0, false, 0, 0;
      context_state, iMCU_row_ctr := PrepareForImcu, 0;
      seen := [];
    }

    lemma ListsApart(w: nat)
      requires Allocated()
      ensures List(w) != content && List(w).Length == Tall(s) + 4 * s.rgroup
    {
    }

    // post_process_data takes n of the row groups it is offered.
    method PostPostponed(n: nat)
      requires Allocated() && SeenRight() && Late() && n <= 1
      modifies this`rowgroup_ctr, this`seen
      ensures SeenRight() && rowgroup_ctr == old(rowgroup_ctr) + n && |seen| == |old(seen)| + n && old(seen) <= seen
    {
      hide Tall, Loaded, Saved, Normal, Right;
      if n == 1 {
        PostponedRight(s, content, List(whichptr), whichptr, Row0(), iMCU_row_ctr);
        GroupRow(s, iMCU_row_ctr, -1);
        GroupRow(s, s.M + 2, 0);
        ghost var win := Window(content, List(whichptr), Tall(s) + s.rgroup, s.rgroup);
        RightMore(s, seen, win);
        seen := seen + [win];
        rowgroup_ctr := rowgroup_ctr + 1;
      }
    }

    method PostWorking(n: nat)
      requires Allocated() && SeenRight() && Working() && rowgroup_ctr + n <= rowgroups_avail
      modifies this`rowgroup_ctr, this`seen
      ensures SeenRight() && Working() && rowgroup_ctr == old(rowgroup_ctr) + n && |seen| == |old(seen)| + n
      ensures old(seen) <= seen
    {
      hide Tall, Loaded, Normal, Right, BothListed, BothNormal, Shows, AllRight, Window, RowsLeft, GroupsLeft;
      ListsApart(whichptr);
      for i := 0 to n
        invariant SeenRight() && Working() && rowgroup_ctr == old(rowgroup_ctr) + i && |seen| == |old(seen)| + i
        invariant old(seen) <= seen
      {
        WithinRight(s, content, List(whichptr), Row0(), rowgroup_ctr, rowgroups_avail, iMCU_row_ctr);
        GroupRow(s, iMCU_row_ctr, rowgroup_ctr);
        ghost var win := Window(content, List(whichptr), rowgroup_ctr * s.rgroup, s.rgroup);
        RightMore(s, seen, win);
        seen := seen + [win];
        rowgroup_ctr := rowgroup_ctr + 1;
      }
    }

    lemma ListIs(w: nat)
      requires Allocated() && w < 2
      ensures BothListed() ==> Listed(s, List(w), w, 0, Tall(s) + 2 * s.rgroup) && 0 < s.rgroup && Tall(s) > 0
      ensures BothNormal() ==>
        Normal(s, List(w), w) && 0 < s.rgroup && Tall(s) > 0 && Listed(s, List(w), w, 0, Tall(s) + 2 * s.rgroup)
    {
      hide Tall, Around;
      TallEnough(s);
    }

    // An iMCU row is read through the list in use.
    method ReadImcu()
      requires Allocated() && SeenRight() && (Starting() || Awaiting())
      modifies this`buffer_full, this`iMCU_row_ctr, content
      ensures SeenRight() && seen == old(seen) && (old(Starting()) ==> Ready()) && (old(Awaiting()) ==> Late())
    {
      hide Tall, Loaded, Saved, Normal, Right, Listed, TopListed, Groups;
      ListIs(whichptr);
      ListsApart(whichptr);
      DecompressData(s, content, List(whichptr), whichptr, iMCU_row_ctr * Tall(s));
      buffer_full := true;
      iMCU_row_ctr := iMCU_row_ctr + 1;
    }

    // The pointers show the rows of the iMCU row, the last real one duplicated at the bottom.
    lemma ReadyShows()
      requires Allocated() && Ready()
      ensures 0 < s.rgroup && 0 < RowsLeft(s) <= Tall(s) && List(whichptr).Length == Tall(s) + 4 * s.rgroup
      ensures Shows(s, content, List(whichptr), 0,
                    s.rgroup + if iMCU_row_ctr < s.total then Tall(s) else RowsLeft(s), Row0() - s.rgroup)
    {
      hide Tall, Loaded, Saved, Normal, Listed, TopListed, Shows, RowsLeft;
      TallEnough(s);
      LastRows(s);
      ListsApart(whichptr);
      var n := if iMCU_row_ctr < s.total then Tall(s) else RowsLeft(s);
      if iMCU_row_ctr == 1 {
        GroupRow(s, 1, 0);
        TopShows(s, content, xbuffer0, n);
      } else {
        ListIs(whichptr);
        NormalShows(s, content, List(whichptr), whichptr, Row0(), iMCU_row_ctr, n);
      }
    }

    // CTX_PREPARE_FOR_IMCU
    method PrepareImcu()
      requires Allocated() && SeenRight() && Ready()
      modifies this`rowgroup_ctr, this`rowgroups_avail, this`context_state, xbuffer0, xbuffer1
      ensures SeenRight() && seen == old(seen) && Working() && rowgroup_ctr == 0 < rowgroups_avail
    {
      hide Tall, Loaded, Saved, Normal, Right, Listed, TopListed, Groups, RowsLeft;
      ReadyShows();
      GroupsSplit(s);
      AvailRows();
      rowgroup_ctr := 0;
      rowgroups_avail := s.M - 1;
      if iMCU_row_ctr == s.total {
        ghost var was := List(whichptr)[..];
        rowgroups_avail := SetBottomPointers(s, List(whichptr));
        BottomShows(s, content, was, List(whichptr), Row0());
      }
      context_state := ProcessImcu;
    }

    lemma AvailRows()
      requires Allocated()
      ensures (s.M - 1 + 2) * s.rgroup == Tall(s) + s.rgroup && s.M - 1 > 0
      ensures var avail := GroupsLeft(s);
              avail > 0 && 0 <= (avail + 2) * s.rgroup <= 3 * s.rgroup + RowsLeft(s)
              && (avail + 2) * s.rgroup <= Tall(s) + 4 * s.rgroup
    {
      hide RowsLeft;
      LastRows(s);
      GroupsSplit(s);
      var q, r := Divided(RowsLeft(s) - 1, s.rgroup);
      assert (q + 1 + 2) * s.rgroup == (q + 1) * s.rgroup + 2 * s.rgroup;
    }

    lemma Parity(c: int)
      ensures 1 - (c - 1) % 2 == c % 2
    {
    }

    // All row groups of the iMCU row have been processed.
    lemma WorkDone()
      requires Allocated() && Working() && rowgroup_ctr == rowgroups_avail
      ensures if iMCU_row_ctr < s.total
              then Saved(s, content, 1 - whichptr, Row0() + Tall(s)) && |seen| == iMCU_row_ctr * s.M - 1
              else Done()
      ensures 1 - whichptr == iMCU_row_ctr % 2
    {
      hide Tall, Loaded, Saved, Normal, Listed, Groups, GroupsLeft, RowsLeft, Shows, BothListed, BothNormal;
      GroupsSplit(s);
      Parity(iMCU_row_ctr);
      if iMCU_row_ctr < s.total {
        RowsOf(s, Row0(), iMCU_row_ctr);
        SavedForNext(s, content, whichptr, Row0());
        NextGroup(iMCU_row_ctr, s.M);
      }
    }

    // The end of CTX_PROCESS_IMCU: the other list takes over.
    method FinishImcu()
      requires Allocated() && SeenRight() && Working() && rowgroup_ctr == rowgroups_avail
      modifies this`whichptr, this`buffer_full, this`rowgroup_ctr, this`rowgroups_avail, this`context_state, xbuffer0,
        xbuffer1
      ensures SeenRight() && seen == old(seen) && (Done() || Awaiting())
    {
      hide Tall, Loaded, Saved, Normal, Right, Listed, Groups, GroupsLeft, RowsLeft, Shows;
      WorkDone();
      if iMCU_row_ctr == 1 {
        SetWraparoundPointers(s, xbuffer0, xbuffer1);
      }
      whichptr := 1 - whichptr;
      buffer_full := false;
      rowgroup_ctr := s.M + 1;
      rowgroups_avail := s.M + 2;
      context_state := PostponedRow;
    }

    lemma NextGroup(c: int, m: int)
      ensures (c - 1) * m + (m - 1) == c * m - 1
    {
    }

    // process_data_context_main. source_ok: the coefficient controller has an
    // iMCU row; the postprocessor takes postponed of the postponed row group and
    // then at most most others, leaving room behind the former or not.
    method ProcessData(source_ok: bool, postponed: bool, room: bool, most: nat)
      requires Valid() && !Done()
      modifies this, content, xbuffer0, xbuffer1
      ensures Valid() && old(seen) <= seen
      ensures source_ok && postponed && most > 0 ==> |seen| > |old(seen)|
    {
      hide Tall, Loaded, Saved, Normal, Right, Listed, TopListed, Groups, RowsLeft, Shows;
      if !buffer_full {
        if !source_ok {
          return;
        }
        ReadImcu();
      }
      if context_state == PostponedRow {
        PostPostponed(if postponed then 1 else 0);
        if rowgroup_ctr < rowgroups_avail {
          return;
        }
        context_state := PrepareForImcu;
        if !room {
          return;
        }
      }
      if context_state == PrepareForImcu {
        PrepareImcu();
      }
      var left := rowgroups_avail - rowgroup_ctr;
      PostWorking(if most < left then most else left);
      if rowgroup_ctr < rowgroups_avail {
        return;
      }
      FinishImcu();
    }

    // The postprocessor sees every row group exactly once and in order, each
    // with its full context, but for the cramped one.
    lemma ImageSeen()
      requires Valid() && Done()
      ensures |seen| == Groups(s) && forall g | 0 <= g < |seen| ::
        Right(s, g * s.rgroup, seen[g]) && (Exact(s, g * s.rgroup, seen[g]) <==> !Cramped(s, g * s.rgroup))
    {
      hide Tall, Right, Exact, Cramped, Groups;
      forall g | 0 <= g < |seen|
        ensures Right(s, g * s.rgroup, seen[g]) && (Exact(s, g * s.rgroup, seen[g]) <==> !Cramped(s, g * s.rgroup))
      {
        assert Right(s, g * s.rgroup, seen[g]);
        ContextRight(s, g * s.rgroup, seen[g]);
      }
    }

    // Over a whole image: every row group has its full context just if the last
    // iMCU row is the only one or has a row group of real rows.
    lemma AllExact()
      requires Valid() && Done()
      ensures (forall g | 0 <= g < |seen| :: Exact(s, g * s.rgroup, seen[g])) <==>
        s.total == 1 || RowsLeft(s) >= s.rgroup
    {
      hide Tall, Right, Exact, Groups;
      ImageSeen();
      GroupsSplit(s);
      if s.total > 1 && RowsLeft(s) < s.rgroup {
        MulMono(1, s.total - 1, s.M);
        var last := (s.total - 1) * s.M - 1;
        GroupRow(s, s.total, -1);
        assert Cramped(s, last * s.rgroup) && !Exact(s, last * s.rgroup, seen[last]);
      } else if s.total == 1 {
        forall g | 0 <= g < |seen|
          ensures Exact(s, g * s.rgroup, seen[g])
        {
          MulMono(0, g, s.rgroup);
          assert !Cramped(s, g * s.rgroup);
        }
      }
    }

    // 17 rows of luminance with two rows to a row group: the rows below row group
    // 7 are row 16 and padding.
    lemma SeventeenRows()
      requires Valid() && Done() && s == Shape(8, 2, 2, 17)
      ensures |seen| == 9 && seen[7] == [12, 13, 14, 15, 16, PADDING]
      ensures !Exact(s, 14, seen[7])
    {
      CrampedShape();
      ImageSeen();
      assert Right(s, 7 * 2, seen[7]);
    }
  }

  // Such an image exists: its last iMCU row has a single real row.
  lemma CrampedShape()
    ensures var s := Shape(8, 2, 2, 17); ValidShape(s) && Cramped(s, 14) && RowsLeft(s) == 1
  {
  }

  // ----- several components -----

  // x / d, rounded up.
  function CeilDiv(x: int, d: int): int
    requires d > 0
  {
    (x + d - 1) / d
  }

  lemma CeilIs(x: int, d: int, q: int)
    requires d > 0 && (q - 1) * d < x <= q * d
    ensures CeilDiv(x, d) == q
  {
    var r := x + d - 1 - q * d;
    assert (q - 1) * d == q * d - d;
    QuotientIs(x + d - 1, d, q, r);
  }

  lemma CeilBounds(x: int, d: int)
    requires d > 0
    ensures (CeilDiv(x, d) - 1) * d < x <= CeilDiv(x, d) * d
  {
    var q, r := (x + d - 1) / d, (x + d - 1) % d;
    assert x + d - 1 == q * d + r;
    assert (q - 1) * d == q * d - d;
  }

  // The count of row groups is the same whichever component it is taken from: a
  // component with R rows to a row group has the image's height times R * m over
  // full, rounded up, as its own height.
  lemma SameGroups(image_height: int, R: int, m: int, full: int)
    requires image_height > 0 && R > 0 && m > 0 && full > 0
    ensures CeilDiv(CeilDiv(image_height * (R * m), full), R) == CeilDiv(image_height * m, full)
  {
    var a, h := image_height * m, CeilDiv(image_height * (R * m), full);
    var q := CeilDiv(a, full);
    assert image_height * (R * m) == a * R;
    CeilBounds(a * R, full);
    CeilBounds(a, full);
    // (q - 1) * full < a <= q * full, and (h - 1) * full < a * R <= h * full
    assert a * R <= (q * full) * R == (q * R) * full by {
      MulMono(a, q * full, R);
    }
    assert ((q - 1) * R) * full == ((q - 1) * full) * R;
    assert ((q - 1) * full + 1) * R == ((q - 1) * full) * R + R;
    MulMono((q - 1) * full + 1, a, R);
    if h > q * R {
      MulMono(q * R, h - 1, full);
    }
    if h <= (q - 1) * R {
      MulMono(h, (q - 1) * R, full);
    }
    CeilIs(h, R, q);
  }

  // A component of the image: m is min_DCT_scaled_size, full the height of an
  // iMCU row at full size.
  ghost predicate ComponentOf(s: Shape, image_height: int, m: int, full: int) {
    image_height > 0 && m > 0 && full > 0 && s.rgroup > 0 && s.height == CeilDiv(image_height * (s.rgroup * m), full)
  }

  // set_bottom_pointers may take rowgroups_avail from the first component: it is
  // the same for all.
  lemma OneCountForAll(s: Shape, s': Shape, image_height: int, m: int, full: int)
    requires ValidShape(s) && ValidShape(s') && s.M == s'.M && s.total == s'.total
    requires ComponentOf(s, image_height, m, full) && ComponentOf(s', image_height, m, full)
    ensures GroupsLeft(s) == GroupsLeft(s')
  {
    hide Tall, CeilDiv, GroupsLeft;
    GroupsSplit(s);
    GroupsSplit(s');
    GroupsRoundUp(s);
    GroupsRoundUp(s');
    SameGroups(image_height, s.rgroup, m, full);
    SameGroups(image_height, s'.rgroup, m, full);
  }

  lemma GroupsRoundUp(s: Shape)
    requires s.rgroup > 0 && s.height > 0
    ensures Groups(s) == CeilDiv(s.height, s.rgroup)
  {
    var q, r := Divided(s.height - 1, s.rgroup);
    CeilIs(s.height, s.rgroup, q + 1);
  }
}
