// The recommended progressive script: fill_a_scan, fill_scans, fill_dc_scans and
// jpeg_simple_progression of jcparam.c.
module SimpleProgression {
  import opened Blocks
  import opened Scripts

  // A scan without the component indexes that mean nothing.
  datatype Entry = Entry(comps: seq<int>, Ss: int, Se: int, Ah: int, Al: int)

  function EntryOf(s: ScanInfo): Entry
    requires ValidInfo(s)
  {
    Entry(CompsOf(s), s.Ss, s.Se, s.Ah, s.Al)
  }

  // One scan for each component.
  function EachScan(n: nat, Ss: int, Se: int, Ah: int, Al: int): (r: seq<Entry>)
    ensures |r| == n && forall i | 0 <= i < n :: r[i] == Entry([i], Ss, Se, Ah, Al)
  {
    seq(n, i => Entry([i], Ss, Se, Ah, Al))
  }

  function AllComps(n: nat): (r: seq<int>)
    ensures |r| == n && forall i | 0 <= i < n :: r[i] == i
  {
    seq(n, i => i)
  }

  // The DC values, in one interleaved scan if possible.
  function DcScans(n: nat, Ah: int, Al: int): seq<Entry> {
    if n <= MAX_COMPS_IN_SCAN then [Entry(AllComps(n), 0, 0, Ah, Al)] else EachScan(n, 0, 0, Ah, Al)
  }

  // The script for n components; ycc: these are the three of a YCbCr image.
  function SimpleScript(n: nat, ycc: bool): seq<Entry> {
    if n == 3 && ycc then
      DcScans(n, 0, 1)
        + [Entry([0], 1, 5, 0, 2), Entry([2], 1, 63, 0, 1), Entry([1], 1, 63, 0, 1), Entry([0], 6, 63, 0, 2),
           Entry([0], 1, 63, 2, 1)]
        + DcScans(n, 1, 0)
        + [Entry([2], 1, 63, 1, 0), Entry([1], 1, 63, 1, 0), Entry([0], 1, 63, 1, 0)]
    else
      DcScans(n, 0, 1) + EachScan(n, 1, 5, 0, 2) + EachScan(n, 6, 63, 0, 2) + EachScan(n, 1, 63, 2, 1)
        + DcScans(n, 1, 0) + EachScan(n, 1, 63, 1, 0)
  }

  // ----- its order -----

  // What a scan of the all-purpose script is for: first the DC values without
  // their last bit, then low and high frequencies without their last two bits,
  // then one bit more of these, and at last the last bits, DC values first.
  function Purpose(e: Entry): int {
    if e.Ss == 0 then if e.Ah == 0 then 0 else 4
    else if e.Al == 2 then if e.Ss == 1 then 1 else 2
    else if e.Al == 1 then 3
    else 5
  }

  predicate Precedes(e: Entry, e': Entry) {
    || Purpose(e) < Purpose(e')
    || (Purpose(e) == Purpose(e') && e.comps != [] && e'.comps != [] && e.comps[0] < e'.comps[0])
  }

  // All components are served before the next stage begins, in their order.
  lemma AllPurposeOrder(n: nat, ycc: bool)
    requires !(n == 3 && ycc)
    ensures var s := SimpleScript(n, ycc);
            forall i, j | 0 <= i < j < |s| :: Precedes(s[i], s[j])
  {
    var a, b, c := DcScans(n, 0, 1), EachScan(n, 1, 5, 0, 2), EachScan(n, 6, 63, 0, 2);
    var d, e, f := EachScan(n, 1, 63, 2, 1), DcScans(n, 1, 0), EachScan(n, 1, 63, 1, 0);
    SortedStage(a, 0);
    SortedStage(e, 4);
    SortedJoin(a, b, 0, 1);
    SortedJoin(a + b, c, 1, 2);
    SortedJoin(a + b + c, d, 2, 3);
    SortedJoin(a + b + c + d, e, 3, 4);
    SortedJoin(a + b + c + d + e, f, 4, 5);
  }

  // Scans in order of stages up to stage last.
  ghost predicate Sorted(s: seq<Entry>, last: int) {
    && (forall i | 0 <= i < |s| :: Purpose(s[i]) <= last)
    && forall i, j | 0 <= i < j < |s| :: Precedes(s[i], s[j])
  }

  lemma SortedStage(s: seq<Entry>, stage: int)
    requires |s| <= 1 || forall i | 0 <= i < |s| :: s[i].comps == [i]
    requires forall i | 0 <= i < |s| :: Purpose(s[i]) == stage
    ensures Sorted(s, stage)
  {
  }

  lemma SortedJoin(a: seq<Entry>, b: seq<Entry>, last: int, stage: int)
    requires Sorted(a, last) && last < stage && (forall i | 0 <= i < |b| :: Purpose(b[i]) == stage)
    requires |b| <= 1 || forall i | 0 <= i < |b| :: b[i].comps == [i]
    ensures Sorted(a + b, stage)
  {
  }

  // The script for YCbCr images: luminance at low frequencies comes first of all
  // AC scans, and its last bit last of all scans; chrominance is sent over the
  // whole band, Cr before Cb.
  function YccStage(e: Entry): int {
    if e.Ss == 0 then if e.Ah == 0 then 0 else 6
    else if e.comps == [0] then if e.Al == 0 then 9 else if e.Al == 1 then 5 else if e.Ss == 1 then 1 else 4
    else (if e.comps == [2] then 2 else 3) + if e.Ah == 0 then 0 else 5
  }

  lemma YccOrder()
    ensures var s := SimpleScript(3, true);
            && |s| == 10 && (forall i | 0 <= i < |s| :: YccStage(s[i]) == i)
            && s[1] == Entry([0], 1, 5, 0, 2) && s[9] == Entry([0], 1, 63, 1, 0)
            && forall i | 0 <= i < |s| && s[i].Ss > 0 && s[i].comps != [0] :: s[i].Ss == 1 && s[i].Se == 63
  {
  }

  // ----- filling in the script -----

  ghost predicate Filled(space: seq<ScanInfo>, p: nat, entries: seq<Entry>) {
    && p + |entries| <= |space| && ValidScript(space)
    && forall i | 0 <= i < |entries| :: EntryOf(space[p + i]) == entries[i]
  }

  lemma FilledMore(was: seq<ScanInfo>, now: seq<ScanInfo>, p: nat, x: seq<Entry>, y: seq<Entry>)
    requires Filled(was, p, x) && Filled(now, p + |x|, y) && |was| == |now| && now[..p + |x|] == was[..p + |x|]
    ensures Filled(now, p, x + y)
  {
    forall i | 0 <= i < |x + y|
      ensures EntryOf(now[p + i]) == (x + y)[i]
    {
      if i < |x| {
        assert now[p + i] == now[..p + |x|][p + i] == was[..p + |x|][p + i] == was[p + i];
      } else {
        assert EntryOf(now[p + |x| + (i - |x|)]) == y[i - |x|];
      }
    }
  }

  // The scan at scanptr; the result is the pointer behind it.
  method FillAScan(space: array<ScanInfo>, scanptr: nat, ci: int, Ss: int, Se: int, Ah: int, Al: int)
    returns (next: nat)
    requires scanptr < space.Length && ValidScript(space[..])
    modifies space
    ensures next == scanptr + 1 && Filled(space[..], scanptr, [Entry([ci], Ss, Se, Ah, Al)])
    ensures space[..scanptr] == old(space[..scanptr])
  {
    var s := space[scanptr];
    assert ValidInfo(space[..][scanptr]);
    space[scanptr] := ScanInfo(1, s.component_index[0 := ci], Ss, Se, Ah, Al);
    assert CompsOf(space[scanptr]) == [ci];
    next := scanptr + 1;
  }

  method FillScans(space: array<ScanInfo>, scanptr: nat, ncomps: nat, Ss: int, Se: int, Ah: int, Al: int)
    returns (next: nat)
    requires scanptr + ncomps <= space.Length && ValidScript(space[..])
    modifies space
    ensures next == scanptr + ncomps && Filled(space[..], scanptr, EachScan(ncomps, Ss, Se, Ah, Al))
    ensures space[..scanptr] == old(space[..scanptr])
  {
    next := scanptr;
    for ci := 0 to ncomps
      invariant next == scanptr + ci && Filled(space[..], scanptr, EachScan(ci, Ss, Se, Ah, Al))
      invariant space[..scanptr] == old(space[..scanptr])
    {
      ghost var was := space[..];
      next := FillAScan(space, next, ci, Ss, Se, Ah, Al);
      FilledMore(was, space[..], scanptr, EachScan(ci, Ss, Se, Ah, Al), [Entry([ci], Ss, Se, Ah, Al)]);
      assert EachScan(ci + 1, Ss, Se, Ah, Al) == EachScan(ci, Ss, Se, Ah, Al) + [Entry([ci], Ss, Se, Ah, Al)];
      assert space[..scanptr] == space[..scanptr + ci][..scanptr] == was[..scanptr];
    }
  }

  method FillDcScans(space: array<ScanInfo>, scanptr: nat, ncomps: nat, Ah: int, Al: int) returns (next: nat)
    requires scanptr + |DcScans(ncomps, Ah, Al)| <= space.Length && ValidScript(space[..])
    modifies space
    ensures next == scanptr + |DcScans(ncomps, Ah, Al)| && Filled(space[..], scanptr, DcScans(ncomps, Ah, Al))
    ensures space[..scanptr] == old(space[..scanptr])
  {
    if ncomps <= MAX_COMPS_IN_SCAN {
      assert ValidInfo(space[..][scanptr]);
      var index := space[scanptr].component_index;
      for ci := 0 to ncomps
        invariant |index| == MAX_COMPS_IN_SCAN && forall i | 0 <= i < ci :: index[i] == i
        modifies {}
      {
        index := index[ci := ci];
      }
      space[scanptr] := ScanInfo(ncomps, index, 0, 0, Ah, Al);
      assert CompsOf(space[scanptr]) == AllComps(ncomps);
      next := scanptr + 1;
    } else {
      next := FillScans(space, scanptr, ncomps, 0, 0, Ah, Al);
    }
  }

  // ----- jpeg_simple_progression -----

  // What has been filled in so far.
  ghost predicate Written(space: seq<ScanInfo>, scanptr: nat, entries: seq<Entry>) {
    scanptr == |entries| && Filled(space, 0, entries)
  }

  lemma WrittenMore(was: seq<ScanInfo>, now: seq<ScanInfo>, p: nat, next: nat, x: seq<Entry>, y: seq<Entry>)
    requires Written(was, p, x) && Filled(now, p, y) && next == p + |y| && |was| == |now| && now[..p] == was[..p]
    ensures Written(now, next, x + y)
  {
    FilledMore(was, now, 0, x, y);
  }

  // One more scan, scans for all components, or DC scans.
  method WriteOne(space: array<ScanInfo>, scanptr: nat, ci: int, Ss: int, Se: int, Ah: int, Al: int,
                  ghost x: seq<Entry>)
    returns (next: nat)
    requires Written(space[..], scanptr, x) && scanptr < space.Length
    modifies space
    ensures Written(space[..], next, x + [Entry([ci], Ss, Se, Ah, Al)])
  {
    hide Filled;
    ghost var was := space[..];
    WrittenValid(was, scanptr, x);
    next := FillAScan(space, scanptr, ci, Ss, Se, Ah, Al);
    WrittenMore(was, space[..], scanptr, next, x, [Entry([ci], Ss, Se, Ah, Al)]);
  }

  lemma WrittenValid(space: seq<ScanInfo>, p: nat, x: seq<Entry>)
    requires Written(space, p, x)
    ensures ValidScript(space) && p == |x| <= |space|
  {
  }

  method WriteEach(space: array<ScanInfo>, scanptr: nat, n: nat, Ss: int, Se: int, Ah: int, Al: int,
                   ghost x: seq<Entry>)
    returns (next: nat)
    requires Written(space[..], scanptr, x) && scanptr + n <= space.Length
    modifies space
    ensures Written(space[..], next, x + EachScan(n, Ss, Se, Ah, Al))
  {
    hide Filled;
    ghost var was := space[..];
    WrittenValid(was, scanptr, x);
    next := FillScans(space, scanptr, n, Ss, Se, Ah, Al);
    WrittenMore(was, space[..], scanptr, next, x, EachScan(n, Ss, Se, Ah, Al));
  }

  method WriteDc(space: array<ScanInfo>, scanptr: nat, n: nat, Ah: int, Al: int, ghost x: seq<Entry>)
    returns (next: nat)
    requires Written(space[..], scanptr, x) && scanptr + |DcScans(n, Ah, Al)| <= space.Length
    modifies space
    ensures Written(space[..], next, x + DcScans(n, Ah, Al))
  {
    hide Filled;
    ghost var was := space[..];
    WrittenValid(was, scanptr, x);
    next := FillDcScans(space, scanptr, n, Ah, Al);
    WrittenMore(was, space[..], scanptr, next, x, DcScans(n, Ah, Al));
  }

  lemma DcCount(n: nat, Ah: int, Al: int)
    ensures |DcScans(n, Ah, Al)| == if n <= MAX_COMPS_IN_SCAN then 1 else n
  {
  }

  // The numbers of scans agree with what is filled in.
  lemma ScriptLength(n: nat, ycc: bool)
    ensures |SimpleScript(n, ycc)| ==
      if n == 3 && ycc then 10 else if n > MAX_COMPS_IN_SCAN then 6 * n else 2 + 4 * n
  {
    DcCount(n, 0, 1);
    DcCount(n, 1, 0);
  }

  // Custom script for YCbCr color images.
  method FillYcc(space: array<ScanInfo>, n: nat) returns (scanptr: nat)
    requires n == 3 && space.Length >= 10 && ValidScript(space[..])
    modifies space
    ensures Written(space[..], scanptr, SimpleScript(n, true))
  {
    hide Filled, DcScans;
    DcCount(n, 0, 1);
    DcCount(n, 1, 0);
    NothingWritten(space[..]);
    ghost var x: seq<Entry> := [];
    scanptr := 0;
    scanptr := WriteDc(space, scanptr, n, 0, 1, x);
    assert x + DcScans(n, 0, 1) == DcScans(n, 0, 1);
    x := DcScans(n, 0, 1);
    scanptr := WriteOne(space, scanptr, 0, 1, 5, 0, 2, x);
    x := x + [Entry([0], 1, 5, 0, 2)];
    scanptr := WriteOne(space, scanptr, 2, 1, 63, 0, 1, x);
    x := x + [Entry([2], 1, 63, 0, 1)];
    scanptr := WriteOne(space, scanptr, 1, 1, 63, 0, 1, x);
    x := x + [Entry([1], 1, 63, 0, 1)];
    scanptr := WriteOne(space, scanptr, 0, 6, 63, 0, 2, x);
    x := x + [Entry([0], 6, 63, 0, 2)];
    scanptr := WriteOne(space, scanptr, 0, 1, 63, 2, 1, x);
    x := x + [Entry([0], 1, 63, 2, 1)];
    scanptr := WriteDc(space, scanptr, n, 1, 0, x);
    x := x + DcScans(n, 1, 0);
    scanptr := WriteOne(space, scanptr, 2, 1, 63, 1, 0, x);
    x := x + [Entry([2], 1, 63, 1, 0)];
    scanptr := WriteOne(space, scanptr, 1, 1, 63, 1, 0, x);
    x := x + [Entry([1], 1, 63, 1, 0)];
    scanptr := WriteOne(space, scanptr, 0, 1, 63, 1, 0, x);
    x := x + [Entry([0], 1, 63, 1, 0)];
    assert x == SimpleScript(n, true);
  }

  lemma NothingWritten(space: seq<ScanInfo>)
    requires ValidScript(space)
    ensures Written(space, 0, [])
  {
  }

  // All-purpose script for other color spaces.
  method FillOther(space: array<ScanInfo>, n: nat, ghost ycc: bool) returns (scanptr: nat)
    requires !(n == 3 && ycc) && space.Length >= |SimpleScript(n, ycc)| && ValidScript(space[..])
    modifies space
    ensures Written(space[..], scanptr, SimpleScript(n, ycc))
  {
    hide Filled, DcScans;
    DcCount(n, 0, 1);
    DcCount(n, 1, 0);
    NothingWritten(space[..]);
    ghost var x: seq<Entry> := [];
    scanptr := 0;
    scanptr := WriteDc(space, scanptr, n, 0, 1, x);
    assert x + DcScans(n, 0, 1) == DcScans(n, 0, 1);
    x := DcScans(n, 0, 1);
    scanptr := WriteEach(space, scanptr, n, 1, 5, 0, 2, x);
    x := x + EachScan(n, 1, 5, 0, 2);
    scanptr := WriteEach(space, scanptr, n, 6, 63, 0, 2, x);
    x := x + EachScan(n, 6, 63, 0, 2);
    scanptr := WriteEach(space, scanptr, n, 1, 63, 2, 1, x);
    x := x + EachScan(n, 1, 63, 2, 1);
    scanptr := WriteDc(space, scanptr, n, 1, 0, x);
    x := x + DcScans(n, 1, 0);
    scanptr := WriteEach(space, scanptr, n, 1, 63, 1, 0, x);
    x := x + EachScan(n, 1, 63, 1, 0);
    assert x == SimpleScript(n, ycc);
  }

  // jpeg_simple_progression: space is the script space of an earlier call, or null.
  method Simple(ncomps: nat, ycc: bool, script_space: array?<ScanInfo>)
    returns (scan_info: array<ScanInfo>, num_scans: nat)
    requires script_space != null ==> ValidScript(script_space[..])
    modifies script_space
    ensures num_scans == |SimpleScript(ncomps, ycc)| <= scan_info.Length && ValidScript(scan_info[..])
    ensures Written(scan_info[..], num_scans, SimpleScript(ncomps, ycc))
    ensures ValidScript(scan_info[..num_scans])
    ensures ncomps > 0 ==> Accepted(ncomps, scan_info[..num_scans]) && Complete(ncomps, scan_info[..num_scans])
  {
    hide Filled, DcScans, SimpleScript, Accepted, Complete;
    ScriptLength(ncomps, ycc);
    var nscans;
    if ncomps == 3 && ycc {
      nscans := 10;
    } else if ncomps > MAX_COMPS_IN_SCAN {
      nscans := 6 * ncomps;
    } else {
      nscans := 2 + 4 * ncomps;
    }
    if script_space == null || script_space.Length < nscans {
      var size := if nscans < 10 then 10 else nscans;
      scan_info := new ScanInfo[size](_ => ScanInfo(0, [0, 0, 0, 0], 0, 0, 0, 0));
    } else {
      scan_info := script_space;
    }
    num_scans := nscans;
    var scanptr;
    if ncomps == 3 && ycc {
      scanptr := FillYcc(scan_info, ncomps);
    } else {
      scanptr := FillOther(scan_info, ncomps, ycc);
    }
    WrittenValid(scan_info[..], scanptr, SimpleScript(ncomps, ycc));
    WrittenHolds(scan_info[..], scanptr, SimpleScript(ncomps, ycc));
    if ncomps > 0 {
      SimpleGood(ncomps, ycc, scan_info[..num_scans]);
    }
  }

  lemma WrittenHolds(space: seq<ScanInfo>, p: nat, x: seq<Entry>)
    requires Written(space, p, x)
    ensures ValidScript(space[..p]) && Holds(space[..p], 0, x)
  {
    forall i | 0 <= i < |x|
      ensures EntryOf(space[..p][0 + i]) == x[i]
    {
      assert EntryOf(space[0 + i]) == x[i];
    }
  }

  // ----- the script is a good one -----

  // Scans p, p + 1, ... of the script are the given ones.
  ghost predicate Holds(script: seq<ScanInfo>, p: nat, entries: seq<Entry>) {
    && ValidScript(script) && p + |entries| <= |script|
    && forall i | 0 <= i < |entries| :: EntryOf(script[p + i]) == entries[i]
  }

  lemma HoldsSplit(script: seq<ScanInfo>, p: nat, x: seq<Entry>, y: seq<Entry>)
    requires Holds(script, p, x + y)
    ensures Holds(script, p, x) && Holds(script, p + |x|, y)
  {
    assert forall i | 0 <= i < |x| :: (x + y)[i] == x[i];
    forall i | 0 <= i < |y|
      ensures EntryOf(script[p + |x| + i]) == y[i]
    {
      assert EntryOf(script[p + (|x| + i)]) == (x + y)[|x| + i];
    }
  }

  // The scans before n are in order, and have sent the coefficients lo..hi of
  // component c down to bit v.
  ghost predicate Sent(script: seq<ScanInfo>, n: nat, c: int, lo: int, hi: int, v: int)
    requires ValidScript(script) && n <= |script|
  {
    forall k: int | lo <= k <= hi :: LastPos(script, n, c, k) == v
  }

  // Where a coefficient has to stand for a scan with the given Ah.
  function Before(Ah: int): int {
    if Ah == 0 then -1 else Ah
  }

  lemma HoldsFirst(script: seq<ScanInfo>, p: nat, e: Entry)
    requires Holds(script, p, [e])
    ensures p < |script| && ValidScript(script) && EntryOf(script[p]) == e
  {
    assert EntryOf(script[p + 0]) == [e][0];
  }

  ghost predicate OkTo(num: nat, script: seq<ScanInfo>, n: nat)
    requires ValidScript(script) && n <= |script|
  {
    forall i | 0 <= i < n :: ScanOk(num, script, i)
  }

  // Scans p..n-1 take coefficients lo..hi of components first..last-1 to bit v, and nothing else.
  ghost predicate Takes(script: seq<ScanInfo>, p: nat, n: nat, first: int, last: int, lo: int, hi: int, v: int)
    requires ValidScript(script) && p <= |script| && n <= |script|
  {
    forall c: int, k: int ::
      LastPos(script, n, c, k) == if first <= c < last && lo <= k <= hi then v else LastPos(script, p, c, k)
  }

  // A scan of one component.
  lemma OneMore(num: nat, script: seq<ScanInfo>, p: nat, e: Entry, c: int)
    requires Holds(script, p, [e]) && e.comps == [c] && 0 <= c < num
    requires 0 <= e.Ss <= e.Se < DCTSIZE2 && 0 <= e.Ah <= MAX_AH_AL && 0 <= e.Al <= MAX_AH_AL
    requires (e.Ss == 0 ==> e.Se == 0)
    requires (e.Ah == 0 || e.Al == e.Ah - 1) && Sent(script, p, c, e.Ss, e.Se, Before(e.Ah))
    requires e.Ss != 0 ==> LastPos(script, p, c, 0) >= 0
    ensures ScanOk(num, script, p)
    ensures Takes(script, p, p + 1, c, c + 1, e.Ss, e.Se, e.Al)
  {
    HoldsFirst(script, p, e);
    var s := script[p];
    assert CompsOf(s) == [c];
    CompsCount(s, c);
    forall d, k: int | Sends(s, d, k)
      ensures Continues(LastPos(script, p, d, k), s)
    {
      assert d == c;
    }
    var n := p + 1;
    forall d: int, k: int
      ensures LastPos(script, n, d, k) == if c <= d < c + 1 && e.Ss <= k <= e.Se then e.Al else LastPos(script, p, d, k)
    {
      LastPosNext(script, p, d, k);
      assert Sends(s, d, k) <==> d == c && e.Ss <= k <= e.Se;
    }
  }

  lemma CompsCount(s: ScanInfo, c: int)
    requires ValidInfo(s) && CompsOf(s) == [c]
    ensures s.comps_in_scan == 1
  {
  }

  lemma LastPosNext(script: seq<ScanInfo>, n: nat, c: int, k: int)
    requires ValidScript(script) && n < |script|
    ensures LastPos(script, n + 1, c, k) == if Sends(script[n], c, k) then script[n].Al else LastPos(script, n, c, k)
  {
  }

  // A component that is not concerned stands where it stood.
  lemma Aside(script: seq<ScanInfo>, p: nat, n: nat, first: int, last: int, lo: int, hi: int, v: int, c: int)
    requires ValidScript(script) && p <= |script| && n <= |script| && Takes(script, p, n, first, last, lo, hi, v)
    requires !(first <= c < last)
    ensures forall a, b, w | Sent(script, p, c, a, b, w) :: Sent(script, n, c, a, b, w)
    ensures LastPos(script, n, c, 0) == LastPos(script, p, c, 0)
  {
    hide LastPos;
  }

  lemma TakesNext(script: seq<ScanInfo>, p: nat, m: nat, n: nat, last: int, lo: int, hi: int, v: int)
    requires ValidScript(script) && p <= |script| && m <= |script| && n <= |script|
    requires Takes(script, p, m, 0, last, lo, hi, v) && Takes(script, m, n, last, last + 1, lo, hi, v) && last >= 0
    ensures Takes(script, p, n, 0, last + 1, lo, hi, v)
  {
    hide LastPos;
  }

  lemma TakesNothing(script: seq<ScanInfo>, p: nat, lo: int, hi: int, v: int)
    requires ValidScript(script) && p <= |script|
    ensures Takes(script, p, p, 0, 0, lo, hi, v)
  {
  }

  lemma OkNext(num: nat, script: seq<ScanInfo>, n: nat)
    requires ValidScript(script) && n < |script| && OkTo(num, script, n) && ScanOk(num, script, n)
    ensures OkTo(num, script, n + 1)
  {
  }

  lemma HoldsValid(script: seq<ScanInfo>, p: nat, entries: seq<Entry>)
    requires Holds(script, p, entries)
    ensures ValidScript(script) && p + |entries| <= |script|
  {
  }

  // One scan for each of n components.
  lemma {:induction false} EachMore(num: nat, script: seq<ScanInfo>, p: nat, n: nat, Ss: int, Se: int, Ah: int, Al: int)
    requires n <= num && Holds(script, p, EachScan(n, Ss, Se, Ah, Al)) && OkTo(num, script, p)
    requires 0 <= Ss <= Se < DCTSIZE2 && 0 <= Ah <= MAX_AH_AL && 0 <= Al <= MAX_AH_AL && (Ss == 0 ==> Se == 0)
    requires (Ah == 0 || Al == Ah - 1)
    requires forall c | 0 <= c < n :: Sent(script, p, c, Ss, Se, Before(Ah))
    requires Ss != 0 ==> forall c | 0 <= c < n :: LastPos(script, p, c, 0) >= 0
    ensures OkTo(num, script, p + n)
    ensures Takes(script, p, p + n, 0, n, Ss, Se, Al)
  {
    hide *;
    HoldsValid(script, p, EachScan(n, Ss, Se, Ah, Al));
    if n > 0 {
      var x, m, e := EachScan(n, Ss, Se, Ah, Al), p + (n - 1), Entry([n - 1], Ss, Se, Ah, Al);
      assert x == EachScan(n - 1, Ss, Se, Ah, Al) + [e];
      HoldsSplit(script, p, EachScan(n - 1, Ss, Se, Ah, Al), [e]);
      EachMore(num, script, p, n - 1, Ss, Se, Ah, Al);
      Aside(script, p, m, 0, n - 1, Ss, Se, Al, n - 1);
      assert Sent(script, p, n - 1, Ss, Se, Before(Ah));
      OneMore(num, script, m, e, n - 1);
      TakesNext(script, p, m, m + 1, n - 1, Ss, Se, Al);
      OkNext(num, script, m);
    } else {
      TakesNothing(script, p, Ss, Se, Al);
    }
  }

  // The DC scans.
  lemma DcMore(num: nat, script: seq<ScanInfo>, p: nat, Ah: int, Al: int)
    requires num > 0 && Holds(script, p, DcScans(num, Ah, Al)) && OkTo(num, script, p)
    requires 0 <= Ah <= MAX_AH_AL && 0 <= Al <= MAX_AH_AL && (Ah == 0 || Al == Ah - 1)
    requires forall c | 0 <= c < num :: Sent(script, p, c, 0, 0, Before(Ah))
    ensures p + |DcScans(num, Ah, Al)| <= |script| && OkTo(num, script, p + |DcScans(num, Ah, Al)|)
    ensures Takes(script, p, p + |DcScans(num, Ah, Al)|, 0, num, 0, 0, Al)
  {
    hide EachScan;
    if num <= MAX_COMPS_IN_SCAN {
      HoldsFirst(script, p, Entry(AllComps(num), 0, 0, Ah, Al));
      var s := script[p];
      assert CompsOf(s) == AllComps(num);
      CountComps(s, num);
      forall c, k: int | Sends(s, c, k)
        ensures Continues(LastPos(script, p, c, k), s)
      {
        assert Sent(script, p, c, 0, 0, Before(Ah));
      }
      assert ScanOk(num, script, p);
      var n := p + 1;
      forall c: int, k: int
        ensures LastPos(script, n, c, k) == if 0 <= c < num && 0 <= k <= 0 then Al else LastPos(script, p, c, k)
      {
        LastPosNext(script, p, c, k);
        assert c in CompsOf(s) <==> 0 <= c < num by {
          if 0 <= c < num {
            assert AllComps(num)[c] == c;
          }
        }
      }
    } else {
      EachMore(num, script, p, num, 0, 0, Ah, Al);
    }
  }

  lemma CountComps(s: ScanInfo, n: nat)
    requires ValidInfo(s) && 0 < n && CompsOf(s) == AllComps(n)
    ensures s.comps_in_scan == n
  {
  }

  // Every bit of every coefficient is sent.
  ghost predicate Complete(num: nat, script: seq<ScanInfo>)
    requires ValidScript(script)
  {
    forall c, k: int | 0 <= c < num && 0 <= k < DCTSIZE2 :: LastPos(script, |script|, c, k) == 0
  }

  // The components first..last-1 stand at dc, low (coefficients 1..5) and high (6..63).
  ghost predicate Stage(script: seq<ScanInfo>, p: nat, first: int, last: int, dc: int, low: int, high: int)
    requires ValidScript(script) && p <= |script|
  {
    forall c: int, k: int | first <= c < last && 0 <= k < DCTSIZE2 ::
      LastPos(script, p, c, k) == if k == 0 then dc else if k <= 5 then low else high
  }

  lemma StageStart(script: seq<ScanInfo>, first: int, last: int)
    requires ValidScript(script)
    ensures Stage(script, 0, first, last, -1, -1, -1)
  {
  }

  lemma StageNext(script: seq<ScanInfo>, p: nat, n: nat, first: int, last: int, dc: int, low: int, high: int, lo: int,
                  hi: int, v: int)
    requires ValidScript(script) && p <= |script| && n <= |script| && Stage(script, p, first, last, dc, low, high)
    requires Takes(script, p, n, first, last, lo, hi, v)
    requires (lo == hi == 0) || (lo == 1 && hi == 5) || (lo == 6 && hi == 63) || (lo == 1 && hi == 63)
    ensures Stage(script, n, first, last, if lo == 0 then v else dc, if lo == 1 then v else low,
                  if hi == 63 then v else high)
  {
    hide LastPos;
  }

  lemma StageSent(script: seq<ScanInfo>, p: nat, first: int, last: int, dc: int, low: int, high: int)
    requires ValidScript(script) && p <= |script| && Stage(script, p, first, last, dc, low, high)
    ensures forall c | first <= c < last ::
      Sent(script, p, c, 0, 0, dc) && Sent(script, p, c, 1, 5, low) && Sent(script, p, c, 6, 63, high)
    ensures low == high ==> forall c | first <= c < last :: Sent(script, p, c, 1, 63, low)
    ensures forall c | first <= c < last :: LastPos(script, p, c, 0) == dc
  {
    hide LastPos;
  }

  // DC scans of all components, from stage to stage.
  lemma StepDc(num: nat, script: seq<ScanInfo>, p: nat, dc: int, low: int, high: int, Ah: int, Al: int) returns (n: nat)
    requires num > 0 && Holds(script, p, DcScans(num, Ah, Al)) && OkTo(num, script, p)
    requires Stage(script, p, 0, num, dc, low, high)
    requires 0 <= Ah <= MAX_AH_AL && 0 <= Al <= MAX_AH_AL && (Ah == 0 || Al == Ah - 1) && dc == Before(Ah)
    ensures n == p + |DcScans(num, Ah, Al)| <= |script| && OkTo(num, script, n)
    ensures Stage(script, n, 0, num, Al, low, high)
  {
    hide LastPos, DcScans, Holds, ScanOk, Stage, Takes, Sent;
    HoldsValid(script, p, DcScans(num, Ah, Al));
    StageSent(script, p, 0, num, dc, low, high);
    n := p + |DcScans(num, Ah, Al)|;
    DcMore(num, script, p, Ah, Al);
    StageNext(script, p, n, 0, num, dc, low, high, 0, 0, Al);
  }

  // AC scans of all components.
  lemma StepAc(num: nat, script: seq<ScanInfo>, p: nat, dc: int, low: int, high: int, Ss: int, Se: int, Ah: int,
               Al: int)
    returns (n: nat)
    requires num > 0 && Holds(script, p, EachScan(num, Ss, Se, Ah, Al)) && OkTo(num, script, p)
    requires Stage(script, p, 0, num, dc, low, high)
    requires 0 <= Ah <= MAX_AH_AL && 0 <= Al <= MAX_AH_AL && (Ah == 0 || Al == Ah - 1) && dc >= 0
    requires
      (Ss == 1 && Se == 5 && low == Before(Ah)) || (Ss == 6 && Se == 63 && high == Before(Ah))
      || (Ss == 1 && Se == 63 && low == high == Before(Ah))
    ensures n == p + num <= |script| && OkTo(num, script, n)
    ensures Stage(script, n, 0, num, dc, if Ss == 1 then Al else low, if Se == 63 then Al else high)
  {
    hide LastPos, EachScan, Holds, ScanOk, Stage, Takes, Sent;
    HoldsValid(script, p, EachScan(num, Ss, Se, Ah, Al));
    StageSent(script, p, 0, num, dc, low, high);
    n := p + num;
    EachMore(num, script, p, num, Ss, Se, Ah, Al);
    StageNext(script, p, n, 0, num, dc, low, high, Ss, Se, Al);
  }

  lemma OtherGood(num: nat, ycc: bool, script: seq<ScanInfo>)
    requires num > 0 && !(num == 3 && ycc) && Holds(script, 0, SimpleScript(num, ycc))
    requires |script| == |SimpleScript(num, ycc)|
    ensures ValidScript(script) && OkTo(num, script, |script|) && Stage(script, |script|, 0, num, 0, 0, 0)
  {
    hide LastPos, EachScan, DcScans, Holds, ScanOk, Stage, OkTo;
    var d0, a1, a2, a3, d4, a5 := DcScans(num, 0, 1), EachScan(num, 1, 5, 0, 2), EachScan(num, 6, 63, 0, 2),
        EachScan(num, 1, 63, 2, 1),
      DcScans(num, 1, 0), EachScan(num, 1, 63, 1, 0);
    HoldsValid(script, 0, SimpleScript(num, ycc));
    HoldsSplit(script, 0, d0 + a1 + a2 + a3 + d4, a5);
    HoldsSplit(script, 0, d0 + a1 + a2 + a3, d4);
    HoldsSplit(script, 0, d0 + a1 + a2, a3);
    HoldsSplit(script, 0, d0 + a1, a2);
    HoldsSplit(script, 0, d0, a1);
    StageStart(script, 0, num);
    OkNone(num, script);
    var p := StepDc(num, script, 0, -1, -1, -1, 0, 1);
    p := StepAc(num, script, p, 1, -1, -1, 1, 5, 0, 2);
    p := StepAc(num, script, p, 1, 2, -1, 6, 63, 0, 2);
    p := StepAc(num, script, p, 1, 2, 2, 1, 63, 2, 1);
    p := StepDc(num, script, p, 1, 1, 1, 1, 0);
    p := StepAc(num, script, p, 0, 1, 1, 1, 63, 1, 0);
  }

  lemma OkNone(num: nat, script: seq<ScanInfo>)
    requires ValidScript(script)
    ensures OkTo(num, script, 0)
  {
  }

  // Where each component stands.
  datatype Standing = Standing(dc: int, low: int, high: int)

  ghost predicate Stages(script: seq<ScanInfo>, p: nat, st: seq<Standing>)
    requires ValidScript(script) && p <= |script|
  {
    forall c | 0 <= c < |st| :: Stage(script, p, c, c + 1, st[c].dc, st[c].low, st[c].high)
  }

  lemma StagesAll(script: seq<ScanInfo>, p: nat, n: nat, x: Standing)
    requires ValidScript(script) && p <= |script|
    ensures Stage(script, p, 0, n, x.dc, x.low, x.high) <==> Stages(script, p, seq(n, _ => x))
  {
    hide LastPos;
    var st := seq(n, _ => x);
    if Stages(script, p, st) {
      forall c: int, k: int | 0 <= c < n && 0 <= k < DCTSIZE2
        ensures LastPos(script, p, c, k) == if k == 0 then x.dc else if k <= 5 then x.low else x.high
      {
        assert Stage(script, p, c, c + 1, st[c].dc, st[c].low, st[c].high);
      }
    }
  }

  // One component takes a step in its AC coefficients.
  lemma StepOne(num: nat, script: seq<ScanInfo>, p: nat, st: seq<Standing>, c: nat, Ss: int, Se: int, Ah: int, Al: int)
    returns (st': seq<Standing>)
    requires Holds(script, p, [Entry([c], Ss, Se, Ah, Al)]) && OkTo(num, script, p) && Stages(script, p, st)
    requires c < num == |st|
    requires 0 <= Ah <= MAX_AH_AL && 0 <= Al <= MAX_AH_AL && (Ah == 0 || Al == Ah - 1) && st[c].dc >= 0
    requires (Ss == 1 && Se == 5 && st[c].low == Before(Ah)) || (Ss == 6 && Se == 63 && st[c].high == Before(Ah))
          || (Ss == 1 && Se == 63 && st[c].low == st[c].high == Before(Ah))
    ensures p + 1 <= |script| && OkTo(num, script, p + 1) && Stages(script, p + 1, st')
    ensures st' == st[c := Standing(st[c].dc, if Ss == 1 then Al else st[c].low, if Se == 63 then Al else st[c].high)]
  {
    hide LastPos, Holds, ScanOk, Sent;
    var e, n := Entry([c], Ss, Se, Ah, Al), p + 1;
    st' := st[c := Standing(st[c].dc, if Ss == 1 then Al else st[c].low, if Se == 63 then Al else st[c].high)];
    HoldsValid(script, p, [e]);
    assert Stage(script, p, c, c + 1, st[c].dc, st[c].low, st[c].high);
    StageSent(script, p, c, c + 1, st[c].dc, st[c].low, st[c].high);
    OneMore(num, script, p, e, c);
    OkNext(num, script, p);
    StageNext(script, p, n, c, c + 1, st[c].dc, st[c].low, st[c].high, Ss, Se, Al);
    forall d | 0 <= d < |st| && d != c
      ensures Stage(script, n, d, d + 1, st[d].dc, st[d].low, st[d].high)
    {
      assert Stage(script, p, d, d + 1, st[d].dc, st[d].low, st[d].high);
    }
  }

  // Consecutive entries, one by one.
  lemma HoldsHead(script: seq<ScanInfo>, p: nat, entries: seq<Entry>)
    requires Holds(script, p, entries) && entries != []
    ensures Holds(script, p, [entries[0]]) && Holds(script, p + 1, entries[1..])
  {
    assert entries == [entries[0]] + entries[1..];
    HoldsSplit(script, p, [entries[0]], entries[1..]);
  }

  // The first AC scans of a YCbCr script ...
  lemma YccFirst(num: nat, script: seq<ScanInfo>, p: nat, x: seq<Entry>)
    requires num == 3 && Holds(script, p, x) && OkTo(num, script, p) && p <= |script|
    requires Stage(script, p, 0, num, 1, -1, -1)
    requires x == [Entry([0], 1, 5, 0, 2), Entry([2], 1, 63, 0, 1), Entry([1], 1, 63, 0, 1), Entry([0], 6, 63, 0, 2),
                   Entry([0], 1, 63, 2, 1)]
    ensures p + 5 <= |script| && OkTo(num, script, p + 5) && Stage(script, p + 5, 0, num, 1, 1, 1)
  {
    hide LastPos, Holds, ScanOk, Stage, OkTo, Stages;
    HoldsValid(script, p, x);
    StagesAll(script, p, num, Standing(1, -1, -1));
    HoldsHead(script, p, x);
    var st := StepOne(num, script, p, seq(num, _ => Standing(1, -1, -1)), 0, 1, 5, 0, 2);
    HoldsHead(script, p + 1, x[1..]);
    st := StepOne(num, script, p + 1, st, 2, 1, 63, 0, 1);
    HoldsHead(script, p + 2, x[2..]);
    st := StepOne(num, script, p + 2, st, 1, 1, 63, 0, 1);
    HoldsHead(script, p + 3, x[3..]);
    st := StepOne(num, script, p + 3, st, 0, 6, 63, 0, 2);
    HoldsHead(script, p + 4, x[4..]);
    st := StepOne(num, script, p + 4, st, 0, 1, 63, 2, 1);
    assert st == seq(num, _ => Standing(1, 1, 1));
    StagesAll(script, p + 5, num, Standing(1, 1, 1));
  }

  // ... and the last ones.
  lemma YccLast(num: nat, script: seq<ScanInfo>, p: nat, y: seq<Entry>)
    requires num == 3 && Holds(script, p, y) && OkTo(num, script, p) && p <= |script|
    requires Stage(script, p, 0, num, 0, 1, 1)
    requires y == [Entry([2], 1, 63, 1, 0), Entry([1], 1, 63, 1, 0), Entry([0], 1, 63, 1, 0)]
    ensures p + 3 <= |script| && OkTo(num, script, p + 3) && Stage(script, p + 3, 0, num, 0, 0, 0)
  {
    hide LastPos, Holds, ScanOk, Stage, OkTo, Stages;
    HoldsValid(script, p, y);
    StagesAll(script, p, num, Standing(0, 1, 1));
    HoldsHead(script, p, y);
    var st := StepOne(num, script, p, seq(num, _ => Standing(0, 1, 1)), 2, 1, 63, 1, 0);
    HoldsHead(script, p + 1, y[1..]);
    st := StepOne(num, script, p + 1, st, 1, 1, 63, 1, 0);
    HoldsHead(script, p + 2, y[2..]);
    st := StepOne(num, script, p + 2, st, 0, 1, 63, 1, 0);
    assert st == seq(num, _ => Standing(0, 0, 0));
    StagesAll(script, p + 3, num, Standing(0, 0, 0));
  }

  lemma YccGood(num: nat, script: seq<ScanInfo>)
    requires num == 3 && Holds(script, 0, SimpleScript(num, true)) && |script| == |SimpleScript(num, true)|
    ensures ValidScript(script) && OkTo(num, script, |script|) && Stage(script, |script|, 0, num, 0, 0, 0)
  {
    hide LastPos, EachScan, DcScans, Holds, ScanOk, Stage, OkTo, Stages;
    var d, e := DcScans(num, 0, 1), DcScans(num, 1, 0);
    DcCount(num, 0, 1);
    DcCount(num, 1, 0);
    var x := [Entry([0], 1, 5, 0, 2), Entry([2], 1, 63, 0, 1), Entry([1], 1, 63, 0, 1), Entry([0], 6, 63, 0, 2),
              Entry([0], 1, 63, 2, 1)];
    var y := [Entry([2], 1, 63, 1, 0), Entry([1], 1, 63, 1, 0), Entry([0], 1, 63, 1, 0)];
    HoldsValid(script, 0, SimpleScript(num, true));
    HoldsSplit(script, 0, d + x + e, y);
    HoldsSplit(script, 0, d + x, e);
    HoldsSplit(script, 0, d, x);
    OkNone(num, script);
    StageStart(script, 0, num);
    var p := StepDc(num, script, 0, -1, -1, -1, 0, 1);
    YccFirst(num, script, p, x);
    p := StepDc(num, script, p + 5, 1, 1, 1, 1, 0);
    YccLast(num, script, p, y);
  }

  // For every number of components the recommended script is accepted as a
  // progressive one and sends every bit of every coefficient.
  lemma SimpleGood(num: nat, ycc: bool, script: seq<ScanInfo>)
    requires num > 0 && Holds(script, 0, SimpleScript(num, ycc)) && |script| == |SimpleScript(num, ycc)|
    ensures ValidScript(script) && script != [] && Progressive(script) && Accepted(num, script) && Complete(num, script)
  {
    hide LastPos, ScanOk;
    if num == 3 && ycc {
      YccGood(num, script);
    } else {
      OtherGood(num, ycc, script);
    }
    FirstIsDc(num, ycc, script);
  }

  lemma FirstIsDc(num: nat, ycc: bool, script: seq<ScanInfo>)
    requires num > 0 && Holds(script, 0, SimpleScript(num, ycc)) && |script| == |SimpleScript(num, ycc)|
    ensures ValidScript(script) && script != [] && script[0].Se == 0
  {
    ScriptLength(num, ycc);
    DcCount(num, 0, 1);
    var x := SimpleScript(num, ycc);
    assert x[0] == DcScans(num, 0, 1)[0];
    assert EntryOf(script[0 + 0]) == x[0];
  }
}
