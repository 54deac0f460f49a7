// The sequence of passes: prepare_for_pass, pass_startup and finish_pass_master
// of jcmaster.c, driven by the loop of jpeg_finish_compress (jcapimin.c).
module PassMachine {
  import opened Arith
  import opened Scripts

  // What the passes do: the entropy coder is started for a scan (gather: for
  // statistics only) and finished, and headers are written.
  datatype Event = Start(gather: bool, scan: nat) | FrameHeader | ScanHeader(scan: nat) | Finish

  datatype PassType = MainPass | HuffOptPass | OutputPass

  // A DC refinement needs no Huffman table.
  predicate NeedsNoTable(s: ScanInfo) {
    s.Ss == 0 && s.Ah != 0
  }

  // ----- what is to happen -----

  function Gathering(script: seq<ScanInfo>, optimize: bool, n: nat): seq<Event>
    requires n < |script|
  {
    if optimize && !NeedsNoTable(script[n]) then [Start(true, n), Finish] else []
  }

  function Headers(n: nat): seq<Event> {
    if n == 0 then [FrameHeader, ScanHeader(n)] else [ScanHeader(n)]
  }

  function Outputting(n: nat): seq<Event> {
    [Start(false, n)] + Headers(n) + [Finish]
  }

  // From scan n on.
  function From(script: seq<ScanInfo>, optimize: bool, n: nat): seq<Event>
    requires n <= |script|
    decreases |script| - n
  {
    if n == |script| then [] else Gathering(script, optimize, n) + (Outputting(n) + From(script, optimize, n + 1))
  }

  function Headings(log: seq<Event>): seq<nat> {
    if log == [] then [] else (if log[0].ScanHeader? then [log[0].scan] else []) + Headings(log[1..])
  }

  function Frames(log: seq<Event>): nat {
    if log == [] then 0 else (if log[0].FrameHeader? then 1 else 0) + Frames(log[1..])
  }

  lemma {:induction false} HeadingsConcat(a: seq<Event>, b: seq<Event>)
    ensures Headings(a + b) == Headings(a) + Headings(b)
  {
    if a == [] {
      assert a + b == b;
    } else {
      var h := if a[0].ScanHeader? then [a[0].scan] else [];
      assert (a + b)[1..] == a[1..] + b;
      HeadingsConcat(a[1..], b);
      Assoc(h, Headings(a[1..]), Headings(b));
    }
  }

  lemma {:induction false} FramesConcat(a: seq<Event>, b: seq<Event>)
    ensures Frames(a + b) == Frames(a) + Frames(b)
  {
    if a == [] {
      assert a + b == b;
    } else {
      assert (a + b)[1..] == a[1..] + b;
      FramesConcat(a[1..], b);
    }
  }

  lemma LogConcat(a: seq<Event>, b: seq<Event>)
    ensures Headings(a + b) == Headings(a) + Headings(b) && Frames(a + b) == Frames(a) + Frames(b)
  {
    HeadingsConcat(a, b);
    FramesConcat(a, b);
  }

  lemma LogOne(e: Event)
    ensures Headings([e]) == (if e.ScanHeader? then [e.scan] else []) && Frames([e]) == if e.FrameHeader? then 1 else 0
  {
    assert [e][1..] == [];
  }

  lemma LogTwo(e: Event, f: Event)
    ensures Headings([e, f]) == Headings([e]) + Headings([f]) && Frames([e, f]) == Frames([e]) + Frames([f])
  {
    LogConcat([e], [f]);
    assert [e] + [f] == [e, f];
  }

  lemma OneScan(script: seq<ScanInfo>, optimize: bool, n: nat)
    requires n < |script|
    ensures Headings(Gathering(script, optimize, n)) == [] && Frames(Gathering(script, optimize, n)) == 0
    ensures Headings(Outputting(n)) == [n] && Frames(Outputting(n)) == if n == 0 then 1 else 0
  {
    hide Headings, Frames;
    NoLog();
    LogOne(Start(true, n));
    LogOne(Finish);
    LogTwo(Start(true, n), Finish);
    LogOne(FrameHeader);
    LogOne(ScanHeader(n));
    LogTwo(FrameHeader, ScanHeader(n));
    LogOne(Start(false, n));
    LogConcat([Start(false, n)], Headers(n));
    LogConcat([Start(false, n)] + Headers(n), [Finish]);
  }

  lemma NoLog()
    ensures Headings([]) == [] && Frames([]) == 0
  {
  }

  // Each scan is output exactly once, in order; the frame header is written
  // exactly once, and before any scan header.
  lemma {:induction false} FromRight(script: seq<ScanInfo>, optimize: bool, n: nat)
    requires n <= |script|
    ensures Headings(From(script, optimize, n)) == seq(|script| - n, i => n + i)
    ensures Frames(From(script, optimize, n)) == if n == 0 && script != [] then 1 else 0
    decreases |script| - n
  {
    if n < |script| {
      FromRight(script, optimize, n + 1);
      OneScan(script, optimize, n);
      LogConcat(Outputting(n), From(script, optimize, n + 1));
      LogConcat(Gathering(script, optimize, n), Outputting(n) + From(script, optimize, n + 1));
      var rest := seq(|script| - n - 1, i => n + 1 + i);
      assert seq(|script| - n, i => n + i) == [n] + rest;
    }
  }

  // Scan n is output once, with its headers; with statistics (which are wanted only then) just one
  // other pass is made over it, to gather them, directly before that.
  ghost predicate OutputOnce(log: seq<Event>, n: nat, statistics: bool) {
    exists j :: 0 <= j < |log| && OutputAt(log, n, statistics, j)
  }

  ghost predicate OutputAt(log: seq<Event>, n: nat, statistics: bool, j: int)
    requires 0 <= j < |log|
  {
    && log[j] == Start(false, n) && j + (if n == 0 then 3 else 2) < |log|
    && (n == 0 ==> log[j + 1] == FrameHeader && log[j + 2] == ScanHeader(0) && log[j + 3] == Finish)
    && (n != 0 ==> log[j + 1] == ScanHeader(n) && log[j + 2] == Finish)
    && (statistics ==> j >= 2 && log[j - 2] == Start(true, n) && log[j - 1] == Finish)
    && forall i | 0 <= i < |log| && log[i].Start? && log[i].scan == n :: i == j || (statistics && i == j - 2)
  }

  lemma InThree(a: seq<Event>, log: seq<Event>, b: seq<Event>, i: int)
    requires 0 <= i < |a + log + b|
    ensures (a + log + b)[i] == if i < |a| then a[i] else if i < |a| + |log| then log[i - |a|] else b[i - |a| - |log|]
  {
  }

  // Whatever stands around it, if no pass is made over scan n there.
  lemma OutputAround(a: seq<Event>, log: seq<Event>, b: seq<Event>, n: nat, statistics: bool)
    requires OutputOnce(log, n, statistics)
    requires forall i | 0 <= i < |a| :: !(a[i].Start? && a[i].scan == n)
    requires forall i | 0 <= i < |b| :: !(b[i].Start? && b[i].scan == n)
    ensures OutputOnce(a + log + b, n, statistics)
  {
    var j :| 0 <= j < |log| && OutputAt(log, n, statistics, j);
    var all := a + log + b;
    forall i | 0 <= i < |all| && all[i].Start? && all[i].scan == n
      ensures i == |a| + j || (statistics && i == |a| + j - 2)
    {
      InThree(a, log, b, i);
    }
    assert OutputAt(all, n, statistics, |a| + j);
  }

  // Tables are made for all scans of an optimizing run but DC refinements.
  predicate WantsTable(script: seq<ScanInfo>, optimize: bool, n: nat)
    requires n < |script|
  {
    optimize && !NeedsNoTable(script[n])
  }

  // The passes over scan n.
  lemma OneOutput(script: seq<ScanInfo>, optimize: bool, n: nat)
    requires n < |script|
    ensures var scan := Gathering(script, optimize, n) + Outputting(n);
            && OutputOnce(scan, n, WantsTable(script, optimize, n))
            && forall i | 0 <= i < |scan| && scan[i].Start? :: scan[i].scan == n
  {
    hide NeedsNoTable;
    var g := Gathering(script, optimize, n);
    assert OutputAt(g + Outputting(n), n, WantsTable(script, optimize, n), |g|);
  }

  lemma {:induction false} FromOutputs(script: seq<ScanInfo>, optimize: bool, n: nat)
    requires n <= |script|
    ensures forall i | 0 <= i < |From(script, optimize, n)| && From(script, optimize, n)[i].Start? ::
      n <= From(script, optimize, n)[i].scan < |script|
    ensures forall m: nat | n <= m < |script| ::
      OutputOnce(From(script, optimize, n), m, WantsTable(script, optimize, m))
    decreases |script| - n
  {
    hide Gathering, Outputting, WantsTable, OutputOnce;
    if n < |script| {
      FromOutputs(script, optimize, n + 1);
      OneOutput(script, optimize, n);
      var scan, rest := Gathering(script, optimize, n) + Outputting(n), From(script, optimize, n + 1);
      var all := From(script, optimize, n);
      assert all == [] + scan + rest == scan + rest + [];
      forall i | 0 <= i < |all| && all[i].Start?
        ensures n <= all[i].scan < |script|
      {
        assert all[i] == if i < |scan| then scan[i] else rest[i - |scan|];
      }
      forall m: nat | n <= m < |script|
        ensures OutputOnce(From(script, optimize, n), m, WantsTable(script, optimize, m))
      {
        if m == n {
          OutputAround([], scan, rest, m, WantsTable(script, optimize, m));
        } else {
          OutputAround(scan, rest, [], m, WantsTable(script, optimize, m));
        }
      }
    }
  }

  // The log of a whole compression of n scans; statistics says for which of them
  // Huffman tables are made.
  ghost predicate InOrder(log: seq<Event>, n: nat, statistics: seq<bool>) {
    && Headings(log) == seq(n, i => i) && Frames(log) == 1
    && |statistics| == n && (forall m: nat | m < n :: OutputOnce(log, m, statistics[m]))
    && (forall i | 0 <= i < |log| && log[i].Start? :: log[i].scan < n)
    && forall i | 0 <= i < |log| && log[i].ScanHeader? :: exists j :: 0 <= j < i && log[j].FrameHeader?
  }

  function Statistics(script: seq<ScanInfo>, optimize: bool): (r: seq<bool>)
    ensures |r| == |script| && forall n: nat | n < |script| :: r[n] == WantsTable(script, optimize, n)
  {
    seq(|script|, n requires 0 <= n < |script| => WantsTable(script, optimize, n))
  }

  lemma FrameFirst(script: seq<ScanInfo>, optimize: bool)
    requires script != []
    ensures var log := From(script, optimize, 0);
            forall i | 0 <= i < |log| && log[i].ScanHeader? :: exists j :: 0 <= j < i && log[j].FrameHeader?
  {
    hide Headings, Frames, NeedsNoTable;
    var log, g := From(script, optimize, 0), Gathering(script, optimize, 0);
    var rest := Outputting(0) + From(script, optimize, 1);
    assert log == g + rest;
    assert Outputting(0)[1] == FrameHeader;
    var j := |g| + 1;
    assert log[j] == rest[1] == FrameHeader;
    assert forall i | 0 <= i < |g| :: log[i] == g[i] && !g[i].ScanHeader?;
    assert log[|g|] == rest[0] == Start(false, 0);
    forall i | 0 <= i < |log| && log[i].ScanHeader?
      ensures exists j :: 0 <= j < i && log[j].FrameHeader?
    {
      assert j < i;
    }
  }

  lemma WholeInOrder(script: seq<ScanInfo>, optimize: bool)
    requires script != []
    ensures InOrder(From(script, optimize, 0), |script|, Statistics(script, optimize))
  {
    hide OutputOnce, WantsTable, From, Headings, Frames;
    FromOutputs(script, optimize, 0);
    FrameFirst(script, optimize);
    FromRight(script, optimize, 0);
    assert seq(|script| - 0, i => 0 + i) == seq(|script|, i => i);
  }

  // ----- the master control -----

  class Master {
    const script: seq<ScanInfo>
    const optimize_coding: bool
    const total_passes: nat
    var pass_type: PassType
    var pass_number: nat
    var scan_number: nat
    var cur_scan: nat           // whose parameters have been selected
    var call_pass_startup: bool
    var is_last_pass: bool
    ghost var log: seq<Event>

    // What is still to happen before the next pass is prepared.
    ghost function Ahead(): seq<Event>
      requires scan_number <= |script|
      reads this
    {
      if pass_type.OutputPass? && optimize_coding then
        if scan_number == |script| then [] else Outputting(scan_number) + From(script, optimize_coding, scan_number + 1)
      else From(script, optimize_coding, scan_number)
    }

    // Between passes.
    ghost predicate Between()
      reads this
    {
      && 0 < |script|
      && !NeedsNoTable(script[0])
      && total_passes == (if optimize_coding then 2 * |script| else |script|)
      && scan_number <= |script|
      && (pass_type.MainPass? ==> scan_number == 0)
      && (pass_type.HuffOptPass? ==> optimize_coding)
      && pass_number == (if optimize_coding then 2 * scan_number + (if pass_type.OutputPass? then 1 else 0)
                         else scan_number)
      && (pass_type.OutputPass? && optimize_coding ==> cur_scan == scan_number < |script|)
      && log + Ahead() == From(script, optimize_coding, 0)
      && (is_last_pass <==> pass_number == total_passes)
    }

    // During a pass: what is to happen once the headers have been written.
    ghost predicate During()
      reads this
    {
      && 0 < |script|
      && !NeedsNoTable(script[0])
      && total_passes == (if optimize_coding then 2 * |script| else |script|)
      && cur_scan == scan_number < |script|
      && (pass_type.MainPass? ==> scan_number == 0)
      && (pass_type.HuffOptPass? ==> optimize_coding)
      && pass_number == (if optimize_coding then 2 * scan_number + (if pass_type.OutputPass? then 1 else 0)
                         else scan_number)
      && (call_pass_startup ==> pass_type.MainPass? && !optimize_coding)
      && log + (if call_pass_startup then Headers(scan_number) else []) + [Finish] + AfterPass()
          == From(script, optimize_coding, 0)
      && (is_last_pass <==> pass_number == total_passes - 1)
    }

    // What happens after the current pass.
    ghost function AfterPass(): seq<Event>
      requires scan_number < |script|
      reads this
    {
      if optimize_coding && !pass_type.OutputPass? then
        Outputting(scan_number) + From(script, optimize_coding, scan_number + 1)
      else From(script, optimize_coding, scan_number + 1)
    }

    // jinit_c_master_control, for a script that has been validated
    constructor (num: nat, script: seq<ScanInfo>, optimize: bool, transcode_only: bool)
      requires ValidScript(script) && Accepted(num, script)
      ensures Between() && this.script == script && log == [] && !is_last_pass
      ensures optimize_coding == (optimize || Progressive(script)) && pass_number == 0
      ensures !transcode_only ==> pass_type.MainPass?
      ensures transcode_only ==> !pass_type.MainPass?
    {
      FirstNeedsTable(num, script);
      var opt := optimize || Progressive(script);
      this.script, optimize_coding := script, opt;
      if transcode_only {
        pass_type := if opt then HuffOptPass else OutputPass;
      } else {
        pass_type := MainPass;
      }
      scan_number, pass_number, cur_scan := 0, 0, 0;
      total_passes := if opt then |script| * 2 else |script|;
      call_pass_startup, is_last_pass := false, false;
      log := [];
    }

    // The entropy coder is started for output, and the headers are written.
    method StartOutput()
      requires cur_scan == scan_number
      modifies this`log, this`call_pass_startup
      ensures log == old(log) + [Start(false, scan_number)] + Headers(scan_number) && !call_pass_startup
    {
      log := log + [Start(false, cur_scan)];
      ghost var started := log;
      if scan_number == 0 {
        log := log + [FrameHeader];
      }
      log := log + [ScanHeader(cur_scan)];
      assert log == started + Headers(scan_number);
      call_pass_startup := false;
    }

    // The parts of prepare_for_pass, by the type of the pass.
    method PrepareMain()
      requires Between() && !is_last_pass && pass_type.MainPass?
      modifies this
      ensures pass_type == old(pass_type) && pass_number == old(pass_number) && scan_number == old(scan_number)
      ensures cur_scan == scan_number < |script| && call_pass_startup == !optimize_coding
      ensures log + (if call_pass_startup then Headers(scan_number) else []) + [Finish] + AfterPass()
          == From(script, optimize_coding, 0)
    {
      hide From, Outputting, Headers;
      FromIs(script, optimize_coding, scan_number);
      ghost var n, was, next := scan_number, log, From(script, optimize_coding, scan_number + 1);
      cur_scan := scan_number;
      log := log + [Start(optimize_coding, cur_scan)];
      call_pass_startup := !optimize_coding;
      if optimize_coding {
        GatherJoined(was, n, next);
      } else {
        OutputJoined(was, n, next);
      }
    }

    method PrepareOpt()
      requires Between() && !is_last_pass && pass_type.HuffOptPass?
      modifies this
      ensures scan_number == old(scan_number) && cur_scan == scan_number < |script| && !call_pass_startup
      ensures if NeedsNoTable(script[scan_number]) then pass_type.OutputPass? && pass_number == old(pass_number) + 1
              else pass_type.HuffOptPass? && pass_number == old(pass_number)
      ensures log + [Finish] + AfterPass() == From(script, optimize_coding, 0)
    {
      hide From, Outputting, Headers;
      FromIs(script, optimize_coding, scan_number);
      ghost var n, was, next := scan_number, log, From(script, optimize_coding, scan_number + 1);
      cur_scan := scan_number;
      if !NeedsNoTable(script[cur_scan]) {
        log := log + [Start(true, cur_scan)];
        call_pass_startup := false;
        GatherJoined(was, n, next);
      } else {
        pass_type := OutputPass;
        pass_number := pass_number + 1;
        StartOutput();
        OutputJoined(was, n, next);
      }
    }

    method PrepareOutput()
      requires Between() && !is_last_pass && pass_type.OutputPass?
      modifies this
      ensures pass_type == old(pass_type) && pass_number == old(pass_number) && scan_number == old(scan_number)
      ensures cur_scan == scan_number < |script| && !call_pass_startup
      ensures log + [Finish] + AfterPass() == From(script, optimize_coding, 0)
    {
      hide From, Outputting, Headers;
      FromIs(script, optimize_coding, scan_number);
      ghost var n, was, next := scan_number, log, From(script, optimize_coding, scan_number + 1);
      if !optimize_coding {
        cur_scan := scan_number;
      }
      StartOutput();
      OutputJoined(was, n, next);
    }

    // prepare_for_pass
    method PrepareForPass()
      requires Between() && !is_last_pass
      modifies this
      ensures During() && pass_number >= old(pass_number) && (call_pass_startup ==> old(pass_type).MainPass?)
      ensures is_last_pass <==>
        scan_number == |script| - 1 && (pass_type.OutputPass? || (pass_type.MainPass? && !optimize_coding))
    {
      hide From, Headers, Outputting;
      match pass_type {
        case MainPass =>
          PrepareMain();
        case HuffOptPass =>
          PrepareOpt();
        case OutputPass =>
          PrepareOutput();
      }
      assert log + [] == log;
      is_last_pass := pass_number == total_passes - 1;
    }

    // pass_startup, called when the first scanlines are written
    method PassStartup()
      requires During() && call_pass_startup
      modifies this`log, this`call_pass_startup
      ensures During() && !call_pass_startup
    {
      hide From;
      call_pass_startup := false;
      ghost var was := log;
      log := log + [FrameHeader];
      log := log + [ScanHeader(cur_scan)];
      assert log == was + Headers(scan_number);
      assert log + [] == log;
    }

    // finish_pass_master
    method FinishPass()
      requires During() && !call_pass_startup
      modifies this
      ensures Between() && pass_number == old(pass_number) + 1 && !pass_type.MainPass?
    {
      hide From, Outputting, Headers, NeedsNoTable;
      ghost var rest := AfterPass();
      assert log + [] == log;
      log := log + [Finish];
      match pass_type {
        case MainPass =>
          pass_type := OutputPass;
          if !optimize_coding {
            scan_number := scan_number + 1;
          }
        case HuffOptPass =>
          pass_type := OutputPass;
        case OutputPass =>
          if optimize_coding {
            pass_type := HuffOptPass;
          }
          scan_number := scan_number + 1;
      }
      pass_number := pass_number + 1;
      assert Ahead() == rest;
    }
  }

  lemma FromIs(script: seq<ScanInfo>, optimize: bool, n: nat)
    requires n <= |script|
    ensures n < |script| && optimize && !NeedsNoTable(script[n]) ==>
      From(script, optimize, n) == [Start(true, n), Finish] + (Outputting(n) + From(script, optimize, n + 1))
    ensures n < |script| && !(optimize && !NeedsNoTable(script[n])) ==>
      From(script, optimize, n) == [] + (Outputting(n) + From(script, optimize, n + 1))
    ensures n == |script| ==> From(script, optimize, n) == []
  {
  }

  // The passes of a compression, from jinit_c_master_control to the end of
  // jpeg_finish_compress: the loop terminates, and everything has been done in order.
  method Compress(num: nat, script: seq<ScanInfo>, optimize: bool, transcode_only: bool) returns (m: Master)
    requires ValidScript(script) && Accepted(num, script)
    ensures m.script == script && InOrder(m.log, |script|, Statistics(script, optimize || Progressive(script)))
    ensures m.log == From(script, optimize || Progressive(script), 0)
    ensures m.pass_number == m.total_passes && m.scan_number == |script| && m.is_last_pass
  {
    hide InOrder, From, Accepted, Statistics;
    m := new Master(num, script, optimize, transcode_only);
    if !transcode_only {
      m.PrepareForPass();
      if m.call_pass_startup {
        m.PassStartup();
      }
      m.FinishPass();
    }
    while !m.is_last_pass
      invariant m.Between() && !m.pass_type.MainPass? && fresh(m) && m.script == script
      invariant m.optimize_coding == (optimize || Progressive(script))
      decreases m.total_passes - m.pass_number
    {
      m.PrepareForPass();
      m.FinishPass();
    }
    FromIs(script, m.optimize_coding, m.scan_number);
    assert m.log + [] == m.log;
    WholeInOrder(script, m.optimize_coding);
  }

  // A statistics pass, written both ways.
  lemma GatherJoined(was: seq<Event>, n: nat, next: seq<Event>)
    ensures was + ([Start(true, n), Finish] + (Outputting(n) + next))
        == was + [Start(true, n)] + [] + [Finish] + (Outputting(n) + next)
    ensures was + ([Start(true, n), Finish] + (Outputting(n) + next))
        == was + [Start(true, n)] + [Finish] + (Outputting(n) + next)
  {
    hide Outputting;
    assert [Start(true, n), Finish] == [Start(true, n)] + [Finish];
    assert was + [Start(true, n)] + [] == was + [Start(true, n)];
  }

  // An output pass, written both ways.
  lemma OutputJoined(was: seq<Event>, n: nat, next: seq<Event>)
    ensures was + ([] + (Outputting(n) + next)) == was + [Start(false, n)] + Headers(n) + [Finish] + next
    ensures was + (Outputting(n) + next) == was + [Start(false, n)] + Headers(n) + [Finish] + next
  {
    hide Headers;
    assert [] + (Outputting(n) + next) == Outputting(n) + next;
  }

  lemma FirstNeedsTable(num: nat, script: seq<ScanInfo>)
    requires ValidScript(script) && Accepted(num, script)
    ensures script != [] && !NeedsNoTable(script[0])
  {
    if Progressive(script) {
      assert ScanOk(num, script, 0);
      var s := script[0];
      assert CompsOf(s)[0] in CompsOf(s);
      if s.Ss == 0 {
        assert Sends(s, CompsOf(s)[0], 0);
        assert Continues(LastPos(script, 0, CompsOf(s)[0], 0), s);
      }
    } else {
      assert WholeBlocks(script[0]);
    }
  }
}
