// What a progressive decoder reads from a stream of bytes, independent of how
// the bytes arrive (jdphuff.c).
module ProgReading {
  import opened BitSource
  import opened McuCodec
  import opened BitWriter
  import opened ByteStream
  import opened Markers
  import opened McuReading
  import opened ProgCodec
  import opened ProgScan

  // The state between MCUs: as for a sequential scan, and the bands still to be passed over.
  datatype PDec = PDec(core: DecState, eobrun: nat)

  datatype POutcome = PNever | POutcome(blocks: Zigzags, state: PDec)

  // The blocks of an MCU once any restart has been dealt with. When the segment
  // has run dry, they are left as they are.
  function PReadMcu(scan: Scan, b: Band, t: DTables, s: PDec, was: Zigzags): (r: POutcome)
    requires ValidProgTables(scan, b, t) && ValidZs(scan, was) && |s.core.last| == |scan.comps|
    ensures r.POutcome? && ValidZs(scan, r.blocks)
    ensures |r.state.core.last| == |scan.comps| && r.state.core.end == s.core.end
    ensures r.state.core.next_restart_num == s.core.next_restart_num
  {
    var togo := CountDown(s.core.restarts_to_go);
    if s.core.src.dry then POutcome(was, s.(core := s.core.(restarts_to_go := togo)))
    else
      var m := ReadStep(scan, b, t, s.core.src, s.core.last, s.eobrun, was);
      var left := if m.src.dry then Src([], true) else m.src;
      POutcome(m.blocks, PDec(s.core.(src := left, last := m.last, restarts_to_go := togo), m.eobrun))
  }

  // Decoding one MCU; PNever, if the stream ends before a restart marker.
  function PDecodeOne(scan: Scan, b: Band, t: DTables, data: seq<Byte>, s: PDec, was: Zigzags): (r: POutcome)
    requires ValidProgTables(scan, b, t) && ValidZs(scan, was) && ValidDec(scan, data, s.core)
    ensures r.POutcome? ==> ValidZs(scan, r.blocks) && ValidDec(scan, data, r.state.core)
  {
    if RestartDue(scan, s.core) then
      match AfterEnd(data, s.core.end, s.core.next_restart_num)
      case Lost => PNever
      case At(unread, pos) => PReadMcu(scan, b, t, PDec(AtPlace(scan, data, s.core, unread, pos), 0), was)
    else PReadMcu(scan, b, t, s, was)
  }

  // The state and the blocks after n MCUs.
  datatype PRun = PStuck | PRun(state: PDec, mcus: seq<Zigzags>)

  function PRunOf(scan: Scan, b: Band, t: DTables, data: seq<Byte>, s: PDec, was: seq<Zigzags>, n: nat): (r: PRun)
    requires ValidProgTables(scan, b, t) && AllValid(scan, was) && ValidDec(scan, data, s.core) && n <= |was|
    ensures r.PRun? ==> |r.mcus| == n && ValidDec(scan, data, r.state.core)
  {
    if n == 0 then PRun(s, [])
    else
      var m := PRunOf(scan, b, t, data, s, was, n - 1);
      if m.PStuck? then PStuck
      else
        assert ValidZs(scan, was[n - 1]);
        match PDecodeOne(scan, b, t, data, m.state, was[n - 1])
        case PNever => PStuck
        case POutcome(blocks, state) => PRun(state, m.mcus + [blocks])
  }
}
