// Marker search and restart recovery (jdmarker.c): next_marker,
// read_restart_marker and jpeg_resync_to_restart.
module Markers {
  import opened BitWriter
  import opened ByteStream

  const M_SOF0 := 0xC0
  const M_RST0 := 0xD0
  const M_RST7 := 0xD7

  // ----- where the decoder goes on after a restart -----

  // A marker left unread (0 for none) and the position behind it; or nothing, if the stream ends first.
  datatype Place = Lost | At(unread: nat, pos: nat)

  datatype Action = Discard | Advance | Leave

  // jpeg_resync_to_restart's choice: skip markers that are no legal ones and
  // those of the last two restarts, leave the next two restarts and all other
  // markers to be met again, and drop any other restart marker.
  function Choice(marker: nat, desired: nat): Action
    requires desired < 8
  {
    if marker < M_SOF0 then Advance
    else if marker < M_RST0 || marker > M_RST7 then Leave
    else if marker == M_RST0 + (desired + 1) % 8 || marker == M_RST0 + (desired + 2) % 8 then Leave
    else if marker == M_RST0 + (desired + 7) % 8 || marker == M_RST0 + (desired + 6) % 8 then Advance
    else Discard
  }

  function Resync(data: seq<Byte>, marker: nat, p: nat, desired: nat): (r: Place)
    requires p <= |data| && desired < 8
    ensures r.At? ==> p <= r.pos <= |data| && (marker < 0xFF ==> r.unread < 0xFF)
    decreases |data| - p
  {
    match Choice(marker, desired)
    case Discard => At(0, p)
    case Leave => At(marker, p)
    case Advance =>
      match SegmentEnd(data, p)
      case NoEnd => Lost
      case End(code, next) => Resync(data, code, next, desired)
  }

  // The expected marker is swallowed, any other one resynchronized to.
  function AfterMarker(data: seq<Byte>, marker: nat, p: nat, desired: nat): (r: Place)
    requires p <= |data| && desired < 8
    ensures r.At? ==> p <= r.pos <= |data| && (marker < 0xFF ==> r.unread < 0xFF)
  {
    if marker == M_RST0 + desired then At(0, p) else Resync(data, marker, p, desired)
  }

  function AfterEnd(data: seq<Byte>, end: End, desired: nat): (r: Place)
    requires desired < 8 && (end.End? ==> end.next <= |data|)
    ensures r.At? ==> end.End? && r.pos <= |data| && (end.code < 0xFF ==> r.unread < 0xFF)
  {
    match end
    case NoEnd => Lost
    case End(code, next) => AfterMarker(data, code, next, desired)
  }

  // How many restarts a restart marker is ahead of the one wanted, modulo 8.
  function RestartsAhead(marker: nat, desired: nat): (r: nat)
    requires 0xD0 <= marker <= 0xD7
    ensures r < 8
  {
    (marker - 0xD0 - desired) % 8
  }

  // Where a restart goes on, by what is found in its stead. The marker wanted, and
  // any that is too far away, is dropped and decoding goes on behind it; one of the
  // next two restarts, and anything else that is a legal marker, is left to be met
  // again; from one of the last two restarts, and from what is no legal marker,
  // the search goes on to the next marker of the stream.
  lemma RestartRecovery(data: seq<Byte>, marker: nat, p: nat, desired: nat)
    requires p <= |data| && desired < 8
    ensures AfterMarker(data, marker, p, desired) ==
      if 0xD0 <= marker <= 0xD7 then
        if RestartsAhead(marker, desired) in {1, 2} then At(marker, p)
        else if RestartsAhead(marker, desired) in {6, 7} then AfterEnd(data, SegmentEnd(data, p), desired)
        else At(0, p)
      else if 0xC0 <= marker then At(marker, p)
      else AfterEnd(data, SegmentEnd(data, p), desired)
  {
    hide SegmentEnd;
    match SegmentEnd(data, p)
    case NoEnd =>
    case End(code, next) =>
      assert AfterMarker(data, code, next, desired) == Resync(data, code, next, desired);
  }

  // If one restart is lost, or two, the marker that is found stays unread while
  // the missing restarts are made, and is swallowed at its own.
  lemma LostRestarts(data: seq<Byte>, marker: nat, p: nat, desired: nat, lost: nat, i: nat)
    requires p <= |data| && desired < 8 && 1 <= lost <= 2 && i <= lost && marker == 0xD0 + (desired + lost) % 8
    ensures AfterEnd(data, End(marker, p), (desired + i) % 8) == if i < lost then At(marker, p) else At(0, p)
  {
    RestartRecovery(data, marker, p, (desired + i) % 8);
    assert RestartsAhead(marker, (desired + i) % 8) == lost - i;
  }

  // A restart met a second time is no reason to lose the segment behind the one wanted.
  lemma RepeatedRestart(data: seq<Byte>, marker: nat, p: nat, desired: nat, next: nat)
    requires p <= |data| && desired < 8 && marker in {0xD0 + (desired + 7) % 8, 0xD0 + (desired + 6) % 8}
    requires SegmentEnd(data, p) == End(0xD0 + desired, next)
    ensures AfterEnd(data, End(marker, p), desired) == At(0, next)
  {
    hide SegmentEnd;
    RestartRecovery(data, marker, p, desired);
    RestartRecovery(data, 0xD0 + desired, next, desired);
  }

  // Once the stream up to the place has arrived, the restart can be completed.
  predicate Reached(r: Place, avail: nat) {
    r.At? && r.pos <= avail
  }

  // ----- searching -----

  // next_marker: skips to the next marker. Bytes that are no part of one are
  // used up even if the search has to be suspended.
  method NextMarker(cinfo: Source) returns (ok: bool)
    requires cinfo.InBounds()
    modifies cinfo`pos, cinfo`unread_marker, cinfo`discarded_bytes
    ensures cinfo.InBounds()
    ensures ok ==>
      SegmentEnd(cinfo.data, old(cinfo.pos)) == End(cinfo.unread_marker, cinfo.pos) && cinfo.unread_marker != 0
    ensures !ok ==> cinfo.unread_marker == old(cinfo.unread_marker)
    ensures !ok ==> SegmentEnd(cinfo.data, cinfo.pos) == SegmentEnd(cinfo.data, old(cinfo.pos))
    ensures ok <==> Arrived(SegmentEnd(cinfo.data, old(cinfo.pos)), cinfo.avail)
  {
    ghost var end := SegmentEnd(cinfo.data, cinfo.pos);
    while true
      invariant cinfo.InBounds() && SegmentEnd(cinfo.data, cinfo.pos) == end
      invariant cinfo.unread_marker == old(cinfo.unread_marker)
      decreases cinfo.avail - cinfo.pos
    {
      var done, c, marker, next := ReadUnit(cinfo.data, cinfo.pos, cinfo.avail);
      UnitParts(cinfo.data, cinfo.pos);
      if !done {
        CutEnds(cinfo.data, cinfo.pos, cinfo.avail);
        return false;
      }
      if marker != 0 {
        cinfo.discarded_bytes := 0;
        cinfo.unread_marker := marker;
        cinfo.pos := next;
        return true;
      }
      cinfo.discarded_bytes := cinfo.discarded_bytes + if c == 0xFF then 2 else 1;
      cinfo.pos := next;
    }
  }

  // jpeg_resync_to_restart. What it returns can be repeated: after a suspension
  // it leads to the same place from where it was left.
  method ResyncToRestart(cinfo: Source, desired: nat) returns (ok: bool)
    requires cinfo.InBounds() && cinfo.unread_marker != 0 && desired < 8
    modifies cinfo`pos, cinfo`unread_marker, cinfo`discarded_bytes
    ensures cinfo.InBounds()
    ensures ok <==> Reached(Resync(cinfo.data, old(cinfo.unread_marker), old(cinfo.pos), desired), cinfo.avail)
    ensures ok ==>
      Resync(cinfo.data, old(cinfo.unread_marker), old(cinfo.pos), desired) == At(cinfo.unread_marker, cinfo.pos)
    ensures !ok ==> cinfo.unread_marker != 0 && Choice(cinfo.unread_marker, desired) == Advance
    ensures !ok ==> Resync(cinfo.data, cinfo.unread_marker, cinfo.pos, desired) ==
                    Resync(cinfo.data, old(cinfo.unread_marker), old(cinfo.pos), desired)
  {
    var marker := cinfo.unread_marker;
    ghost var target := Resync(cinfo.data, marker, cinfo.pos, desired);
    while true
      invariant cinfo.InBounds() && marker == cinfo.unread_marker != 0
      invariant Resync(cinfo.data, marker, cinfo.pos, desired) == target
      decreases cinfo.avail - cinfo.pos
    {
      match Choice(marker, desired)
      case Discard =>
        cinfo.unread_marker := 0;
        return true;
      case Leave =>
        return true;
      case Advance =>
        var found := NextMarker(cinfo);
        if !found {
          return false;
        }
        marker := cinfo.unread_marker;
    }
  }

  // read_restart_marker
  method ReadRestartMarker(cinfo: Source) returns (ok: bool)
    requires cinfo.InBounds()
    modifies cinfo`pos, cinfo`unread_marker, cinfo`discarded_bytes, cinfo`next_restart_num
    ensures cinfo.InBounds()
    ensures ok <==> Reached(AfterEnd(cinfo.data, old(cinfo.Ending()), old(cinfo.next_restart_num)), cinfo.avail)
    ensures ok ==>
      AfterEnd(cinfo.data, old(cinfo.Ending()), old(cinfo.next_restart_num)) == At(cinfo.unread_marker, cinfo.pos)
    ensures ok ==> cinfo.next_restart_num == (old(cinfo.next_restart_num) + 1) % 8
    ensures !ok ==> cinfo.next_restart_num == old(cinfo.next_restart_num)
    ensures !ok ==> AfterEnd(cinfo.data, cinfo.Ending(), cinfo.next_restart_num) ==
                    AfterEnd(cinfo.data, old(cinfo.Ending()), cinfo.next_restart_num)
    ensures !ok ==> old(cinfo.unread_marker) != 0 ==> cinfo.unread_marker != 0
  {
    hide SegmentEnd, Resync;
    if cinfo.unread_marker == 0 {
      ok := NextMarker(cinfo);
      if !ok {
        return;
      }
    }
    if cinfo.unread_marker == M_RST0 + cinfo.next_restart_num {
      cinfo.unread_marker := 0;
    } else {
      ok := ResyncToRestart(cinfo, cinfo.next_restart_num);
      if !ok {
        return;
      }
    }
    cinfo.next_restart_num := (cinfo.next_restart_num + 1) % 8;
    ok := true;
  }
}
