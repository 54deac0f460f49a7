// The bytes of a compressed data stream as the decoder finds them: data bytes
// of the current entropy-coded segment, and the marker that ends it.
module ByteStream {
  import opened Bits
  import opened BitWriter

  // ----- one unit of the stream -----

  // What a position holds: nothing (yet), a data byte, or a marker; next is the position behind it.
  datatype Unit = Starved | Data(c: Byte, next: nat) | Marker(code: Byte, next: nat)

  // The first position from p on that holds no 0xFF.
  function SkipFF(data: seq<Byte>, p: nat): (q: nat)
    requires p <= |data|
    ensures p <= q <= |data| && (q < |data| ==> data[q] != 0xFF)
    ensures forall i | p <= i < q :: data[i] == 0xFF
    decreases |data| - p
  {
    if p < |data| && data[p] == 0xFF then SkipFF(data, p + 1) else p
  }

  // FF/00 stands for a data byte FF, also after several FF bytes.
  function UnitAt(data: seq<Byte>, p: nat): (u: Unit)
    requires p <= |data|
    ensures !u.Starved? ==> p < u.next <= |data|
    ensures u.Marker? ==> 0 < u.code < 0xFF
  {
    if p == |data| then Starved
    else if data[p] != 0xFF then Data(data[p], p + 1)
    else
      var q := SkipFF(data, p + 1);
      if q == |data| then Starved
      else if data[q] == 0 then Data(0xFF, q + 1)
      else Marker(data[q], q + 1)
  }

  // ----- the segment that starts at a position -----

  function SegmentBits(data: seq<Byte>, p: nat): Bits
    requires p <= |data|
    decreases |data| - p
  {
    match UnitAt(data, p)
    case Data(c, next) => ToBits(c, 8) + SegmentBits(data, next)
    case _ => []
  }

  datatype End = NoEnd | End(code: nat, next: nat)

  // The marker that ends the segment, and the position behind it.
  function SegmentEnd(data: seq<Byte>, p: nat): (e: End)
    requires p <= |data|
    ensures e.End? ==> p < e.next <= |data| && 0 < e.code < 0xFF
    decreases |data| - p
  {
    match UnitAt(data, p)
    case Data(_, next) => SegmentEnd(data, next)
    case Marker(code, next) => End(code, next)
    case Starved => NoEnd
  }

  // What a unit adds to the segment.
  lemma UnitParts(data: seq<Byte>, p: nat)
    requires p <= |data|
    ensures match UnitAt(data, p)
            case Data(c, next) =>
              SegmentBits(data, p) == ToBits(c, 8) + SegmentBits(data, next)
              && SegmentEnd(data, p) == SegmentEnd(data, next)
            case Marker(code, next) => SegmentBits(data, p) == [] && SegmentEnd(data, p) == End(code, next)
            case Starved => SegmentBits(data, p) == [] && SegmentEnd(data, p) == NoEnd
  {
  }

  // The unit at p is not complete within the first avail bytes.
  ghost predicate Cut(data: seq<Byte>, p: nat, avail: nat)
    requires p <= |data|
  {
    UnitAt(data, p).Starved? || UnitAt(data, p).next > avail
  }

  lemma CutEnds(data: seq<Byte>, p: nat, avail: nat)
    requires p <= |data| && Cut(data, p, avail)
    ensures !Arrived(SegmentEnd(data, p), avail)
  {
  }

  // The bytes up to the marker, and the marker itself, have arrived.
  predicate Arrived(e: End, avail: nat) {
    e.End? && e.next <= avail
  }

  // The next unit of the stream: a data byte, or a marker. Fails when the bytes
  // that have arrived do not tell.
  method ReadUnit(data: seq<Byte>, p: nat, avail: nat) returns (ok: bool, c: Byte, marker: Byte, next: nat)
    requires p <= avail <= |data|
    ensures ok ==> next <= avail
    ensures ok && marker == 0 ==> UnitAt(data, p) == Data(c, next)
    ensures ok && marker != 0 ==> UnitAt(data, p) == Marker(marker, next)
    ensures !ok ==> Cut(data, p, avail)
  {
    next, marker, c := p, 0, 0;
    if next == avail {
      return false, c, marker, next;
    }
    c := data[next];
    next := next + 1;
    if c == 0xFF {
      while c == 0xFF
        invariant p < next <= avail && c == data[next - 1]
        invariant SkipFF(data, p + 1) == SkipFF(data, next - 1)
        decreases avail - next
      {
        if next == avail {
          return false, c, marker, next;
        }
        c := data[next];
        next := next + 1;
      }
      if c == 0 {
        c := 0xFF;
      } else {
        marker := c;
      }
    }
    return true, c, marker, next;
  }

  // ----- the decompressor's place in the stream -----

  // data is the whole stream, of which avail bytes have arrived; pos is the
  // next byte to be read, unread_marker a marker found before pos but not yet
  // dealt with (0 for none).
  class Source {
    const data: seq<Byte>
    var avail: nat
    var pos: nat
    var unread_marker: nat
    var insufficient_data: bool
    var discarded_bytes: nat
    var next_restart_num: nat

    ghost predicate InBounds()
      reads this
    {
      pos <= avail <= |data| && next_restart_num < 8 && unread_marker < 0xFF
    }

    ghost predicate Valid()
      reads this
    {
      InBounds() && (insufficient_data ==> unread_marker != 0)
    }

    // The marker that ends the current segment, and the position behind it.
    ghost function Ending(): End
      requires InBounds()
      reads this
    {
      if unread_marker != 0 then End(unread_marker, pos) else SegmentEnd(data, pos)
    }

    constructor (data: seq<Byte>, avail: nat)
      requires avail <= |data|
      ensures Valid() && this.data == data && this.avail == avail && pos == 0
      ensures unread_marker == 0 && !insufficient_data && next_restart_num == 0
    {
      this.data, this.avail := data, avail;
      pos, unread_marker, insufficient_data, discarded_bytes, next_restart_num := 0, 0, false, 0, 0;
    }

    // More bytes arrive.
    method Arrive(n: nat)
      requires Valid() && avail + n <= |data|
      modifies this`avail
      ensures Valid() && avail == old(avail) + n
    {
      avail := avail + n;
    }
  }

  // Any number of fill bytes may stand before what follows a byte 0xFF.
  lemma FillBytes(data: seq<Byte>, p: nat, n: nat)
    requires p + n < |data| && n > 0 && (forall i | p <= i < p + n :: data[i] == 0xFF) && data[p + n] != 0xFF
    ensures UnitAt(data, p) == if data[p + n] == 0 then Data(0xFF, p + n + 1) else Marker(data[p + n], p + n + 1)
  {
    assert SkipFF(data, p + 1) == p + n;
  }
}
