// Entropy-coded segments in a stream of bytes: how they are separated by
// restart markers, and how a decoder finds them again.
module Segments {
  import opened Arith
  import opened Bits
  import opened BitWriter
  import opened McuCodec
  import opened ByteStream
  import opened Markers

  // A stuffed byte is one unit of data.
  lemma StuffedUnit(data: seq<Byte>, p: nat, c: Byte, rest: seq<Byte>)
    requires p <= |data| && data[p..] == Stuffed(c) + rest
    ensures p + |Stuffed(c)| <= |data| && UnitAt(data, p) == Data(c, p + |Stuffed(c)|)
    ensures data[p + |Stuffed(c)|..] == rest
  {
    assert data[p] == data[p..][0];
    assert data[p + |Stuffed(c)|..] == data[p..][|Stuffed(c)|..];
    if c == 0xFF {
      assert data[p + 1] == data[p..][1];
      assert SkipFF(data, p + 1) == p + 1;
    }
  }

  lemma ByteBits(s: Bits)
    requires |s| == 8
    ensures ToBits(ByteOf(s), 8) == s
  {
    ToBitsVal(s);
  }

  lemma MarkerUnit(data: seq<Byte>, p: nat, code: Byte, more: seq<Byte>)
    requires p <= |data| && data[p..] == [0xFF, code] + more && 0 < code < 0xFF
    ensures UnitAt(data, p) == Marker(code, p + 2)
  {
    assert data[p] == data[p..][0] && data[p + 1] == data[p..][1];
    assert SkipFF(data, p + 1) == p + 1;
  }

  // Bits that have been written as stuffed bytes and are followed by a marker
  // are read back, up to an incomplete last byte.
  lemma {:induction false} Destuffed(data: seq<Byte>, p: nat, s: Bits, code: Byte, more: seq<Byte>)
    requires p <= |data| && data[p..] == Emitted(s) + ([0xFF, code] + more) && 0 < code < 0xFF
    ensures SegmentBits(data, p) + Rest(s) == s
    ensures SegmentEnd(data, p) == End(code, |data| - |more|)
    decreases |s|
  {
    hide SegmentBits, SegmentEnd, UnitAt, Stuffed, ToBits, ByteOf;
    UnitParts(data, p);
    if |s| < 8 {
      assert data[p..] == [0xFF, code] + more;
      MarkerUnit(data, p, code, more);
    } else {
      var c := ByteOf(s[..8]);
      var q := p + |Stuffed(c)|;
      Assoc(Stuffed(c), Emitted(s[8..]), [0xFF, code] + more);
      StuffedUnit(data, p, c, Emitted(s[8..]) + ([0xFF, code] + more));
      Destuffed(data, q, s[8..], code, more);
      ByteBits(s[..8]);
      Assoc(ToBits(c, 8), SegmentBits(data, q), Rest(s[8..]));
      assert s == s[..8] + s[8..];
    }
  }

  lemma {:induction false} WholeBytes(s: Bits)
    ensures |Rest(s)| <= |s| && (|s| - |Rest(s)|) % 8 == 0
    decreases |s|
  {
    if |s| >= 8 {
      WholeBytes(s[8..]);
    }
  }

  // In what is written of a segment every byte 0xFF is followed by a zero byte, so
  // that no marker can be seen in it.
  lemma {:induction false} NoMarkerInside(s: Bits, i: nat)
    requires i < |Emitted(s)| && Emitted(s)[i] == 0xFF
    ensures i + 1 < |Emitted(s)| && Emitted(s)[i + 1] == 0
    decreases |s|
  {
    var c := ByteOf(s[..8]);
    if i >= |Stuffed(c)| {
      NoMarkerInside(s[8..], i - |Stuffed(c)|);
    }
  }

  // A flushed segment is read back, filled up to a whole byte with ones.
  lemma FlushedBack(data: seq<Byte>, p: nat, s: Bits, code: Byte, more: seq<Byte>) returns (pad: Bits)
    requires p <= |data| && data[p..] == Flushed(s) + ([0xFF, code] + more) && 0 < code < 0xFF
    ensures SegmentBits(data, p) == s + pad
    ensures |pad| < 8 && (|s| + |pad|) % 8 == 0 && forall i | 0 <= i < |pad| :: pad[i]
    ensures SegmentEnd(data, p) == End(code, |data| - |more|)
  {
    var all := s + Ones(7);
    WholeBytes(all);
    Destuffed(data, p, all, code, more);
    var got := SegmentBits(data, p);
    assert |got| == |all| - |Rest(all)| >= |s|;
    pad := got[|s|..];
    assert got == all[..|got|];
    assert got == s + pad;
  }

  // A restart marker, if anything.
  predicate IsTail(tail: seq<Byte>) {
    tail == [] || (|tail| >= 2 && tail[0] == 0xFF && RST0 <= tail[1] < RST0 + 8)
  }

  lemma NoTail()
    ensures IsTail([])
  {
  }

  // A restart marker, the bits of a segment, and what follows it.
  function RestartTail(n: nat, s: Bits, tail: seq<Byte>): (r: seq<Byte>)
    requires n < 8
    ensures IsTail(r)
  {
    [0xFF, RST0 + n] + (Flushed(s) + tail)
  }

  // ----- finding the segments -----

  // The open segment ends where the last |behind| bytes of the data begin.
  ghost predicate Framed(data: seq<Byte>, end: End, behind: seq<Byte>) {
    && 2 <= |behind| <= |data| && data[|data| - |behind|..] == behind
    && end == End(behind[1], |data| - |behind| + 2)
  }

  // Whatever restarts lie behind a segment, a marker comes first.
  lemma MarkerFirst(tail: seq<Byte>, code: Byte, more: seq<Byte>)
    requires IsTail(tail) && 0 < code < 0xFF
    ensures var b := tail + ([0xFF, code] + more);
            |b| >= 2 && b[0] == 0xFF && 0 < b[1] < 0xFF && b == [0xFF, b[1]] + b[2..]
  {
  }

  // The first segment after position p.
  lemma StartFramed(data: seq<Byte>, p: nat, s: Bits, tail: seq<Byte>, code: Byte, more: seq<Byte>) returns (pad: Bits)
    requires p <= |data| && IsTail(tail) && 0 < code < 0xFF && data[p..] == Flushed(s) + (tail + ([0xFF, code] + more))
    ensures SegmentBits(data, p) == s + pad && Framed(data, SegmentEnd(data, p), tail + ([0xFF, code] + more))
  {
    hide Flushed, SegmentBits, SegmentEnd, IsTail;
    var b := tail + ([0xFF, code] + more);
    MarkerFirst(tail, code, more);
    pad := FlushedBack(data, p, s, b[1], b[2..]);
    assert data[|data| - |b|..] == data[p..][|Flushed(s)|..];
  }

  // At a restart marker the next segment is found.
  lemma RestartFramed(data: seq<Byte>, end: End, rst: nat, s: Bits, tail: seq<Byte>, code: Byte, more: seq<Byte>)
    returns (pad: Bits)
    requires rst < 8 && IsTail(tail) && 0 < code < 0xFF
    requires Framed(data, end, RestartTail(rst, s, tail) + ([0xFF, code] + more))
    ensures end.End? && end.next <= |data| && AfterEnd(data, end, rst) == At(0, end.next)
    ensures SegmentBits(data, end.next) == s + pad
    ensures Framed(data, SegmentEnd(data, end.next), tail + ([0xFF, code] + more))
  {
    hide Flushed, SegmentBits, SegmentEnd, IsTail;
    var behind := RestartTail(rst, s, tail) + ([0xFF, code] + more);
    assert behind == [0xFF, RST0 + rst] + (Flushed(s) + (tail + ([0xFF, code] + more)));
    assert data[end.next..] == behind[2..] == Flushed(s) + (tail + ([0xFF, code] + more));
    pad := StartFramed(data, end.next, s, tail, code, more);
  }
}
