// Bit fetching and Huffman decoding (jdhuff.c, jdhuff.h): fill_bit_buffer,
// CHECK_BIT_BUFFER, GET_BITS, HUFF_DECODE and jpeg_huff_decode.
module BitReader {
  import opened Arith
  import opened Bits
  import opened Words
  import opened HuffTable
  import opened DerivedTables
  import opened BitSource
  import opened BitWriter
  import opened ByteStream

  const MIN_GET_BITS := 25

  // The low |s| bits of the buffer are s.
  ghost predicate Low(get_buffer: Word32, s: Bits) {
    |s| <= 32 && get_buffer % Pow2(|s|) == Val(s)
  }

  lemma LowNothing(get_buffer: Word32)
    ensures Low(get_buffer, [])
  {
    assert Pow2(0) == 1;
  }

  // x * p + y for the low bits only.
  lemma ModShift(x: nat, p: nat, y: nat, m: nat)
    requires p > 0 && m > 0 && y < p
    ensures m * p > 0 && (x * p + y) % (m * p) == (x % m) * p + y
  {
    var q, r := DivMod(x, m);
    assert m * p > 0;
    assert x * p + y == q * (m * p) + (r * p + y) by {
      Distribute(q, m, r, p);
    }
    assert r * p + y < m * p by {
      MulMono(r + 1, m, p);
    }
    DivUnique(x * p + y, m * p, q, r * p + y);
  }

  // Wrapping around does not touch the low bits.
  lemma WrapLow(x: nat, y: nat, w: nat, p: nat, e: nat)
    requires p > 0 && w == e * p && w > 0
    ensures (x % w + y) % p == (x + y) % p
  {
    var q, r := DivMod(x, w);
    var q', r' := DivMod(r + y, p);
    assert x + y == (q * e + q') * p + r' by {
      Distribute(q, e, q', p);
    }
    assert q * e + q' >= 0;
    DivUnique(x + y, p, q * e + q', r');
  }

  // A word shifted left by n, with n bits y put in.
  lemma LowMore(get_buffer: Word32, s: Bits, n: nat, y: nat, merged: Word32)
    requires Low(get_buffer, s) && |s| + n <= 32 && y < Pow2(n)
    requires merged == Shl(get_buffer, n) + y
    ensures Low(merged, s + ToBits(y, n))
  {
    hide *;
    LowIs(get_buffer, s);
    var p, m, k := Pow2(n), Pow2(|s|), |s| + n;
    assert Pow2(k) == m * p by {
      Pow2Add(|s|, n);
    }
    ValToBits(y, n);
    ValConcat(s, ToBits(y, n));
    ModShift(get_buffer, p, y, m);
    WordPow2(k);
    WrapLow(get_buffer * p, y, WORD, Pow2(k), Pow2(32 - k));
    ShlIs(get_buffer, n);
    LowWhen(merged, s + ToBits(y, n));
  }

  lemma LowIs(get_buffer: Word32, s: Bits)
    requires Low(get_buffer, s)
    ensures |s| <= 32 && get_buffer % Pow2(|s|) == Val(s)
  {
  }

  lemma LowWhen(get_buffer: Word32, s: Bits)
    requires |s| <= 32 && get_buffer % Pow2(|s|) == Val(s)
    ensures Low(get_buffer, s)
  {
  }

  lemma ShlIs(x: Word32, n: nat)
    ensures Shl(x, n) == (x * Pow2(n)) % WORD
  {
  }

  lemma WordPow2(n: nat)
    requires n <= 32
    ensures WORD == Pow2(32 - n) * Pow2(n) && WORD > 0
  {
    Pow2Add(32 - n, n);
    Pow2Values();
  }

  lemma SplitLow(x: nat, m: nat, p: nat, a: nat, b: nat)
    requires m > 0 && p > 0 && m * p > 0 && x % (m * p) == a * p + b && a < m && b < p
    ensures x / p % m == a && x % p == b
  {
    var q, r := DivMod(x, m * p);
    assert x == (q * m + a) * p + b by {
      Distribute(q, m, a, p);
    }
    assert q * m + a >= 0;
    DivUnique(x, p, q * m + a, b);
    DivUnique(q * m + a, m, q, a);
  }

  // The first n of the buffered bits, and the others.
  lemma LowTake(get_buffer: Word32, s: Bits, n: nat)
    requires Low(get_buffer, s) && n <= |s|
    ensures Mask(Shr(get_buffer, |s| - n), n) == Val(s[..n])
    ensures Low(get_buffer, s[n..])
  {
    hide *;
    LowIs(get_buffer, s);
    var a, b, k := s[..n], s[n..], |s| - n;
    assert s == a + b;
    ValConcat(a, b);
    ValBound(a);
    ValBound(b);
    Pow2Add(n, k);
    SplitLow(get_buffer, Pow2(n), Pow2(k), Val(a), Val(b));
    LowWhen(get_buffer, b);
  }

  // ----- the reader -----

  // The working state of a decoder within an MCU. (The buffer's type is signed
  // in the source; only bits that were put in are ever looked at.)
  class BitReader {
    const cinfo: Source
    var next_input_byte: nat
    var get_buffer: Word32
    var bits_left: nat
    ghost var buf: Bits

    ghost predicate Valid()
      reads this, cinfo
    {
      && cinfo.Valid() && next_input_byte <= cinfo.avail
      && bits_left == |buf| && Low(get_buffer, buf)
    }

    // The bits of the segment that have not been used, as far as they are known.
    ghost function Future(): Bits
      requires Valid()
      reads this, cinfo
    {
      if cinfo.unread_marker != 0 then buf else buf + SegmentBits(cinfo.data, next_input_byte)
    }

    // The marker that ends the segment.
    ghost function Ending(): End
      requires Valid()
      reads this, cinfo
    {
      if cinfo.unread_marker != 0 then End(cinfo.unread_marker, next_input_byte)
      else SegmentEnd(cinfo.data, next_input_byte)
    }

    // Once bits have had to be made up, only made-up bits are left.
    ghost predicate Settled()
      requires Valid()
      reads this, cinfo
    {
      cinfo.insufficient_data ==> forall i | 0 <= i < |buf| :: !buf[i]
    }

    ghost function Remaining(): Src
      requires Valid()
      reads this, cinfo
    {
      if cinfo.insufficient_data then Src([], true) else Src(Future(), false)
    }

    // BITREAD_LOAD_STATE
    constructor (cinfo: Source, get_buffer: Word32, bits_left: nat, ghost buf: Bits)
      requires cinfo.Valid() && bits_left == |buf| && Low(get_buffer, buf)
      ensures Valid() && this.cinfo == cinfo && this.buf == buf && next_input_byte == cinfo.pos
      ensures this.get_buffer == get_buffer && this.bits_left == bits_left
    {
      this.cinfo, this.get_buffer, this.bits_left, this.buf := cinfo, get_buffer, bits_left, buf;
      next_input_byte := cinfo.pos;
    }

    // Moves bytes into the buffer until it is full or the segment ends.
    method LoadBytes() returns (ok: bool, gb: Word32, bl: nat, next: nat, ghost b: Bits)
      requires Valid()
      modifies cinfo`unread_marker
      ensures Valid() && bl == |b| && Low(gb, b)
      ensures !ok ==> unchanged(cinfo) && cinfo.unread_marker == 0 && !Arrived(Ending(), cinfo.avail)
      ensures ok ==> next <= cinfo.avail && Same(cinfo.data, cinfo.unread_marker, b, next, old(Future()), old(Ending()))
      ensures ok ==> cinfo.unread_marker != 0 || bl >= MIN_GET_BITS
      ensures ok ==> old(cinfo.unread_marker) != 0 ==> unchanged(cinfo)
    {
      hide Low, SegmentBits, SegmentEnd, UnitAt, Merge, Shl, Same, Cut;
      gb, bl, next, b := get_buffer, bits_left, next_input_byte, buf;
      ghost var future, end := Future(), Ending();
      SameStart(cinfo.data, cinfo.unread_marker, b, next, future, end);
      while bl < MIN_GET_BITS && cinfo.unread_marker == 0
        invariant bl == |b| && Low(gb, b) && cinfo.Valid() && next <= cinfo.avail
        invariant Same(cinfo.data, cinfo.unread_marker, b, next, future, end)
        invariant cinfo.unread_marker == 0 || old(cinfo.unread_marker) != 0 ==> unchanged(cinfo)
        decreases cinfo.unread_marker == 0, cinfo.avail - next
      {
        var c, marker, next';
        ok, c, marker, next' := ReadUnit(cinfo.data, next, cinfo.avail);
        if !ok {
          SameCut(cinfo.data, b, next, cinfo.avail, future, end);
          return;
        }
        SameNext(cinfo.data, b, next, future, end);
        if marker != 0 {
          cinfo.unread_marker := marker;
        } else {
          LoadByte(gb, b, c);
          gb, bl, b := Merge(Shl(gb, 8), c), bl + 8, b + ToBits(c, 8);
        }
        next := next';
      }
      ok := true;
    }

    // Loads the buffer to at least nbits bits, and as far as possible. At the end
    // of the segment zero bits are made up if there are fewer than nbits.
    method FillBitBuffer(nbits: nat) returns (ok: bool)
      requires Valid() && nbits <= MIN_GET_BITS
      modifies this, cinfo`unread_marker, cinfo`insufficient_data
      ensures old(cinfo.unread_marker) != 0 ==> cinfo.unread_marker != 0
      ensures Valid()
      ensures !ok ==> unchanged(this) && unchanged(cinfo) && cinfo.unread_marker == 0 && !Arrived(Ending(), cinfo.avail)
      ensures ok ==>
        nbits <= bits_left && Ending() == old(Ending()) && (old(cinfo.insufficient_data) ==> cinfo.insufficient_data)
      ensures ok && nbits <= |old(Future())| ==>
        Future() == old(Future()) && cinfo.insufficient_data == old(cinfo.insufficient_data)
      ensures ok && nbits > |old(Future())| ==>
        cinfo.insufficient_data && buf == Future() == old(Future()) + Zeros(MIN_GET_BITS - |old(Future())|)
    {
      hide Low, SegmentBits, SegmentEnd, UnitAt, Shl;
      var gb: Word32, bl: nat, next: nat := 0, 0, 0;
      ghost var b: Bits := [];
      ok, gb, bl, next, b := LoadBytes();
      if !ok {
        return;
      }
      if cinfo.unread_marker != 0 && nbits > bl {
        cinfo.insufficient_data := true;
        LoadZeros(gb, b, MIN_GET_BITS - bl);
        b := b + Zeros(MIN_GET_BITS - bl);
        gb, bl := Shl(gb, MIN_GET_BITS - bl), MIN_GET_BITS;
      }
      next_input_byte, get_buffer, bits_left, buf := next, gb, bl, b;
    }

    // The facts every bit-fetching step keeps, whether it succeeds or not.
    ghost predicate Fetched(ok: bool, end: End)
      reads this, cinfo
    {
      && Valid() && Ending() == end && (ok ==> Settled())
      && (!ok ==> cinfo.unread_marker == 0 && !Arrived(end, cinfo.avail))
    }

    // The buffered bits used for n bits are the ones at the head of the segment.
    lemma UsedBits(n: nat, before: Src, future: Bits, dry: bool)
      requires Valid() && n <= |buf|
      requires before == if dry then Src([], true) else Src(future, false)
      requires dry ==> cinfo.insufficient_data && forall i | 0 <= i < |buf| :: !buf[i]
      requires !dry && n <= |future| ==> Future() == future && !cinfo.insufficient_data
      requires !dry && n > |future| ==> cinfo.insufficient_data && exists k: nat :: buf == future + Zeros(k)
      ensures buf[..n] == Ahead(before.bits, n)
      ensures Skip(before, n) == if cinfo.insufficient_data then Src([], true) else Src(Future()[n..], false)
      ensures cinfo.insufficient_data ==> forall i | n <= i < |buf| :: !buf[i]
    {
      hide Low, SegmentBits, SegmentEnd;
      if !dry && n > |future| {
        var k: nat :| buf == future + Zeros(k);
      }
    }

    // The next n bits are in the buffer: they are those at the head of before,
    // and using them up leaves what remains of it.
    ghost predicate Holding(n: nat, before: Src)
      reads this, cinfo
    {
      && Valid() && n <= |buf| && buf[..n] == Ahead(before.bits, n)
      && Skip(before, n) == (if cinfo.insufficient_data then Src([], true) else Src(Future()[n..], false))
      && (cinfo.insufficient_data ==> forall i | n <= i < |buf| :: !buf[i])
    }

    // CHECK_BIT_BUFFER
    method CheckBitBuffer(n: nat) returns (ok: bool)
      requires Valid() && Settled() && n <= MIN_GET_BITS
      modifies this, cinfo`unread_marker, cinfo`insufficient_data
      ensures old(cinfo.unread_marker) != 0 ==> cinfo.unread_marker != 0
      ensures Valid() && Ending() == old(Ending())
      ensures ok ==> Holding(n, old(Remaining()))
      ensures !ok ==> unchanged(this) && unchanged(cinfo) && cinfo.unread_marker == 0 && !Arrived(Ending(), cinfo.avail)
    {
      hide Low, SegmentBits, SegmentEnd, Zeros;
      ghost var before, future, dry := Remaining(), Future(), cinfo.insufficient_data;
      ok := true;
      if bits_left < n {
        ok := FillBitBuffer(n);
      }
      if ok {
        UsedBits(n, before, future, dry);
      }
    }

    // GET_BITS, and what PEEK_BITS and DROP_BITS do of it.
    method TakeBits(n: nat, ghost before: Src) returns (v: nat)
      requires Holding(n, before)
      modifies this`bits_left, this`buf
      ensures Valid() && Settled() && Ending() == old(Ending())
      ensures v == Peek(before, n) && Remaining() == Skip(before, n)
    {
      hide Low, SegmentBits, SegmentEnd;
      LowTake(get_buffer, buf, n);
      v := Mask(Shr(get_buffer, bits_left - n), n);
      bits_left := bits_left - n;
      buf := buf[n..];
    }

    // CHECK_BIT_BUFFER followed by GET_BITS
    method GetBits(n: nat) returns (ok: bool, v: nat)
      requires Valid() && Settled() && n <= MIN_GET_BITS
      modifies this, cinfo`unread_marker, cinfo`insufficient_data
      ensures old(cinfo.unread_marker) != 0 ==> cinfo.unread_marker != 0
      ensures Fetched(ok, old(Ending()))
      ensures ok ==> v == Peek(old(Remaining()), n) && Remaining() == Skip(old(Remaining()), n)
    {
      hide Low, SegmentBits, SegmentEnd, Future, Ending, Holding;
      ghost var before := Remaining();
      v := 0;
      ok := CheckBitBuffer(n);
      if ok {
        v := TakeBits(n, before);
      }
    }

    lemma FetchedNot(end: End)
      requires Valid() && Ending() == end && cinfo.unread_marker == 0 && !Arrived(end, cinfo.avail)
      ensures Fetched(false, end)
    {
    }

    lemma FetchedOk(end: End)
      requires Valid() && Ending() == end && Settled()
      ensures Fetched(true, end)
    {
    }

    // Fetching without need: nothing is made up.
    method Prefetch() returns (ok: bool)
      requires Valid() && Settled()
      modifies this, cinfo`unread_marker, cinfo`insufficient_data
      ensures old(cinfo.unread_marker) != 0 ==> cinfo.unread_marker != 0
      ensures Valid() && Settled() && Remaining() == old(Remaining()) && Ending() == old(Ending())
      ensures !ok ==> cinfo.unread_marker == 0 && !Arrived(Ending(), cinfo.avail)
    {
      hide Low, SegmentBits, SegmentEnd;
      ok := FillBitBuffer(0);
    }

    // PEEK_BITS(8)
    method PeekByte(ghost before: Src) returns (look: nat)
      requires Valid() && Settled() && bits_left >= 8 && before == Remaining()
      ensures look < 256 && look == Peek(before, 8) && Holding(8, before)
    {
      hide SegmentBits, SegmentEnd;
      UsedBits(8, before, Future(), cinfo.insufficient_data);
      LowTake(get_buffer, buf, 8);
      look := Mask(Shr(get_buffer, bits_left - 8), 8);
      ValBound(buf[..8]);
      assert Pow2(8) == 256;
    }

    lemma HoldingFewer(n: nat, m: nat, before: Src)
      requires Valid() && Settled() && before == Remaining() && Holding(n, before) && m <= n
      ensures Holding(m, before)
    {
      hide Low, SegmentBits, SegmentEnd;
      UsedBits(m, before, Future(), cinfo.insufficient_data);
    }

    lemma FetchedParts(ok: bool, end: End)
      requires Fetched(ok, end)
      ensures Valid() && Ending() == end && (ok ==> Settled())
    {
    }

    // jpeg_huff_decode: collects the code bit by bit, from min_bits bits on (figure F.16).
    // A result of -1 means suspension.
    method HuffDecode(d: DDerived, min_bits: nat) returns (result: int)
      requires Valid() && Settled() && Decodes(d.pub, d)
      requires 1 <= min_bits <= 9 && MatchLen(d.pub.bits, Remaining().bits) >= min_bits
      modifies this, cinfo`unread_marker, cinfo`insufficient_data
      ensures old(cinfo.unread_marker) != 0 ==> cinfo.unread_marker != 0
      ensures Fetched(result >= 0, old(Ending())) && result >= -1
      ensures result >= 0 ==>
        result == Symbol(d.pub, old(Remaining())) && Remaining() == AfterSymbol(d.pub, old(Remaining()))
    {
      hide *;
      DecodesShape(d);
      ghost var before, end := Remaining(), Ending();
      var l: nat := min_bits;
      var ok, code: nat := GetBits(l);
      FetchedParts(ok, end);
      SlowStep(d, before, l);
      while ok && l < 18 && code > d.maxcode[l]
        invariant Valid() && Ending() == end && Fetched(ok, end) && min_bits <= l <= 17
        invariant old(cinfo.unread_marker) != 0 ==> cinfo.unread_marker != 0
        invariant ok ==> Valid() && Settled() && code == Peek(before, l) && Remaining() == Skip(before, l)
        invariant MatchLen(d.pub.bits, before.bits) >= l
        decreases 18 - l
      {
        var bit;
        SlowStep(d, before, l);
        PeekMore(before, l);
        ok, bit := GetBits(1);
        FetchedParts(ok, end);
        code := 2 * code + bit;
        l := l + 1;
      }
      if !ok {
        return -1;
      }
      SlowStep(d, before, l);
      SlowEnd(d, before, l);
      if l > 16 {
        return 0;
      }
      return d.pub.huffval[code + d.valoffset[l]];
    }

    // HUFF_DECODE: by table lookup of the next 8 bits where there are as many and
    // their code is no longer, otherwise bit by bit.
    method DecodeSymbol(d: DDerived) returns (result: int)
      requires Valid() && Settled() && Decodes(d.pub, d)
      modifies this, cinfo`unread_marker, cinfo`insufficient_data
      ensures old(cinfo.unread_marker) != 0 ==> cinfo.unread_marker != 0
      ensures Fetched(result >= 0, old(Ending())) && result >= -1
      ensures result >= 0 ==>
        result == Symbol(d.pub, old(Remaining())) && Remaining() == AfterSymbol(d.pub, old(Remaining()))
    {
      hide *;
      DecodesShape(d);
      ghost var before, end := Remaining(), Ending();
      MatchStart(d.pub.bits, before.bits);
      if bits_left < HUFF_LOOKAHEAD {
        var ok := Prefetch();
        if !ok {
          FetchedNot(end);
          return -1;
        }
        if bits_left < HUFF_LOOKAHEAD {
          result := HuffDecode(d, 1);
          return;
        }
      }
      var look := PeekByte(before);
      var nb := d.look_nbits[look];
      LookRight(d, before, look);
      if nb != 0 {
        HoldingFewer(HUFF_LOOKAHEAD, nb, before);
        var dropped := TakeBits(nb, before);
        FetchedOk(end);
        return d.look_sym[look];
      }
      result := HuffDecode(d, HUFF_LOOKAHEAD + 1);
    }
  }

  lemma DecodesShape(d: DDerived)
    requires Decodes(d.pub, d)
    ensures |d.pub.bits| == 17 && |d.maxcode| == 18 && |d.look_nbits| == |d.look_sym| == 256
    ensures WellTyped(d.pub) && Legal(d.pub.bits) && MIN_GET_BITS == 25 && HUFF_LOOKAHEAD == 8
  {
  }

  lemma MatchStart(bits: seq<nat>, s: Bits)
    requires |bits| == 17
    ensures MatchLen(bits, s) >= 1
  {
  }

  // What the lookahead table says of the next 8 bits.
  lemma LookRight(d: DDerived, s: Src, look: nat)
    requires Decodes(d.pub, d) && |d.look_nbits| == |d.look_sym| == 256 && look < 256 && look == Peek(s, 8)
    requires WellTyped(d.pub) && Legal(d.pub.bits) && |d.pub.bits| == 17
    ensures d.look_nbits[look] != 0 ==>
      d.look_nbits[look] <= 8 && d.look_sym[look] == Symbol(d.pub, s)
      && AfterSymbol(d.pub, s) == Skip(s, d.look_nbits[look])
    ensures d.look_nbits[look] == 0 ==> MatchLen(d.pub.bits, s.bits) >= 9
  {
    hide Legal, WellTyped, SlowTables, Used, Upto, CodeOf, LenOf, MatchFrom, ToBits, Val;
    var bits, s8 := d.pub.bits, ToBits(look, 8);
    ToBitsVal(Ahead(s.bits, 8));
    assert s8 == Ahead(s.bits, 8) == Ahead(s8, 8);
    assert LookEntry(d.pub, look, d.look_nbits[look], d.look_sym[look]);
    if MatchLen(bits, s8) <= 8 {
      MatchLocal(bits, s8, s.bits, 8);
    } else if MatchLen(bits, s.bits) <= 8 {
      MatchLocal(bits, s.bits, s8, 8);
    }
  }

  lemma PeekMore(s: Src, l: nat)
    ensures Peek(s, l + 1) == 2 * Peek(s, l) + Peek(Skip(s, l), 1) && Skip(Skip(s, l), 1) == Skip(s, l + 1)
  {
    SkipTwice(s, l, 1);
    assert Pow2(1) == 2;
  }

  // The slow loop goes on exactly as long as there is no code of length l.
  lemma SlowStep(d: DDerived, s: Src, l: nat)
    requires Decodes(d.pub, d) && 1 <= l <= 17 && MatchLen(d.pub.bits, s.bits) >= l
    ensures |d.maxcode| == 18
    ensures Peek(s, l) > d.maxcode[l] <==> MatchLen(d.pub.bits, s.bits) > l
    ensures l == 17 ==> Peek(s, l) <= d.maxcode[l]
  {
    hide Legal, WellTyped, LookEntry;
    var bits := d.pub.bits;
    if l == 17 {
      ValBound(Ahead(s.bits, 17));
      Pow2Values();
      Pow2Add(16, 1);
      assert Pow2(1) == 2;
    } else {
      if l > 1 {
        MatchAtLeast(bits, s.bits, l);
      }
      assert SlowEntry(bits, l, d.maxcode[l], d.valoffset[l]);
    }
  }

  // Where the loop stops, the symbol is found.
  lemma SlowEnd(d: DDerived, s: Src, l: nat)
    requires Decodes(d.pub, d) && 1 <= l <= 17 && MatchLen(d.pub.bits, s.bits) == l
    ensures WellTyped(d.pub) && Legal(d.pub.bits) && |d.valoffset| == 17
    ensures AfterSymbol(d.pub, s) == Skip(s, l)
    ensures l == 17 ==> Symbol(d.pub, s) == 0
    ensures l <= 16 ==> 0 <= Peek(s, l) + d.valoffset[l] < 256 == |d.pub.huffval| &&
                        d.pub.huffval[Peek(s, l) + d.valoffset[l]] == Symbol(d.pub, s)
  {
    if l <= 16 {
      var p := MatchIndex(d.pub.bits, s.bits);
      assert SlowEntry(d.pub.bits, l, d.maxcode[l], d.valoffset[l]);
      assert p == Peek(s, l) + d.valoffset[l];
    }
  }

  // The bits and the end of a segment, with b buffered and next the next byte.
  ghost predicate Same(data: seq<Byte>, marker: nat, b: Bits, next: nat, future: Bits, end: End) {
    && next <= |data|
    && future == (if marker != 0 then b else b + SegmentBits(data, next))
    && end == if marker != 0 then End(marker, next) else SegmentEnd(data, next)
  }

  lemma SameStart(data: seq<Byte>, marker: nat, b: Bits, next: nat, future: Bits, end: End)
    requires next <= |data| && future == (if marker != 0 then b else b + SegmentBits(data, next))
    requires end == if marker != 0 then End(marker, next) else SegmentEnd(data, next)
    ensures Same(data, marker, b, next, future, end)
  {
  }

  // One unit on, the segment is still the same.
  lemma SameNext(data: seq<Byte>, b: Bits, p: nat, future: Bits, end: End)
    requires p <= |data| && Same(data, 0, b, p, future, end)
    ensures match UnitAt(data, p)
            case Data(c, next) => p < next && Same(data, 0, b + ToBits(c, 8), next, future, end)
            case Marker(code, next) => 0 < code < 0xFF && Same(data, code, b, next, future, end)
            case Starved => true
  {
    hide ToBits;
    if UnitAt(data, p).Data? {
      Assoc(b, ToBits(UnitAt(data, p).c, 8), SegmentBits(data, UnitAt(data, p).next));
    } else {
      assert b + [] == b;
    }
  }

  lemma SameCut(data: seq<Byte>, b: Bits, p: nat, avail: nat, future: Bits, end: End)
    requires p <= |data| && Same(data, 0, b, p, future, end) && Cut(data, p, avail)
    ensures !Arrived(end, avail)
  {
  }

  lemma ShlByte(x: Word32)
    ensures Shl(x, 8) == x % 0x100_0000 * 0x100
  {
    hide Pow2;
    Pow2Values();
    var a, h := x / 0x100_0000, x % 0x100_0000;
    assert x * 0x100 == a * WORD + h * 0x100;
    DivUnique(x * 0x100, WORD, a, h * 0x100);
  }

  lemma LowLength(get_buffer: Word32, s: Bits)
    requires Low(get_buffer, s)
    ensures |s| <= 32
  {
  }

  // A byte enters the buffer.
  lemma LoadByte(get_buffer: Word32, s: Bits, c: Byte)
    requires Low(get_buffer, s) && |s| < MIN_GET_BITS
    ensures Low(Merge(Shl(get_buffer, 8), c), s + ToBits(c, 8))
  {
    hide Low, ToBits, Or, Pow2;
    var n := 8;
    assert Pow2(n) == 0x100 by {
      Pow2Values();
    }
    var h := get_buffer % 0x100_0000;
    ShlByte(get_buffer);
    LowLength(get_buffer, s);
    OrDisjoint(h, c, n);
    LowMore(get_buffer, s, n, c, h * 0x100 + c);
  }

  lemma LoadZeros(get_buffer: Word32, s: Bits, n: nat)
    requires Low(get_buffer, s) && |s| + n <= 32
    ensures Low(Shl(get_buffer, n), s + Zeros(n))
  {
    ZeroBits(n);
    LowMore(get_buffer, s, n, 0, Shl(get_buffer, n));
  }

  lemma {:induction false} ZeroBits(n: nat)
    ensures ToBits(0, n) == Zeros(n)
  {
    if n > 0 {
      ZeroBits(n - 1);
    }
  }
}
