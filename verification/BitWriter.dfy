// emit_byte, emit_bits and flush_bits of jchuff.c: bit accumulation with byte
// stuffing (section F.1.2.3 of ITU-T T.81) into a buffer that may fill up.
module BitWriter {
  import opened Arith
  import opened Bits
  import opened Words
  import opened Errors

  type Byte = x: int | 0 <= x < 256

  // ----- what the writer computes -----

  // A data byte in the entropy-coded segment; an 0xFF is followed by a zero byte.
  function Stuffed(c: Byte): (r: seq<Byte>)
    ensures |r| >= 1
  {
    if c == 0xFF then [0xFF, 0] else [c]
  }

  function ByteOf(s: Bits): Byte
    requires |s| == 8
  {
    ValBound(s);
    assert Pow2(8) == 256;
    Val(s)
  }

  // The bytes that all complete groups of 8 bits of s make ...
  function Emitted(s: Bits): (r: seq<Byte>)
    decreases |s|
  {
    if |s| < 8 then [] else Stuffed(ByteOf(s[..8])) + Emitted(s[8..])
  }

  // ... and the bits left over.
  function Rest(s: Bits): (r: Bits)
    ensures |r| < 8
    decreases |s|
  {
    if |s| < 8 then s else Rest(s[8..])
  }

  // Bits may be handed over in any portions.
  lemma {:induction false} EmittedConcat(a: Bits, b: Bits)
    ensures Emitted(a + b) == Emitted(a) + Emitted(Rest(a) + b)
    ensures Rest(a + b) == Rest(Rest(a) + b)
    decreases |a|
  {
    if |a| >= 8 {
      assert (a + b)[..8] == a[..8] && (a + b)[8..] == a[8..] + b;
      EmittedConcat(a[8..], b);
      Assoc(Stuffed(ByteOf(a[..8])), Emitted(a[8..]), Emitted(Rest(a[8..]) + b));
    }
  }

  lemma EmittedAppend(closed: seq<Byte>, output: seq<Byte>, bits: Bits, more: Bits)
    requires output == closed + Emitted(bits)
    ensures output + Emitted(Rest(bits) + more) == closed + Emitted(bits + more)
    ensures Rest(Rest(bits) + more) == Rest(bits + more)
  {
    EmittedConcat(bits, more);
    Assoc(closed, Emitted(bits), Emitted(Rest(bits) + more));
  }

  function Ones(n: nat): (r: Bits)
    ensures |r| == n
    ensures forall i | 0 <= i < n :: r[i]
  {
    seq(n, _ => true)
  }

  // A finished segment: the last partial byte is filled with ones.
  function Flushed(s: Bits): seq<Byte> {
    Emitted(s + Ones(7))
  }

  // ----- the 24-bit buffer -----

  // The right 24 bits of the buffer hold the bits s, left-justified.
  ghost predicate Holds(put_buffer: Word32, s: Bits) {
    |s| <= 24 && put_buffer % 0x100_0000 == Val(s) * Pow2(24 - |s|)
  }

  lemma HoldsNothing()
    ensures Holds(0, [])
  {
  }

  // The incoming bits fit below the bits already there.
  lemma IncomingFits(v: nat, size: nat, k: nat, room: nat)
    requires v < Pow2(size) && size + k == room <= 24
    ensures v * Pow2(k) < Pow2(room) <= 0x100_0000
    ensures Pow2(room) == Pow2(size) * Pow2(k)
  {
    Pow2Add(size, k);
    Below(v, Pow2(size), Pow2(k));
    Pow24Bound(room);
  }

  lemma ShiftSmall(v: Word32, size: nat, k: nat, room: nat)
    requires v < Pow2(size) && size + k == room <= 24
    ensures Shl(v, k) == v * Pow2(k)
  {
    IncomingFits(v, size, k, room);
    ShlExact(v, k, Pow2(k));
  }

  lemma LowBitsVal(code: nat, size: nat) returns (v: nat)
    ensures v == code % Pow2(size) && v < Pow2(size) && Val(ToBits(code, size)) == v
  {
    var q;
    q, v := DivMod(code, Pow2(size));
    ToBitsLow(code, size);
    ValToBits(v, size);
  }

  // Merging bits that lie below the bits already there.
  lemma MergeLow(put_buffer: Word32, a: nat, k: nat, low: nat)
    requires put_buffer % 0x100_0000 == a * Pow2(k) && low < Pow2(k) <= 0x100_0000
    ensures Or(low, put_buffer) % 0x100_0000 == a * Pow2(k) + low
  {
    OrLow24(low, put_buffer, a * Pow2(k));
    OrBelow(a, low, k);
  }

  // The value of the bits already there with size more bits behind them.
  lemma AppendValue(s: Bits, code: nat, size: nat, k: nat, v: nat)
    requires |s| + size + k == 24 && Val(ToBits(code, size)) == v < Pow2(size)
    ensures Val(s + ToBits(code, size)) * Pow2(k) == Val(s) * Pow2(24 - |s|) + v * Pow2(k)
    ensures v * Pow2(k) < Pow2(24 - |s|) <= 0x100_0000
  {
    IncomingFits(v, size, k, 24 - |s|);
    ValConcat(s, ToBits(code, size));
    Distribute(Val(s), Pow2(size), v, Pow2(k));
  }

  // Aligning size incoming bits behind the bits already there and merging them.
  lemma HoldsMore(put_buffer: Word32, s: Bits, code: Word32, size: nat, merged: Word32)
    requires Holds(put_buffer, s) && |s| + size <= 24
    requires merged == Or(Shl(Mask(code, size), 24 - (|s| + size)), put_buffer)
    ensures Holds(merged, s + ToBits(code, size))
  {
    var k := 24 - (|s| + size);
    var v := LowBitsVal(code, size);
    ShiftSmall(v, size, k, 24 - |s|);
    AppendValue(s, code, size, k, v);
    MergeLow(put_buffer, Val(s), 24 - |s|, v * Pow2(k));
  }

  // The value of the bits behind the first 8, and their room.
  lemma TailFits(s: Bits, k: nat)
    requires |s| >= 8 && |s| + k == 24
    ensures Val(s[8..]) * Pow2(k) < 0x1_0000 == Pow2(|s| - 8) * Pow2(k)
  {
    Pow2Values();
    ValBound(s[8..]);
    IncomingFits(Val(s[8..]), |s| - 8, k, 16);
  }

  lemma SplitValue(s: Bits, k: nat)
    requires |s| >= 8 && |s| + k == 24
    ensures Val(s) * Pow2(k) == Val(s[..8]) * 0x1_0000 + Val(s[8..]) * Pow2(k)
  {
    var h, t, n := Val(s[..8]), Val(s[8..]), Pow2(|s| - 8);
    assert Val(s) == h * n + t by {
      assert s == s[..8] + s[8..];
      ValConcat(s[..8], s[8..]);
    }
    TailFits(s, k);
    Distribute(h, n, t, Pow2(k));
  }

  // The top byte of the 24 bits goes out; the others move up.
  lemma HoldsByte(put_buffer: Word32, s: Bits)
    requires Holds(put_buffer, s) && |s| >= 8
    ensures Mask(Shr(put_buffer, 16), 8) == ByteOf(s[..8])
    ensures Holds(Shl(put_buffer, 8), s[8..])
  {
    var k := 24 - |s|;
    SplitValue(s, k);
    TailFits(s, k);
    TopByte(put_buffer, ByteOf(s[..8]), Val(s[8..]) * Pow2(k));
    DropTopByte(put_buffer, ByteOf(s[..8]), Val(s[8..]) * Pow2(k));
    Pow2Add(k, 8);
    assert Pow2(8) == 0x100;
    MulAssoc(Val(s[8..]), Pow2(k), 0x100);
  }

  // ----- the writer -----

  datatype Status = Done | Suspended | Failed(error: Error)

  // The working state of an encoder: the output buffer and the bit buffer. A
  // suspending destination never empties its buffer; any other one does so at once.
  class BitWriter {
    const suspending: bool
    const bufferSize: nat
    var output: seq<Byte>        // bytes written since the state was loaded
    var free_in_buffer: nat
    var put_buffer: Word32
    var put_bits: nat
    ghost var room: nat          // free_in_buffer when the state was loaded
    ghost var closed: seq<Byte>  // bytes of finished segments
    ghost var bits: Bits         // bits of the open segment, from its last byte boundary on

    ghost predicate Valid()
      reads this
    {
      && bufferSize > 0
      && output == closed + Emitted(bits)
      && put_bits == |Rest(bits)| && Holds(put_buffer, Rest(bits))
      && free_in_buffer > 0
      && (suspending ==> |output| + free_in_buffer == room)
    }

    // No suspension while the bytes of the segments and of the bits b stay below the room.
    ghost predicate Fits(b: seq<Byte>)
      reads this
    {
      suspending ==> |closed + b| < room
    }

    // Loads the state: pending are the bits held back by earlier MCUs.
    constructor (suspending: bool, bufferSize: nat, free: nat, put_buffer: Word32, put_bits: nat, ghost pending: Bits)
      requires bufferSize > 0 && free > 0
      requires |pending| == put_bits < 8 && Holds(put_buffer, pending)
      ensures Valid() && closed == [] && bits == pending && room == free && output == []
      ensures this.suspending == suspending
    {
      this.suspending := suspending;
      this.bufferSize := bufferSize;
      this.output := [];
      this.free_in_buffer := free;
      this.put_buffer := put_buffer;
      this.put_bits := put_bits;
      this.room := free;
      this.closed := [];
      this.bits := pending;
    }

    method DumpBuffer() returns (ok: bool)
      requires bufferSize > 0
      modifies this`free_in_buffer
      ensures ok == !suspending
      ensures ok ==> free_in_buffer > 0
      ensures !ok ==> free_in_buffer == old(free_in_buffer)
    {
      if suspending {
        return false;
      }
      free_in_buffer := bufferSize;
      return true;
    }

    // FALSE means suspension: the byte that used up the buffer is lost with the rest of the MCU.
    method EmitByte(val: Byte) returns (ok: bool)
      requires bufferSize > 0 && free_in_buffer > 0
      modifies this`output, this`free_in_buffer
      ensures output == old(output) + [val]
      ensures ok <==> !suspending || old(free_in_buffer) > 1
      ensures ok ==> free_in_buffer > 0
      ensures suspending ==> free_in_buffer == old(free_in_buffer) - 1
    {
      output := output + [val];
      free_in_buffer := free_in_buffer - 1;
      ok := true;
      if free_in_buffer == 0 {
        ok := DumpBuffer();
      }
    }

    // A data byte, with the zero byte stuffed after 0xFF.
    method EmitStuffed(c: Byte) returns (ok: bool)
      requires bufferSize > 0 && free_in_buffer > 0
      modifies this`output, this`free_in_buffer
      ensures ok <==> !suspending || old(free_in_buffer) > |Stuffed(c)|
      ensures ok ==> output == old(output) + Stuffed(c) && free_in_buffer > 0
      ensures ok && suspending ==> free_in_buffer == old(free_in_buffer) - |Stuffed(c)|
    {
      ok := EmitByte(c);
      if ok && c == 0xFF {
        ok := EmitByte(0);
      }
    }

    // Sends the complete bytes of the n bits that buffer holds.
    method Drain(buffer0: Word32, n0: nat, ghost left0: Bits) returns (ok: bool, buffer: Word32, n: nat)
      requires bufferSize > 0 && free_in_buffer > 0 && (suspending ==> |output| + free_in_buffer == room)
      requires n0 == |left0| <= 24 && Holds(buffer0, left0)
      modifies this`output, this`free_in_buffer
      ensures ok <==> !suspending || |old(output) + Emitted(left0)| < room
      ensures ok ==> output == old(output) + Emitted(left0) && n == |Rest(left0)| && Holds(buffer, Rest(left0))
      ensures ok ==> free_in_buffer > 0 && (suspending ==> |output| + free_in_buffer == room)
    {
      buffer, n := buffer0, n0;
      ghost var left := left0;
      while n >= 8
        invariant n == |left| <= 24 && Holds(buffer, left)
        invariant free_in_buffer > 0 && (suspending ==> |output| + free_in_buffer == room)
        invariant old(output) + Emitted(left0) == output + Emitted(left)
        invariant Rest(left) == Rest(left0)
      {
        HoldsByte(buffer, left);
        var c := Mask(Shr(buffer, 16), 8);
        assert output + Emitted(left) == output + Stuffed(c) + Emitted(left[8..]);
        ok := EmitStuffed(c);
        if !ok {
          return;
        }
        buffer := Shl(buffer, 8);
        n := n - 8;
        left := left[8..];
      }
      return true, buffer, n;
    }

    // Appends the size low-order bits of code.
    method AppendBits(code: Word32, size: nat) returns (ok: bool)
      requires Valid() && 0 < size <= 16
      modifies this
      ensures room == old(room) && closed == old(closed)
      ensures ok <==> Fits(Emitted(old(bits) + ToBits(code, size)))
      ensures ok ==> Valid() && bits == old(bits) + ToBits(code, size)
    {
      ghost var more := ToBits(code, size);
      ghost var pending, all := Rest(bits) + more, bits + more;
      var n := put_bits + size;
      var buffer := Merge(Shl(Mask(code, size), 24 - n), put_buffer);
      HoldsMore(put_buffer, Rest(bits), code, size, buffer);
      EmittedAppend(closed, output, bits, more);
      ok, buffer, n := Drain(buffer, n, pending);
      if ok {
        put_buffer := buffer;
        put_bits := n;
        bits := all;
      }
    }

    // emit_bits; size 0 stands for a symbol without a code.
    method EmitBits(code: Word32, size: nat) returns (st: Status)
      requires Valid() && size <= 16
      modifies this
      ensures room == old(room) && closed == old(closed)
      ensures st.Failed? <==> size == 0
      ensures st.Failed? ==> st.error == HuffMissingCode && Valid() && bits == old(bits)
      ensures st.Done? <==> size > 0 && Fits(Emitted(old(bits) + ToBits(code, size)))
      ensures st.Done? ==> Valid() && bits == old(bits) + ToBits(code, size)
    {
      if size == 0 {
        return Failed(HuffMissingCode);
      }
      var ok := AppendBits(code, size);
      return if ok then Done else Suspended;
    }

    // Fills the last byte with ones and empties the bit buffer: the segment is finished.
    method FlushBits() returns (ok: bool)
      requires Valid()
      modifies this
      ensures room == old(room)
      ensures ok <==> old(Fits(Flushed(bits)))
      ensures ok ==> Valid() && bits == [] && closed == old(closed) + Flushed(old(bits)) && put_bits == 0
    {
      var fill, size := 0x7F, 7;
      SevenOnes(fill, size);
      ok := AppendBits(fill, size);
      if ok {
        put_buffer := 0;
        put_bits := 0;
        closed := output;
        bits := [];
        HoldsNothing();
        assert output == closed + Emitted(bits);
      }
    }

    // The two bytes of a marker, between segments.
    method EmitMarker(code: Byte) returns (ok: bool)
      requires Valid() && bits == []
      modifies this
      ensures room == old(room)
      ensures ok <==> old(Fits([0xFF, code]))
      ensures ok ==> Valid() && bits == [] && closed == old(closed) + [0xFF, code]
    {
      ok := EmitByte(0xFF);
      if ok {
        ok := EmitByte(code);
      }
      if ok {
        closed := output;
      }
    }
  }

  lemma SevenOnes(fill: nat, size: nat)
    requires fill == 0x7F && size == 7
    ensures ToBits(fill, size) == Ones(7)
  {
    assert ToBits(0x7, 3) == Ones(3);
    assert ToBits(0x3F, 6) == Ones(6);
  }

  function Merge(x: Word32, y: Word32): Word32 {
    Pow2Values();
    OrBound(x, y, 32);
    Or(x, y)
  }
}
