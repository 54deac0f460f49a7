// The C operators on 32-bit words that the bit buffers use. A word is the
// number its 32 bits denote; shifting left loses what leaves the word.
module Words {
  import opened Arith
  import opened Bits

  const WORD := 0x1_0000_0000

  type Word32 = x: int | 0 <= x < 0x1_0000_0000

  function Shl(x: Word32, n: nat): Word32 {
    (x * Pow2(n)) % WORD
  }

  function Shr(x: Word32, n: nat): (r: Word32)
    ensures r == x / Pow2(n)
  {
    Quot(x, Pow2(n))
  }

  // x & ((1 << n) - 1)
  function Mask(x: Word32, n: nat): (r: Word32)
    ensures r == x % Pow2(n)
  {
    ModLess(x, Pow2(n));
    x % Pow2(n)
  }

  // x | y
  function Or(x: nat, y: nat): nat
    decreases x + y
  {
    if x == 0 && y == 0 then 0
    else 2 * Or(x / 2, y / 2) + if x % 2 == 1 || y % 2 == 1 then 1 else 0
  }

  lemma DivMod(x: nat, d: nat) returns (q: nat, r: nat)
    requires d > 0
    ensures q == x / d && r == x % d && x == r + q * d && r < d
  {
    q, r := x / d, x % d;
  }

  lemma ModLess(x: nat, d: nat)
    requires d > 0
    ensures x % d <= x
  {
    assert x == d * (x / d) + x % d;
    assert d * (x / d) >= 0;
  }

  lemma {:induction false} OrBound(x: nat, y: nat, n: nat)
    requires x < Pow2(n) && y < Pow2(n)
    ensures Or(x, y) < Pow2(n)
    decreases n
  {
    if n > 0 && !(x == 0 && y == 0) {
      OrBound(x / 2, y / 2, n - 1);
    }
  }

  lemma {:induction false} OrZero(x: nat)
    ensures Or(x, 0) == x
  {
    if x > 0 {
      OrZero(x / 2);
    }
  }

  // Or-ing a word whose low n bits are clear with n bits puts them side by side.
  lemma {:induction false} OrDisjoint(a: nat, b: nat, n: nat)
    requires b < Pow2(n)
    ensures Or(a * Pow2(n), b) == a * Pow2(n) + b
    decreases n
  {
    if n == 0 {
      OrZero(a);
    } else {
      var h := a * Pow2(n - 1);
      assert a * Pow2(n) == 2 * h;
      OrDisjoint(a, b / 2, n - 1);
    }
  }

  lemma {:induction false} OrSymmetric(x: nat, y: nat)
    ensures Or(x, y) == Or(y, x)
    decreases x + y
  {
    if !(x == 0 && y == 0) {
      OrSymmetric(x / 2, y / 2);
    }
  }

  lemma OrBelow(a: nat, low: nat, k: nat)
    requires low < Pow2(k)
    ensures Or(low, a * Pow2(k)) == a * Pow2(k) + low
  {
    OrSymmetric(low, a * Pow2(k));
    OrDisjoint(a, low, k);
  }

  // The low n bits of an or depend on the low n bits of the operands only.
  lemma {:induction false} OrLow(x: nat, y: nat, n: nat)
    ensures Or(x, y) % Pow2(n) == Or(x % Pow2(n), y % Pow2(n))
    decreases n
  {
    if n > 0 {
      OrLow(x / 2, y / 2, n - 1);
      ModHalf(x, n);
      ModHalf(y, n);
      ModHalf(Or(x, y), n);
    }
  }

  // Halving commutes with keeping low bits.
  lemma ModHalf(x: nat, n: nat)
    requires n > 0
    ensures x % Pow2(n) == 2 * (x / 2 % Pow2(n - 1)) + x % 2
  {
    var d := Pow2(n - 1);
    var q, r := x / 2 / d, x / 2 % d;
    assert x / 2 == q * d + r;
    assert x == q * (2 * d) + (2 * r + x % 2);
    DivUnique(x, 2 * d, q, 2 * r + x % 2);
  }

  lemma MulAssoc(a: int, b: int, c: int)
    ensures a * b * c == a * (b * c)
  {
  }

  // Only the n low-order bits matter to ToBits.
  lemma {:induction false} ToBitsLow(x: nat, n: nat)
    ensures ToBits(x % Pow2(n), n) == ToBits(x, n)
    decreases n
  {
    if n > 0 {
      ModHalf(x, n);
      ToBitsLow(x / 2, n - 1);
    }
  }

  lemma Distribute(a: int, b: int, c: int, d: int)
    ensures (a * b + c) * d == a * (b * d) + c * d
  {
    assert (a * b + c) * d == a * b * d + c * d;
    assert a * b * d == a * (b * d);
  }

  lemma Below(v: nat, a: nat, b: nat)
    requires v < a && b > 0
    ensures v * b < a * b
  {
    MulMono(v + 1, a, b);
  }

  // A shift that stays in the word.
  lemma ShlExact(x: Word32, n: nat, p: nat)
    requires p == Pow2(n) && x * p < WORD
    ensures Shl(x, n) == x * p
  {
    ModSmall(x * p, WORD);
  }

  lemma ModSmall(x: nat, d: nat)
    requires x < d
    ensures x % d == x
  {
    DivUnique(x, d, 0, x);
  }

  lemma Pow2Values()
    ensures Pow2(8) == 0x100 && Pow2(16) == 0x1_0000 && Pow2(24) == 0x100_0000 && Pow2(32) == WORD
  {
    assert Pow2(8) == 0x100;
    assert Pow2(16) == 0x1_0000;
    assert Pow2(24) == 0x100_0000;
  }

  lemma Pow24Bound(n: nat)
    requires n <= 24
    ensures Pow2(n) <= 0x100_0000
  {
    Pow2Mono(n, 24);
    Pow2Values();
  }

  lemma OrLow24(x: nat, y: nat, y': nat)
    requires x < 0x100_0000 && y' == y % 0x100_0000
    ensures Or(x, y) % 0x100_0000 == Or(x, y')
  {
    var n := 24;
    assert Pow2(n) == 0x100_0000 by {
      Pow2Values();
    }
    OrLow(x, y, n);
    ModSmall(x, 0x100_0000);
  }

  lemma SplitTop(x: int, h: int, low: int)
    requires x % 0x100_0000 == h * 0x1_0000 + low
    ensures x == (x / 0x100_0000 * 0x100 + h) * 0x1_0000 + low
  {
  }

  // h is the top byte of the right 24 bits of x, low the bits below it.
  lemma TopByte(x: Word32, h: nat, low: nat)
    requires x % 0x100_0000 == h * 0x1_0000 + low && low < 0x1_0000 && h < 0x100
    ensures Mask(Shr(x, 16), 8) == h
  {
    SplitTop(x, h, low);
    assert x / 0x1_0000 == x / 0x100_0000 * 0x100 + h;
    assert Pow2(16) == 0x1_0000 && Pow2(8) == 0x100 by {
      Pow2Values();
    }
  }

  lemma ByteOut(x: nat, a: nat, low: nat)
    requires x == a * 0x1_0000 + low && low < 0x1_0000
    ensures x * 0x100 % WORD % 0x100_0000 == low * 0x100
  {
    var y := x * 0x100;
    assert y % WORD == y - y / WORD * WORD;
    assert y == a * 0x100_0000 + low * 0x100;
    assert y % WORD == (a - y / WORD * 0x100) * 0x100_0000 + low * 0x100;
  }

  lemma DropTopByte(x: Word32, h: nat, low: nat)
    requires x % 0x100_0000 == h * 0x1_0000 + low && low < 0x1_0000 && h < 0x100
    ensures Shl(x, 8) % 0x100_0000 == low * 0x100
  {
    hide Pow2;
    SplitTop(x, h, low);
    ByteOut(x, x / 0x100_0000 * 0x100 + h, low);
    assert Pow2(8) == 0x100 by {
      Pow2Values();
    }
  }
}
