// Coefficient blocks and the zigzag order (jutils.c).
module Blocks {
  const DCTSIZE2 := 64

  type Coef = x: int | -0x8000 <= x < 0x8000
  type Block = seq<Coef>

  // The natural-order position of each zigzag position; the 16 positions past
  // the end catch runs that lead out of the block.
  function Natural(k: nat): (r: nat)
    requires k < DCTSIZE2 + 16
    ensures r < DCTSIZE2
  {
    match k
    case 0 => 0 case 1 => 1 case 2 => 8 case 3 => 16 case 4 => 9 case 5 => 2 case 6 => 3 case 7 => 10
    case 8 => 17 case 9 => 24 case 10 => 32 case 11 => 25 case 12 => 18 case 13 => 11 case 14 => 4 case 15 => 5
    case 16 => 12 case 17 => 19 case 18 => 26 case 19 => 33 case 20 => 40 case 21 => 48 case 22 => 41 case 23 => 34
    case 24 => 27 case 25 => 20 case 26 => 13 case 27 => 6 case 28 => 7 case 29 => 14 case 30 => 21 case 31 => 28
    case 32 => 35 case 33 => 42 case 34 => 49 case 35 => 56 case 36 => 57 case 37 => 50 case 38 => 43 case 39 => 36
    case 40 => 29 case 41 => 22 case 42 => 15 case 43 => 23 case 44 => 30 case 45 => 37 case 46 => 44 case 47 => 51
    case 48 => 58 case 49 => 59 case 50 => 52 case 51 => 45 case 52 => 38 case 53 => 31 case 54 => 39 case 55 => 46
    case 56 => 53 case 57 => 60 case 58 => 61 case 59 => 54 case 60 => 47 case 61 => 55 case 62 => 62 case 63 => 63
    case _ => 63
  }

  // The zigzag position of each natural-order position.
  function Zigzag(i: nat): (r: nat)
    requires i < DCTSIZE2
    ensures r < DCTSIZE2
  {
    match i
    case 0 => 0 case 1 => 1 case 2 => 5 case 3 => 6 case 4 => 14 case 5 => 15 case 6 => 27 case 7 => 28
    case 8 => 2 case 9 => 4 case 10 => 7 case 11 => 13 case 12 => 16 case 13 => 26 case 14 => 29 case 15 => 42
    case 16 => 3 case 17 => 8 case 18 => 12 case 19 => 17 case 20 => 25 case 21 => 30 case 22 => 41 case 23 => 43
    case 24 => 9 case 25 => 11 case 26 => 18 case 27 => 24 case 28 => 31 case 29 => 40 case 30 => 44 case 31 => 53
    case 32 => 10 case 33 => 19 case 34 => 23 case 35 => 32 case 36 => 39 case 37 => 45 case 38 => 52 case 39 => 54
    case 40 => 20 case 41 => 22 case 42 => 33 case 43 => 38 case 44 => 46 case 45 => 51 case 46 => 55 case 47 => 60
    case 48 => 21 case 49 => 34 case 50 => 37 case 51 => 47 case 52 => 50 case 53 => 56 case 54 => 59 case 55 => 61
    case 56 => 35 case 57 => 36 case 58 => 48 case 59 => 49 case 60 => 57 case 61 => 58 case 62 => 62 case _ => 63
  }

  // The two orders are inverse to each other.
  lemma ZigzagOfNatural(k: nat)
    requires k < DCTSIZE2
    ensures Zigzag(Natural(k)) == k
  {
  }

  // From position p of a block, a row of which has 8 positions, to position q:
  // along a diagonal, downwards where row plus column is odd and upwards where it
  // is even, or to a neighbour in the next diagonal.
  predicate NextInZigzag(p: nat, q: nat) {
    var r, c, r', c' := p / 8, p % 8, q / 8, q % 8;
    if r' + c' == r + c then r' == (if (r + c) % 2 == 1 then r + 1 else r - 1)
    else (r' == r + 1 && c' == c) || (r' == r && c' == c + 1)
  }

  lemma ZigzagFirst(k: nat)
    requires 0 <= k < 16
    ensures NextInZigzag(Natural(k), Natural(k + 1))
  {
  }

  lemma ZigzagSecond(k: nat)
    requires 16 <= k < 32
    ensures NextInZigzag(Natural(k), Natural(k + 1))
  {
  }

  lemma ZigzagThird(k: nat)
    requires 32 <= k < 48
    ensures NextInZigzag(Natural(k), Natural(k + 1))
  {
  }

  lemma ZigzagFourth(k: nat)
    requires 48 <= k < 63
    ensures NextInZigzag(Natural(k), Natural(k + 1))
  {
  }

  // The order of figure 5 of ITU-T T.81: it starts in the corner, meets every
  // position once, and goes diagonal by diagonal, in alternating directions.
  lemma ZigzagOrder()
    ensures Natural(0) == 0 && forall k: nat | k < DCTSIZE2 - 1 :: NextInZigzag(Natural(k), Natural(k + 1))
    ensures forall j: nat, k: nat | j < DCTSIZE2 && k < DCTSIZE2 && Natural(j) == Natural(k) :: j == k
  {
    hide Natural, Zigzag;
    assert Natural(0) == 0 by {
      CornerFirst();
    }
    forall k: nat | k < DCTSIZE2 - 1
      ensures NextInZigzag(Natural(k), Natural(k + 1))
    {
      if k < 16 {
        ZigzagFirst(k);
      } else if k < 32 {
        ZigzagSecond(k);
      } else if k < 48 {
        ZigzagThird(k);
      } else {
        ZigzagFourth(k);
      }
    }
    forall j: nat, k: nat | j < DCTSIZE2 && k < DCTSIZE2 && Natural(j) == Natural(k)
      ensures j == k
    {
      ZigzagOfNatural(j);
      ZigzagOfNatural(k);
    }
  }

  lemma CornerFirst()
    ensures Natural(0) == 0
  {
  }

  // A block's coefficients in zigzag order. The codecs below work on these.
  function Reorder(b: Block): (z: Block)
    requires |b| == DCTSIZE2
    ensures |z| == DCTSIZE2
    ensures forall k: nat | k < DCTSIZE2 :: z[k] == b[Natural(k)]
  {
    seq(DCTSIZE2, k requires 0 <= k < DCTSIZE2 => b[Natural(k)])
  }

  function Reordered(blocks: seq<Block>): (r: seq<Block>)
    requires forall i | 0 <= i < |blocks| :: |blocks[i]| == DCTSIZE2
    ensures |r| == |blocks| && forall i | 0 <= i < |blocks| :: r[i] == Reorder(blocks[i])
  {
    seq(|blocks|, i requires 0 <= i < |blocks| => Reorder(blocks[i]))
  }

  // z with v at position k; positions past the end fall on the last one.
  function Put(z: Block, k: nat, v: Coef): (r: Block)
    requires |z| == DCTSIZE2
    ensures |r| == DCTSIZE2
  {
    z[(if k < DCTSIZE2 then k else DCTSIZE2 - 1) := v]
  }

  // Writing through the natural-order table is writing at the zigzag position.
  lemma ReorderPut(b: Block, k: nat, v: Coef)
    requires |b| == DCTSIZE2 && k < DCTSIZE2 + 16
    ensures Reorder(b[Natural(k) := v]) == Put(Reorder(b), k, v)
  {
    var p := if k < DCTSIZE2 then k else DCTSIZE2 - 1;
    assert Natural(k) == Natural(p);
    ZigzagOfNatural(p);
    forall j: nat | j < DCTSIZE2
      ensures b[Natural(k) := v][Natural(j)] == Put(Reorder(b), k, v)[j]
    {
      ZigzagOfNatural(j);
    }
  }

  function ZeroBlock(): (b: Block)
    ensures |b| == DCTSIZE2 && forall i | 0 <= i < DCTSIZE2 :: b[i] == 0
  {
    seq(DCTSIZE2, _ => 0)
  }

  // (JCOEF) v
  function Cast(v: int): Coef {
    (v + 0x8000) % 0x1_0000 - 0x8000
  }
}
