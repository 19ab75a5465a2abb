/** Bitwise operators on natural numbers, each given by the bits of its result. */
module Bits {

  function Pow2(k: nat): (p: nat)
    ensures p > 0
  {
    if k == 0 then 1 else 2 * Pow2(k - 1)
  }

  predicate Bit(x: nat, b: nat)
    decreases b, x
  {
    if b == 0 then x % 2 == 1 else Bit(x / 2, b - 1)
  }

  function And(x: nat, y: nat): (r: nat) {
    if x == 0 || y == 0 then 0
    else (if x % 2 == 1 && y % 2 == 1 then 1 else 0) + 2 * And(x / 2, y / 2)
  }

  function Or(x: nat, y: nat): (r: nat)
    decreases x + y
  {
    if x == 0 then y
    else if y == 0 then x
    else (if x % 2 == 1 || y % 2 == 1 then 1 else 0) + 2 * Or(x / 2, y / 2)
  }

  /** Left shift, before the result is cut to its width. */
  function Shl(x: nat, k: nat): (r: nat)
    decreases k, x
  {
    if k == 0 then x else 2 * Shl(x, k - 1)
  }

  function Shr(x: nat, k: nat): (r: nat)
    decreases k, x
  {
    if k == 0 then x else Shr(x / 2, k - 1)
  }

  /** `x` cut to its lowest `k` bits, as a cast to a narrower type does. */
  function Low(x: nat, k: nat): (r: nat)
    ensures r < Pow2(k)
    decreases k, x
  {
    if k == 0 then 0 else x % 2 + 2 * Low(x / 2, k - 1)
  }

  /** The complement of `x` in a word of `width` bits. */
  function Not(x: nat, width: nat): (r: nat) {
    Pow2(width) - 1 - Low(x, width)
  }

  // ----- the bits of each result

  lemma {:induction false} ZeroBit(b: nat)
    ensures !Bit(0, b)
  {
    if b > 0 {
      ZeroBit(b - 1);
    }
  }

  lemma {:induction false} AndBit(x: nat, y: nat, b: nat)
    ensures Bit(And(x, y), b) <==> Bit(x, b) && Bit(y, b)
    decreases b, x
  {
    AndHalves(x, y);
    if b > 0 {
      AndBit(x / 2, y / 2, b - 1);
    }
  }

  lemma AndHalves(x: nat, y: nat)
    ensures And(x, y) / 2 == And(x / 2, y / 2)
    ensures And(x, y) % 2 == 1 <==> x % 2 == 1 && y % 2 == 1
  {}

  lemma OrHalves(x: nat, y: nat)
    ensures Or(x, y) / 2 == Or(x / 2, y / 2)
    ensures Or(x, y) % 2 == 1 <==> x % 2 == 1 || y % 2 == 1
  {}

  lemma {:induction false} OrBit(x: nat, y: nat, b: nat)
    ensures Bit(Or(x, y), b) <==> Bit(x, b) || Bit(y, b)
    decreases b, x
  {
    OrHalves(x, y);
    if b > 0 {
      OrBit(x / 2, y / 2, b - 1);
    }
  }

  lemma {:induction false} ShlBit(x: nat, k: nat, b: nat)
    ensures Bit(Shl(x, k), b) <==> k <= b && Bit(x, b - k)
    decreases k, x
  {
    if k > 0 && b > 0 {
      ShlBit(x, k - 1, b - 1);
    }
  }

  lemma {:induction false} ShrBit(x: nat, k: nat, b: nat)
    ensures Bit(Shr(x, k), b) <==> Bit(x, b + k)
    decreases k, x
  {
    if k > 0 {
      ShrBit(x / 2, k - 1, b);
    }
  }

  lemma {:induction false} LowBit(x: nat, k: nat, b: nat)
    ensures Bit(Low(x, k), b) <==> b < k && Bit(x, b)
    decreases k, x
  {
    if k == 0 {
      ZeroBit(b);
    } else if b > 0 {
      LowBit(x / 2, k - 1, b - 1);
    }
  }

  lemma {:induction false} NotBit(x: nat, width: nat, b: nat)
    ensures Bit(Not(x, width), b) <==> b < width && !Bit(x, b)
    decreases width, x
  {
    if width == 0 {
      ZeroBit(b);
    } else if b > 0 {
      NotBit(x / 2, width - 1, b - 1);
    }
  }

  /** Words with the same bits are the same word. */
  lemma {:induction false} SameBits(x: nat, y: nat)
    requires forall b: nat :: Bit(x, b) <==> Bit(y, b)
    ensures x == y
  {
    if x != y {
      assert x % 2 == y % 2 by {
        assert Bit(x, 0) <==> Bit(y, 0);
      }
      forall b: nat ensures Bit(x / 2, b) <==> Bit(y / 2, b) {
        assert Bit(x, b + 1) <==> Bit(y, b + 1);
      }
      SameBits(x / 2, y / 2);
    }
  }

  // ----- the bits of numbers

  lemma {:induction false} LowOfSmall(x: nat, k: nat)
    requires x < Pow2(k)
    ensures Low(x, k) == x
  {
    if k > 0 {
      LowOfSmall(x / 2, k - 1);
    }
  }

  /** The bits set in a mask of the lowest `k` bits. */
  lemma MaskBit(k: nat, b: nat)
    ensures Bit(Pow2(k) - 1, b) <==> b < k
  {
    NotBit(0, k, b);
    ZeroBit(b);
    LowOfSmall(0, k);
  }

  lemma {:induction false} ShlTimes(x: nat, k: nat)
    ensures Shl(x, k) == x * Pow2(k)
  {
    if k > 0 {
      ShlTimes(x, k - 1);
      assert x * (2 * Pow2(k - 1)) == 2 * (x * Pow2(k - 1));
    }
  }

  /** A word is its low bits and, shifted up, its other bits. */
  lemma {:induction false} Split(x: nat, k: nat)
    ensures x == Low(x, k) + Shl(Shr(x, k), k)
  {
    if k > 0 {
      Split(x / 2, k - 1);
    }
  }
}
