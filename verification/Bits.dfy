/** Bitwise operators on unsigned integers, defined bit by bit. */
module Bits {
  import opened Arith

  datatype BitOp = AndOp | OrOp | XorOp

  function OnBit(op: BitOp, a: nat, b: nat): (r: nat)
    requires a < 2 && b < 2
    ensures r < 2
  {
    match op
    case AndOp => if a == 1 && b == 1 then 1 else 0
    case OrOp => if a == 1 || b == 1 then 1 else 0
    case XorOp => if a != b then 1 else 0
  }

  function Bitwise(op: BitOp, x: nat, y: nat): nat
    decreases x + y
  {
    if x == 0 && y == 0 then 0 else OnBit(op, x % 2, y % 2) + 2 * Bitwise(op, x / 2, y / 2)
  }

  function And(x: nat, y: nat): nat { Bitwise(AndOp, x, y) }

  function Or(x: nat, y: nat): nat { Bitwise(OrOp, x, y) }

  function Xor(x: nat, y: nat): nat { Bitwise(XorOp, x, y) }

  function Shl(x: nat, k: nat): nat { x * Pow2(k) }

  function Shr(x: nat, k: nat): nat {
    DivBound(x, Pow2(k));
    x / Pow2(k)
  }

  /** The complement within `n` bits. */
  function Not(n: nat, x: nat): nat
    requires x < Pow2(n)
  {
    Pow2(n) - 1 - x
  }

  lemma {:induction false} BitwiseBound(op: BitOp, n: nat, x: nat, y: nat)
    requires x < Pow2(n) && y < Pow2(n)
    ensures Bitwise(op, x, y) < Pow2(n)
  {
    if n > 0 && !(x == 0 && y == 0) {
      BitwiseBound(op, n - 1, x / 2, y / 2);
    }
  }

  lemma {:induction false} ZeroRight(x: nat)
    ensures Or(x, 0) == x && Xor(x, 0) == x && And(x, 0) == 0
    ensures Or(0, x) == x && Xor(0, x) == x && And(0, x) == 0
  {
    if x > 0 {
      ZeroRight(x / 2);
    }
  }

  /** Bits that do not overlap: or is sum. */
  lemma {:induction false} OrDisjoint(x: nat, k: nat, y: nat)
    requires y < Pow2(k)
    ensures Or(Shl(x, k), y) == Shl(x, k) + y
    decreases k
  {
    if k == 0 {
      ZeroRight(x);
    } else {
      var h := Shl(x, k - 1);
      assert Shl(x, k) == 2 * h;
      OrDisjoint(x, k - 1, y / 2);
    }
  }

  lemma OrIsSum(p: nat, k: nat, x: nat, y: nat)
    requires p == Pow2(k) && y < p
    ensures Or(p * x, y) == p * x + y
  {
    OrDisjoint(x, k, y);
  }

  /** Masking with k ones is the remainder by 2^k. */
  lemma {:induction false} AndMask(x: nat, k: nat)
    ensures And(x, Pow2(k) - 1) == x % Pow2(k)
    decreases k
  {
    hide Bitwise;
    if k == 0 {
      ZeroRight(x);
    } else {
      var p := Pow2(k - 1);
      AndMask(x / 2, k - 1);
      AndOddMask(x, p);
      DivModTwice(x, p);
    }
  }

  lemma AndOddMask(x: nat, p: nat)
    requires p > 0
    ensures And(x, 2 * p - 1) == 2 * And(x / 2, p - 1) + x % 2
  {
    hide Bitwise;
    assert (2 * p - 1) % 2 == 1 && (2 * p - 1) / 2 == p - 1;
    Unfold(AndOp, x, 2 * p - 1);
  }

  /** The three-operation form of the choice function selects as the four-operation form does. */
  lemma {:induction false} ChoiceForms(n: nat, x: nat, y: nat, z: nat)
    requires x < Pow2(n) && y < Pow2(n) && z < Pow2(n)
    ensures Xor(z, And(x, Xor(y, z))) == Xor(And(x, y), And(Not(n, x), z))
  {
    hide Bitwise;
    if n == 0 {
      ZeroRight(0);
    } else {
      ChoiceForms(n - 1, x / 2, y / 2, z / 2);
      assert Not(n, x) / 2 == Not(n - 1, x / 2) && Not(n, x) % 2 == 1 - x % 2;
      Unfold(XorOp, y, z);
      Unfold(AndOp, x, Xor(y, z));
      Unfold(XorOp, z, And(x, Xor(y, z)));
      Unfold(AndOp, x, y);
      Unfold(AndOp, Not(n, x), z);
      Unfold(XorOp, And(x, y), And(Not(n, x), z));
    }
  }

  /** The majority function with `or` in place of two of the exclusive ors. */
  lemma {:induction false} MajorityForms(x: nat, y: nat, z: nat)
    ensures Or(And(Or(x, y), z), And(x, y)) == Xor(Xor(And(x, y), And(x, z)), And(y, z))
    decreases x + y + z
  {
    if x + y + z > 0 {
      MajorityForms(x / 2, y / 2, z / 2);
      Unfold(OrOp, x, y);
      Unfold(AndOp, Or(x, y), z);
      Unfold(AndOp, x, y);
      Unfold(AndOp, x, z);
      Unfold(AndOp, y, z);
      Unfold(OrOp, And(Or(x, y), z), And(x, y));
      Unfold(XorOp, And(x, y), And(x, z));
      Unfold(XorOp, Xor(And(x, y), And(x, z)), And(y, z));
    }
  }

  lemma Unfold(op: BitOp, x: nat, y: nat)
    ensures Bitwise(op, x, y) % 2 == OnBit(op, x % 2, y % 2)
    ensures Bitwise(op, x, y) / 2 == Bitwise(op, x / 2, y / 2)
  {
  }

  // ----- single bits

  function Bit(x: nat, i: nat): (b: nat)
    ensures b < 2
  {
    Shr(x, i) % 2
  }

  lemma BitStep(x: nat, i: nat)
    ensures Bit(x, 0) == x % 2 && Bit(x, i + 1) == Bit(x / 2, i)
  {
    DivDiv(x, 2, Pow2(i));
  }

  /** The operators work on each bit by itself. */
  lemma {:induction false} BitOfBitwise(op: BitOp, x: nat, y: nat, i: nat)
    ensures Bit(Bitwise(op, x, y), i) == OnBit(op, Bit(x, i), Bit(y, i))
    decreases i
  {
    hide Bit, Bitwise;
    Unfold(op, x, y);
    if i == 0 {
      BitStep(x, 0);
      BitStep(y, 0);
      BitStep(Bitwise(op, x, y), 0);
    } else {
      BitStep(x, i - 1);
      BitStep(y, i - 1);
      BitStep(Bitwise(op, x, y), i - 1);
      BitOfBitwise(op, x / 2, y / 2, i - 1);
    }
  }

  /** The carries and the sum without carries make up the sum. */
  lemma {:induction false} SumOfBits(x: nat, y: nat)
    ensures Xor(x, y) + 2 * And(x, y) == x + y && Or(x, y) == Xor(x, y) + And(x, y)
    decreases x + y
  {
    if x + y > 0 {
      SumOfBits(x / 2, y / 2);
      Unfold(XorOp, x, y);
      Unfold(AndOp, x, y);
      Unfold(OrOp, x, y);
    }
  }

  lemma {:induction false} Pow2Sum(i: nat, j: nat)
    ensures Pow2(i + j) == Pow2(i) * Pow2(j)
    decreases i
  {
    if i > 0 {
      Pow2Sum(i - 1, j);
      assert 2 * (Pow2(i - 1) * Pow2(j)) == (2 * Pow2(i - 1)) * Pow2(j);
    }
  }

  lemma {:induction false} BitOfNot(w: nat, x: nat, i: nat)
    requires x < Pow2(w) && i < w
    ensures Bit(Not(w, x), i) == 1 - Bit(x, i)
    decreases i
  {
    hide Bit;
    var y := Not(w, x);
    assert y % 2 == 1 - x % 2 && y / 2 == Not(w - 1, x / 2);
    if i == 0 {
      BitStep(x, 0);
      BitStep(y, 0);
    } else {
      BitStep(x, i - 1);
      BitStep(y, i - 1);
      BitOfNot(w - 1, x / 2, i - 1);
    }
  }

  /** Shifting right moves bits down. */
  lemma BitOfShr(x: nat, n: nat, i: nat)
    ensures Bit(Shr(x, n), i) == Bit(x, i + n)
  {
    DivDiv(x, Pow2(n), Pow2(i));
    Pow2Sum(n, i);
  }

  /** Shifting left within `w` bits moves bits up, and zeros in. */
  lemma {:induction false} BitOfShl(x: nat, n: nat, w: nat, i: nat)
    requires n <= w && i < w
    ensures Bit(Shl(x, n) % Pow2(w), i) == if i < n then 0 else Bit(x, i - n)
    decreases n, i
  {
    BitOfModulus(Shl(x, n), w, i);
    BitOfShlWide(x, n, i);
  }

  lemma {:induction false} BitOfModulus(x: nat, w: nat, i: nat)
    requires i < w
    ensures Bit(x % Pow2(w), i) == Bit(x, i)
    decreases i
  {
    hide Bit;
    var p := Pow2(w - 1);
    DivModTwice(x, p);
    var y := x % Pow2(w);
    assert y == 2 * (x / 2 % p) + x % 2 && y / 2 == x / 2 % p && y % 2 == x % 2;
    if i == 0 {
      BitStep(x, 0);
      BitStep(y, 0);
    } else {
      BitStep(x, i - 1);
      BitStep(y, i - 1);
      BitOfModulus(x / 2, w - 1, i - 1);
    }
  }

  lemma {:induction false} BitOfShlWide(x: nat, n: nat, i: nat)
    ensures Bit(Shl(x, n), i) == if i < n then 0 else Bit(x, i - n)
    decreases n
  {
    hide Bit;
    if n == 0 {
      assert Shl(x, 0) == x;
    } else {
      var y := Shl(x, n - 1);
      assert Shl(x, n) == 2 * y;
      if i == 0 {
        BitStep(2 * y, 0);
      } else {
        BitStep(2 * y, i - 1);
        BitOfShlWide(x, n - 1, i - 1);
      }
    }
  }
}
