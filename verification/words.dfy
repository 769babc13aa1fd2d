// Unsigned 64-bit words as natural numbers below 2^64, with bitwise
// exclusive-or defined one binary digit at a time, and the algebraic laws of
// exclusive-or that the position key relies on.

module Words {

  function Pow2(k: nat): (r: nat)
    ensures r >= 1
  {
    if k == 0 then 1 else 2 * Pow2(k - 1)
  }

  const Modulus: nat := 0x1_0000_0000_0000_0000

  /** An unsigned 64-bit word. */
  type U64 = x: nat | x < Modulus

  /** Bitwise exclusive-or: the lowest binary digits are combined, the rest recursively. */
  function Xor(a: nat, b: nat): nat
    decreases a + b
  {
    if a == 0 then b
    else if b == 0 then a
    else 2 * Xor(a / 2, b / 2) + (if a % 2 == b % 2 then 0 else 1)
  }

  /** Exclusive-or of two words is a word. */
  function Xor64(a: U64, b: U64): U64 {
    Pow2Is64();
    XorBelow(a, b, 64);
    Xor(a, b)
  }

  lemma {:induction false} Pow2Adds(a: nat, b: nat)
    ensures Pow2(a + b) == Pow2(a) * Pow2(b)
    decreases a
  {
    if a > 0 {
      Pow2Adds(a - 1, b);
    }
  }

  lemma Pow2Is8()
    ensures Pow2(8) == 0x100
  {
  }

  lemma Pow2Is64()
    ensures Pow2(64) == Modulus
  {
    Pow2Is8();
    Pow2Adds(8, 8);
    assert Pow2(16) == 0x1_0000;
    Pow2Adds(16, 16);
    assert Pow2(32) == 0x1_0000_0000;
    Pow2Adds(32, 32);
  }

  /** A number is fixed by its lowest binary digit and the rest. */
  lemma DigitsDetermine(x: nat, y: nat)
    requires x / 2 == y / 2 && x % 2 == y % 2
    ensures x == y
  {
  }

  /** Exclusive-or acts digit-wise: the lowest digit is the parity of the two
      lowest digits, and the rest is the exclusive-or of the rests. */
  lemma XorDigits(a: nat, b: nat)
    ensures Xor(a, b) / 2 == Xor(a / 2, b / 2)
    ensures Xor(a, b) % 2 == if a % 2 == b % 2 then 0 else 1
  {
  }

  /** Exclusive-or keeps numbers of k binary digits within k digits. */
  lemma {:induction false} XorBelow(a: nat, b: nat, k: nat)
    requires a < Pow2(k) && b < Pow2(k)
    ensures Xor(a, b) < Pow2(k)
    decreases k
  {
    if k > 0 && a != 0 && b != 0 {
      XorBelow(a / 2, b / 2, k - 1);
    }
  }

  lemma XorZero(a: nat)
    ensures Xor(a, 0) == a && Xor(0, a) == a
  {
  }

  /** Every word is its own inverse. */
  lemma {:induction false} XorSelf(a: nat)
    ensures Xor(a, a) == 0
    decreases a
  {
    if a != 0 {
      XorSelf(a / 2);
    }
  }

  lemma {:induction false} XorCommutes(a: nat, b: nat)
    ensures Xor(a, b) == Xor(b, a)
    decreases a + b
  {
    if a != 0 && b != 0 {
      XorCommutes(a / 2, b / 2);
    }
  }

  lemma {:induction false} XorAssociates(a: nat, b: nat, c: nat)
    ensures Xor(Xor(a, b), c) == Xor(a, Xor(b, c))
    decreases a + b + c
  {
    if a + b + c != 0 {
      XorAssociates(a / 2, b / 2, c / 2);
      XorDigits(a, b);
      XorDigits(Xor(a, b), c);
      XorDigits(b, c);
      XorDigits(a, Xor(b, c));
      DigitsDetermine(Xor(Xor(a, b), c), Xor(a, Xor(b, c)));
    }
  }

  /** Two words that combine to 0 are equal. */
  lemma XorZeroMeansEqual(x: nat, y: nat)
    requires Xor(x, y) == 0
    ensures x == y
  {
    calc {
      x;
      { XorZero(x); XorSelf(y); }
      Xor(x, Xor(y, y));
      { XorAssociates(x, y, y); }
      Xor(Xor(x, y), y);
      { XorZero(y); }
      y;
    }
  }

  /** Operands of nested exclusive-ors can be regrouped crosswise:
      (a ^ b) ^ (c ^ d) == (a ^ c) ^ (b ^ d). */
  lemma XorInterchange(a: nat, b: nat, c: nat, d: nat)
    ensures Xor(Xor(a, b), Xor(c, d)) == Xor(Xor(a, c), Xor(b, d))
  {
    calc {
      Xor(Xor(a, b), Xor(c, d));
      { XorAssociates(a, b, Xor(c, d)); }
      Xor(a, Xor(b, Xor(c, d)));
      { XorAssociates(b, c, d); }
      Xor(a, Xor(Xor(b, c), d));
      { XorCommutes(b, c); }
      Xor(a, Xor(Xor(c, b), d));
      { XorAssociates(c, b, d); }
      Xor(a, Xor(c, Xor(b, d)));
      { XorAssociates(a, c, Xor(b, d)); }
      Xor(Xor(a, c), Xor(b, d));
    }
  }

  /** A common right operand cancels: (x ^ t) ^ (y ^ t) == x ^ y. */
  lemma CancelRight(x: nat, y: nat, t: nat)
    ensures Xor(Xor(x, t), Xor(y, t)) == Xor(x, y)
  {
    calc {
      Xor(Xor(x, t), Xor(y, t));
      { XorAssociates(x, t, Xor(y, t)); }
      Xor(x, Xor(t, Xor(y, t)));
      { XorCommutes(y, t); XorAssociates(t, t, y); }
      Xor(x, Xor(Xor(t, t), y));
      { XorSelf(t); XorZero(y); }
      Xor(x, y);
    }
  }

  /** A common left operand cancels: (t ^ x) ^ (t ^ y) == x ^ y. */
  lemma CancelLeft(x: nat, y: nat, t: nat)
    ensures Xor(Xor(t, x), Xor(t, y)) == Xor(x, y)
  {
    XorCommutes(t, x);
    XorCommutes(t, y);
    CancelRight(x, y, t);
  }
}
