// Numbered bits of natural numbers, and bitwise or and exclusive or.

module Bits {
  import opened Bytes

  function Pow2(n: nat): (r: nat)
    ensures r > 0
  {
    if n == 0 then 1 else 2 * Pow2(n - 1)
  }

  // x >> n
  function ShiftRight(x: nat, n: nat): nat {
    if n == 0 then x else ShiftRight(x / 2, n - 1)
  }

  // The n low bits of x.
  function Truncate(x: nat, n: nat): nat {
    if n == 0 then 0 else x % 2 + 2 * Truncate(x / 2, n - 1)
  }

  predicate BitAt(x: nat, n: nat) {
    if n == 0 then x % 2 == 1 else BitAt(x / 2, n - 1)
  }

  function Or(a: nat, b: nat): nat
    decreases a + b
  {
    if a == 0 && b == 0 then 0
    else (if a % 2 == 1 || b % 2 == 1 then 1 else 0) + 2 * Or(a / 2, b / 2)
  }

  function Xor(a: nat, b: nat): nat
    decreases a + b
  {
    if a == 0 && b == 0 then 0
    else (if a % 2 != b % 2 then 1 else 0) + 2 * Xor(a / 2, b / 2)
  }

  lemma {:induction false} ZeroBits(n: nat)
    ensures !BitAt(0, n)
  {
    if n > 0 {
      ZeroBits(n - 1);
    }
  }

  lemma Shifted(low: bool, rest: nat)
    ensures ((if low then 1 else 0) + 2 * rest) / 2 == rest
    ensures ((if low then 1 else 0) + 2 * rest) % 2 == if low then 1 else 0
  {
  }

  lemma {:induction false} OrBits(a: nat, b: nat, n: nat)
    ensures BitAt(Or(a, b), n) == (BitAt(a, n) || BitAt(b, n))
  {
    if a == 0 && b == 0 {
      ZeroBits(n);
    } else {
      Shifted(a % 2 == 1 || b % 2 == 1, Or(a / 2, b / 2));
      if n > 0 {
        OrBits(a / 2, b / 2, n - 1);
      }
    }
  }

  lemma {:induction false} XorBits(a: nat, b: nat, n: nat)
    ensures BitAt(Xor(a, b), n) == (BitAt(a, n) != BitAt(b, n))
  {
    if a == 0 && b == 0 {
      ZeroBits(n);
    } else {
      Shifted(a % 2 != b % 2, Xor(a / 2, b / 2));
      if n > 0 {
        XorBits(a / 2, b / 2, n - 1);
      }
    }
  }

  lemma {:induction false} OrBound(a: nat, b: nat, n: nat)
    requires a < Pow2(n) && b < Pow2(n)
    ensures Or(a, b) < Pow2(n)
  {
    if n > 0 && (a != 0 || b != 0) {
      OrBound(a / 2, b / 2, n - 1);
    }
  }

  lemma {:induction false} XorBound(a: nat, b: nat, n: nat)
    requires a < Pow2(n) && b < Pow2(n)
    ensures Xor(a, b) < Pow2(n)
  {
    if n > 0 && (a != 0 || b != 0) {
      XorBound(a / 2, b / 2, n - 1);
    }
  }

  // A number below 2^n has no bit from the n-th on.
  lemma {:induction false} SmallBits(x: nat, n: nat)
    requires x < Pow2(n)
    ensures !BitAt(x, n)
  {
    if n > 0 {
      SmallBits(x / 2, n - 1);
    }
  }

  // The k-th power of two has exactly the bit k.
  lemma {:induction false} PowerBits(k: nat, n: nat)
    ensures BitAt(Pow2(k), n) == (n == k)
  {
    if k == 0 {
      if n > 0 {
        ZeroBits(n - 1);
      }
    } else if n > 0 {
      assert Pow2(k) / 2 == Pow2(k - 1);
      PowerBits(k - 1, n - 1);
    }
  }

  lemma {:induction false} TruncateBits(x: nat, n: nat, m: nat)
    requires n < m
    ensures BitAt(Truncate(x, m), n) == BitAt(x, n)
  {
    assert Truncate(x, m) / 2 == Truncate(x / 2, m - 1);
    if n > 0 {
      TruncateBits(x / 2, n - 1, m - 1);
    }
  }

  lemma {:induction false} ShiftBits(x: nat, n: nat, m: nat)
    ensures BitAt(ShiftRight(x, m), n) == BitAt(x, n + m)
  {
    if m > 0 {
      ShiftBits(x / 2, n, m - 1);
    }
  }

  lemma {:induction false} ShiftTwice(x: nat, a: nat, b: nat)
    ensures ShiftRight(x, a + b) == ShiftRight(ShiftRight(x, a), b)
  {
    if a > 0 {
      ShiftTwice(x / 2, a - 1, b);
    }
  }

  lemma Twice(m: nat, n: nat)
    ensures (2 * m) * n == 2 * (m * n)
  {
  }

  lemma {:induction false} TruncateSplit(x: nat, a: nat, b: nat)
    ensures Truncate(x, a + b) == Truncate(x, a) + Pow2(a) * Truncate(ShiftRight(x, a), b)
  {
    if a > 0 {
      TruncateSplit(x / 2, a - 1, b);
      Twice(Pow2(a - 1), Truncate(ShiftRight(x, a), b));
      assert ShiftRight(x, a) == ShiftRight(x / 2, a - 1) && Pow2(a) == 2 * Pow2(a - 1);
      assert Truncate(x, a) == x % 2 + 2 * Truncate(x / 2, a - 1);
      hide Truncate, ShiftRight, Pow2;
    }
  }

  // Two, four and eight bits at a time, as quotients and remainders.
  lemma TwoBits(x: nat)
    ensures ShiftRight(x, 2) == x / 4 && Truncate(x, 2) == x % 4 && Pow2(2) == 4
  {
    assert ShiftRight(x, 1) == ShiftRight(x / 2, 0);
    assert ShiftRight(x / 2, 1) == ShiftRight(x / 2 / 2, 0);
    assert Truncate(x, 1) == x % 2 + 2 * Truncate(x / 2, 0);
    assert Truncate(x / 2, 1) == x / 2 % 2 + 2 * Truncate(x / 2 / 2, 0);
  }

  lemma FourBits(x: nat)
    ensures ShiftRight(x, 4) == x / 0x10 && Truncate(x, 4) == x % 0x10 && Pow2(4) == 0x10
  {
    TwoBits(x);
    TwoBits(x / 4);
    ShiftTwice(x, 2, 2);
    TruncateSplit(x, 2, 2);
    assert Pow2(4) == 2 * Pow2(3) && Pow2(3) == 2 * Pow2(2);
  }

  lemma SixBits(x: nat)
    ensures Truncate(x, 6) == x % 0x40
  {
    hide Truncate, ShiftRight, Pow2;
    FourBits(x);
    TwoBits(x / 0x10);
    TruncateSplit(x, 4, 2);
    var q := x / 0x40;
    assert x / 0x10 == 4 * q + x / 0x10 % 4;
  }

  lemma EightBits(x: nat)
    ensures ShiftRight(x, 8) == x / 0x100 && Truncate(x, 8) == x % 0x100
  {
    hide Truncate, ShiftRight, Pow2;
    FourBits(x);
    FourBits(x / 0x10);
    ShiftTwice(x, 4, 4);
    TruncateSplit(x, 4, 4);
    var q := x / 0x100;
    assert x / 0x10 == 0x10 * q + x / 0x10 % 0x10;
  }

  // The two bytes of a word hold its bits 0-7 and 8-15.
  lemma ByteBits(w: u16, n: nat)
    requires n < 8
    ensures BitAt(Low(w), n) == BitAt(w, n)
    ensures BitAt(High(w), n) == BitAt(w, n + 8)
  {
    EightBits(w);
    TruncateBits(w, n, 8);
    ShiftBits(w, n, 8);
    assert High(w) == w / 0x100;
  }

  // A byte in which one of the two bits of RXCR the driver changes is clear, and the byte with it set.
  lemma OneBit(x: nat, weight: nat)
    requires weight == 2 || weight == 8
    requires x < 0x100 && !Bit(x, weight)
    ensures x + weight < 0x100 && Bit(x + weight, weight)
    ensures Bit(x + weight, 10 - weight) == Bit(x, 10 - weight)
  {
    var q := x / 2;
    assert x / 8 == q / 4;
    if weight == 2 {
      assert (x + 2) / 2 == q + 1 && (x + 2) / 8 == (q + 1) / 4;
    } else {
      assert (x + 8) / 2 == q + 4 && (x + 8) / 8 == x / 8 + 1;
    }
  }

  lemma NoBit(x: nat, weight: nat)
    requires weight == 2 || weight == 8
    requires x < 0x100 && Bit(x, weight)
    ensures weight <= x && !Bit(x - weight, weight)
  {
    if weight == 2 {
      assert (x - 2) / 2 == x / 2 - 1;
    } else {
      assert (x - 8) / 8 == x / 8 - 1;
    }
  }

  // Setting and clearing one of them by or and and-not.
  function SetBit(x: byte, weight: nat): (y: byte)
    requires weight == 2 || weight == 8
    ensures Bit(y, weight)
    ensures Bit(y, 10 - weight) == Bit(x, 10 - weight)
  {
    hide Bit;
    if Bit(x, weight) then x else OneBit(x, weight); x + weight
  }

  function ClearBit(x: byte, weight: nat): (y: byte)
    requires weight == 2 || weight == 8
    ensures !Bit(y, weight)
    ensures Bit(y, 10 - weight) == Bit(x, 10 - weight)
  {
    hide Bit;
    if !Bit(x, weight) then x else NoBit(x, weight); OneBit(x - weight, weight); x - weight
  }
}
