/** Bit-level arithmetic on natural numbers: the shifts, masks and exclusive-ors
    that the cuckoo filter uses to find buckets and to size its tables. */
module Bits {

  const TWO32: nat := 0x1_0000_0000
  const TWO64: nat := 0x1_0000_0000_0000_0000

  /** Some object invariants are stated as (forall u :: Unfold(u) ==> ...), so that their
      contents are considered only where Unfold(0) is mentioned. */
  ghost predicate UnfoldAt<T>(x: T, u: int) {
    true
  }

  ghost predicate Unfold(u: int) {
    true
  }

  function Pow2(k: nat): (r: nat)
    ensures r >= 1
  {
    if k == 0 then 1 else 2 * Pow2(k - 1)
  }

  /** Bit i of x, bit 0 being the least significant. */
  predicate Bit(x: nat, i: nat)
    decreases i
  {
    if i == 0 then x % 2 == 1 else Bit(x / 2, i - 1)
  }

  function And(a: nat, b: nat): nat {
    if a == 0 || b == 0 then 0
    else (if a % 2 == 1 && b % 2 == 1 then 1 else 0) + 2 * And(a / 2, b / 2)
  }

  function Or(a: nat, b: nat): nat
    decreases a + b
  {
    if a == 0 && b == 0 then 0
    else (if a % 2 == 1 || b % 2 == 1 then 1 else 0) + 2 * Or(a / 2, b / 2)
  }

  function Xor(a: nat, b: nat): nat
    decreases a + b
  {
    if a == 0 && b == 0 then 0
    else (if a % 2 != b % 2 then 1 else 0) + 2 * Xor(a / 2, b / 2)
  }

  function ShiftRight(x: nat, k: nat): nat {
    if k == 0 then x else ShiftRight(x / 2, k - 1)
  }

  ghost predicate IsPow2(n: nat) {
    exists k: nat :: Pow2(k) == n
  }

  /** The k low bits of x. */
  function LowBits(x: nat, k: nat): nat
    decreases k
  {
    if k == 0 then 0 else x % 2 + 2 * LowBits(x / 2, k - 1)
  }

  lemma {:induction false} LowBitsBound(x: nat, k: nat)
    ensures LowBits(x, k) < Pow2(k)
    ensures x < Pow2(k) ==> LowBits(x, k) == x
    decreases k
  {
    if k > 0 { LowBitsBound(x / 2, k - 1); }
  }

  /** Masking with one less than a power of two keeps the low bits. */
  lemma {:induction false} AndMask(a: nat, k: nat)
    ensures And(a, Pow2(k) - 1) == LowBits(a, k)
    decreases k
  {
    if k > 0 {
      AndMask(a / 2, k - 1);
      var b := Pow2(k) - 1;
      assert b % 2 == 1 && b / 2 == Pow2(k - 1) - 1;
      if a == 0 {
        LowBitsBound(0, k);
      }
    }
  }

  lemma XorStep(a: nat, b: nat)
    ensures Xor(a, b) % 2 == (if a % 2 != b % 2 then 1 else 0)
    ensures Xor(a, b) / 2 == Xor(a / 2, b / 2)
  {
  }

  lemma {:induction false} XorBound(a: nat, b: nat, k: nat)
    requires a < Pow2(k) && b < Pow2(k)
    ensures Xor(a, b) < Pow2(k)
    decreases k
  {
    XorStep(a, b);
    if k > 0 { XorBound(a / 2, b / 2, k - 1); }
  }

  /** Exclusive-or of two 32-bit words is a 32-bit word. */
  lemma XorOfWords(a: nat, b: nat)
    requires a < TWO32 && b < TWO32
    ensures Xor(a, b) < TWO32
  {
    Pow2At64();
    var k := 32;
    XorBound(a, b, k);
  }

  /** Only the low k bits of the operands reach the low k bits of an exclusive-or,
      and applying the same word twice gives the operand back. */
  lemma {:induction false} XorTwice(a: nat, c: nat, k: nat)
    ensures LowBits(Xor(LowBits(Xor(a, c), k), c), k) == LowBits(a, k)
    decreases k
  {
    if k > 0 {
      var y := LowBits(Xor(a, c), k);
      XorStep(a, c);
      XorStep(y, c);
      assert y / 2 == LowBits(Xor(a / 2, c / 2), k - 1);
      XorTwice(a / 2, c / 2, k - 1);
    }
  }

  // ----- smearing the highest bit downwards

  lemma OrStep(a: nat, b: nat)
    ensures Or(a, b) % 2 == (if a % 2 == 1 || b % 2 == 1 then 1 else 0)
    ensures Or(a, b) / 2 == Or(a / 2, b / 2)
  {
  }

  lemma {:induction false} BitOr(a: nat, b: nat, i: nat)
    ensures Bit(Or(a, b), i) == (Bit(a, i) || Bit(b, i))
    decreases i
  {
    OrStep(a, b);
    if i > 0 {
      BitOr(a / 2, b / 2, i - 1);
      var c := Or(a, b);
      assert Bit(c, i) == Bit(c / 2, i - 1);
    }
  }

  lemma {:induction false} BitShift(x: nat, k: nat, i: nat)
    ensures Bit(ShiftRight(x, k), i) == Bit(x, i + k)
    decreases k
  {
    if k > 0 {
      BitShift(x / 2, k - 1, i);
    }
  }

  lemma {:induction false} BitBound(x: nat, n: nat, i: nat)
    requires x < Pow2(n) && i >= n
    ensures !Bit(x, i)
    decreases i
  {
    if i > 0 {
      BitBound(x / 2, if n == 0 then 0 else n - 1, i - 1);
    }
  }

  /** A number whose bits are exactly the low n ones. */
  lemma {:induction false} AllOnes(x: nat, n: nat)
    requires forall i :: 0 <= i < n ==> Bit(x, i)
    requires forall i :: i >= n ==> !Bit(x, i)
    ensures x == Pow2(n) - 1
    decreases x + n
  {
    if x > 0 || n > 0 {
      assert n > 0 by { if n == 0 { SomeBit(x); } }
      assert Bit(x, 0);
      forall i | 0 <= i < n - 1 ensures Bit(x / 2, i) { assert Bit(x, i + 1); }
      forall i | i >= n - 1 ensures !Bit(x / 2, i) { assert !Bit(x, i + 1); }
      AllOnes(x / 2, n - 1);
    }
  }

  lemma {:induction false} SomeBit(x: nat)
    requires x > 0
    ensures exists i: nat :: Bit(x, i)
    decreases x
  {
    if x % 2 == 1 {
      assert Bit(x, 0);
    } else {
      SomeBit(x / 2);
      var i: nat :| Bit(x / 2, i);
      assert Bit(x, i + 1);
    }
  }

  /** Position of the highest set bit. */
  lemma {:induction false} HighBit(x: nat) returns (t: nat)
    requires x > 0
    ensures Pow2(t) <= x < Pow2(t + 1) && Bit(x, t)
    decreases x
  {
    if x == 1 {
      t := 0;
      assert Bit(x, 0);
    } else {
      var u := HighBit(x / 2);
      t := u + 1;
    }
  }

  /** x has its top s bits (of positions 0..t) set and nothing above. */
  ghost predicate TopOnes(x: nat, t: nat, s: nat) {
    && (forall i: nat :: t < i + s && i <= t ==> Bit(x, i))
    && (forall i: nat :: i > t ==> !Bit(x, i))
  }

  lemma SmearStep(x: nat, t: nat, s: nat)
    requires TopOnes(x, t, s)
    ensures TopOnes(Or(x, ShiftRight(x, s)), t, 2 * s)
  {
    var y := ShiftRight(x, s);
    var z := Or(x, y);
    forall i: nat | t < i + 2 * s && i <= t ensures Bit(z, i) {
      BitOr(x, y, i);
      BitShift(x, s, i);
    }
    forall i: nat | i > t ensures !Bit(z, i) {
      BitOr(x, y, i);
      BitShift(x, s, i);
    }
  }

  lemma {:induction false} Pow2Monotonic(a: nat, b: nat)
    requires a <= b
    ensures Pow2(a) <= Pow2(b)
    ensures a < b ==> 2 * Pow2(a) <= Pow2(b)
  {
    if a < b {
      Pow2Monotonic(a, b - 1);
    }
  }

  lemma Pow2At64()
    ensures Pow2(32) == TWO32 && Pow2(63) == TWO64 / 2 && Pow2(64) == TWO64
  {
    assert Pow2(8) == 256;
    assert Pow2(16) == 0x1_0000;
    assert Pow2(24) == 0x100_0000;
    assert Pow2(32) == TWO32;
    assert Pow2(40) == 0x100_0000_0000;
    assert Pow2(48) == 0x1_0000_0000_0000;
    assert Pow2(56) == 0x100_0000_0000_0000;
    assert Pow2(63) == 0x8000_0000_0000_0000;
  }

  /** n is the least power of two that is at least x. */
  ghost predicate LeastPow2(n: nat, x: nat) {
    && IsPow2(n) && n >= x
    && (forall k: nat :: Pow2(k) >= x ==> n <= Pow2(k))
  }

  lemma LeastPow2Is(t: nat, x: nat)
    requires x > 0
    requires t == 0 ==> x == 1
    requires t > 0 ==> Pow2(t - 1) < x <= Pow2(t)
    ensures LeastPow2(Pow2(t), x)
  {
    forall k: nat | Pow2(k) >= x ensures Pow2(t) <= Pow2(k) {
      if k < t { Pow2Monotonic(k, t - 1); } else { Pow2Monotonic(t, k); }
    }
  }

  lemma LeastPow2Small(n: nat, x: nat)
    requires LeastPow2(n, x) && x <= 0x4000_0000
    ensures n <= 0x4000_0000
  {
    Pow2At64();
    assert Pow2(30) == 0x4000_0000;
  }

  lemma Pow2Double(n: nat)
    requires IsPow2(n)
    ensures IsPow2(2 * n)
  {
    var k: nat :| Pow2(k) == n;
    assert Pow2(k + 1) == 2 * n;
  }

  lemma LeastPow2Half(n: nat, x: nat)
    requires LeastPow2(n, x) && n > 1
    ensures n % 2 == 0 && n / 2 < x
  {
    var k: nat :| Pow2(k) == n;
    assert k > 0 && n == 2 * Pow2(k - 1);
    assert Pow2(k - 1) < x;
  }

  ghost function Smear(x: nat): nat {
    var x := Or(x, ShiftRight(x, 1));
    var x := Or(x, ShiftRight(x, 2));
    var x := Or(x, ShiftRight(x, 4));
    var x := Or(x, ShiftRight(x, 8));
    var x := Or(x, ShiftRight(x, 16));
    Or(x, ShiftRight(x, 32))
  }

  lemma SmearOnes(x: nat, t: nat)
    requires t < 64 && Pow2(t) <= x < Pow2(t + 1) && Bit(x, t)
    ensures Smear(x) == Pow2(t + 1) - 1
  {
    forall i: nat | i > t ensures !Bit(x, i) { BitBound(x, t + 1, i); }
    var y := x;
    SmearStep(y, t, 1);
    y := Or(y, ShiftRight(y, 1));
    SmearStep(y, t, 2);
    y := Or(y, ShiftRight(y, 2));
    SmearStep(y, t, 4);
    y := Or(y, ShiftRight(y, 4));
    SmearStep(y, t, 8);
    y := Or(y, ShiftRight(y, 8));
    SmearStep(y, t, 16);
    y := Or(y, ShiftRight(y, 16));
    SmearStep(y, t, 32);
    AllOnes(Or(y, ShiftRight(y, 32)), t + 1);
  }

  /** One rounding of a 64-bit word up to a power of two.  The result wraps to 0
      exactly for 0 and for words above 2^63. */
  method UpperPower2(x0: nat) returns (r: nat)
    requires x0 < TWO64
    ensures 1 <= x0 <= TWO64 / 2 ==> LeastPow2(r, x0)
    ensures x0 == 0 || x0 > TWO64 / 2 ==> r == 0
  {
    var x := (x0 + TWO64 - 1) % TWO64;
    x := Or(x, ShiftRight(x, 1));
    x := Or(x, ShiftRight(x, 2));
    x := Or(x, ShiftRight(x, 4));
    x := Or(x, ShiftRight(x, 8));
    x := Or(x, ShiftRight(x, 16));
    x := Or(x, ShiftRight(x, 32));
    Rounded(x0);
    r := (x + 1) % TWO64;
  }

  lemma Rounded(x0: nat)
    requires x0 < TWO64
    ensures var r := (Smear((x0 + TWO64 - 1) % TWO64) + 1) % TWO64;
      && (1 <= x0 <= TWO64 / 2 ==> LeastPow2(r, x0))
      && (x0 == 0 || x0 > TWO64 / 2 ==> r == 0)
  {
    var y := (x0 + TWO64 - 1) % TWO64;
    var z := Smear(y);
    if y > 0 {
      var t := SmearHigh(y);
      RoundedUp(x0, y, t, z);
    } else {
      SmearZero();
      RoundedOne(x0, z);
    }
  }

  lemma RoundedUp(x0: nat, y: nat, t: nat, z: nat)
    requires x0 < TWO64 && y == (x0 + TWO64 - 1) % TWO64 && y > 0
    requires t < 64 && Pow2(t) <= y < Pow2(t + 1) && z == Pow2(t + 1) - 1
    ensures 1 <= x0 <= TWO64 / 2 ==> LeastPow2((z + 1) % TWO64, x0)
    ensures x0 == 0 || x0 > TWO64 / 2 ==> (z + 1) % TWO64 == 0
  {
    FinishUpper(x0, y, t);
  }

  lemma RoundedOne(x0: nat, z: nat)
    requires x0 < TWO64 && 0 == (x0 + TWO64 - 1) % TWO64 && z == 0
    ensures 1 <= x0 <= TWO64 / 2 ==> LeastPow2((z + 1) % TWO64, x0)
    ensures x0 == 0 || x0 > TWO64 / 2 ==> (z + 1) % TWO64 == 0
  {
    LeastPow2Is(0, 1);
    assert (z + 1) % TWO64 == Pow2(0);
  }

  lemma SmearHigh(y: nat) returns (t: nat)
    requires 0 < y < TWO64
    ensures t < 64 && Pow2(t) <= y < Pow2(t + 1) && Smear(y) == Pow2(t + 1) - 1
  {
    t := HighBit(y);
    Pow2At64();
    if t >= 64 { Pow2Monotonic(64, t); }
    SmearOnes(y, t);
  }

  lemma SmearZero()
    ensures Smear(0) == 0
  {
    forall k: nat ensures ShiftRight(0, k) == 0 { ShiftOfZero(k); }
  }

  lemma {:induction false} ShiftOfZero(k: nat)
    ensures ShiftRight(0, k) == 0
  {
    if k > 0 { ShiftOfZero(k - 1); }
  }

  lemma FinishUpper(x0: nat, y: nat, t: nat)
    requires x0 < TWO64 && y == (x0 + TWO64 - 1) % TWO64 && y > 0
    requires t < 64 && Pow2(t) <= y < Pow2(t + 1)
    ensures 1 <= x0 <= TWO64 / 2 ==> LeastPow2(Pow2(t + 1), x0) && Pow2(t + 1) < TWO64
    ensures x0 == 0 || x0 > TWO64 / 2 ==> Pow2(t + 1) == TWO64
  {
    var top := 63;
    Pow2Top(top);
    if 1 <= x0 <= TWO64 / 2 {
      assert y == x0 - 1 && t < top;
      Pow2Monotonic(t + 1, top);
      LeastPow2Is(t + 1, x0);
    } else {
      assert y >= TWO64 / 2;
      if t < top { Pow2Monotonic(t + 1, top); }
    }
  }

  lemma Pow2Top(k: nat)
    requires k == 63
    ensures Pow2(k) == TWO64 / 2 && Pow2(k + 1) == TWO64
  {
    Pow2At64();
  }
}
