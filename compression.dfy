/** The 32-bit compression function `comp` and the initialisation vector of
    the toy Merkle-Damgard hashes. Python's `^` and `&` act on the binary
    digits of unbounded integers; they are defined here digit by digit and
    specified by `Bit`. */
module Compression {

  function Pow2(n: nat): (r: nat)
    ensures r > 0
  {
    if n == 0 then 1 else 2 * Pow2(n - 1)
  }

  lemma {:induction false} Pow2Sum(a: nat, b: nat)
    ensures Pow2(a + b) == Pow2(a) * Pow2(b)
    decreases b
  {
    if b > 0 {
      Pow2Sum(a, b - 1);
      assert Pow2(a + b) == 2 * Pow2(a + b - 1);
    }
  }

  lemma Pow2ThirtyTwo()
    ensures Pow2(8) == 0x100
    ensures Pow2(32) == 0x1_0000_0000
  {
    Pow2Sum(1, 1);
    Pow2Sum(2, 2);
    Pow2Sum(4, 4);
    Pow2Sum(8, 8);
    Pow2Sum(16, 16);
  }

  /** Binary digit `k` of `x` (digit 0 is the least significant). */
  predicate Bit(x: nat, k: nat)
  {
    if k == 0 then x % 2 == 1 else Bit(x / 2, k - 1)
  }

  /** Numbers with the same binary digits are equal. */
  lemma {:induction false} SameBitsSameNumber(x: nat, y: nat)
    requires forall k: nat :: Bit(x, k) == Bit(y, k)
    ensures x == y
    decreases x + y
  {
    if x != 0 || y != 0 {
      assert Bit(x, 0) == Bit(y, 0);
      forall k: nat ensures Bit(x / 2, k) == Bit(y / 2, k) {
        assert Bit(x, k + 1) == Bit(y, k + 1);
      }
      SameBitsSameNumber(x / 2, y / 2);
    }
  }

  /** Python's `a ^ b` on non-negative integers. */
  function Xor(a: nat, b: nat): nat
    decreases a + b
  {
    if a == 0 && b == 0 then 0 else 2 * Xor(a / 2, b / 2) + (a % 2 + b % 2) % 2
  }

  /** Each binary digit of `a ^ b` is set iff exactly one of `a`, `b` has it
      set. */
  lemma {:induction false} XorBits(a: nat, b: nat, k: nat)
    ensures Bit(Xor(a, b), k) == (Bit(a, k) != Bit(b, k))
    decreases k
  {
    if k > 0 {
      if a == 0 && b == 0 {
        ZeroBits(k);
        ZeroBits(k - 1);
      } else {
        XorBits(a / 2, b / 2, k - 1);
      }
    }
  }

  lemma {:induction false} ZeroBits(k: nat)
    ensures !Bit(0, k)
    decreases k
  {
    if k > 0 { ZeroBits(k - 1); }
  }

  lemma XorCommutes(a: nat, b: nat)
    ensures Xor(a, b) == Xor(b, a)
  {
    forall k: nat ensures Bit(Xor(a, b), k) == Bit(Xor(b, a), k) {
      XorBits(a, b, k);
      XorBits(b, a, k);
    }
    SameBitsSameNumber(Xor(a, b), Xor(b, a));
  }

  lemma XorAssociates(a: nat, b: nat, c: nat)
    ensures Xor(Xor(a, b), c) == Xor(a, Xor(b, c))
  {
    forall k: nat ensures Bit(Xor(Xor(a, b), c), k) == Bit(Xor(a, Xor(b, c)), k) {
      XorBits(Xor(a, b), c, k);
      XorBits(a, b, k);
      XorBits(a, Xor(b, c), k);
      XorBits(b, c, k);
    }
    SameBitsSameNumber(Xor(Xor(a, b), c), Xor(a, Xor(b, c)));
  }

  lemma XorUnits(a: nat)
    ensures Xor(a, 0) == a && Xor(a, a) == 0
  {
    forall k: nat ensures Bit(Xor(a, 0), k) == Bit(a, k) && Bit(Xor(a, a), k) == Bit(0, k) {
      XorBits(a, 0, k);
      XorBits(a, a, k);
      ZeroBits(k);
    }
    SameBitsSameNumber(Xor(a, 0), a);
    SameBitsSameNumber(Xor(a, a), 0);
  }

  /** XOR of two `n`-digit numbers has at most `n` digits. */
  lemma {:induction false} XorBound(a: nat, b: nat, n: nat)
    requires a < Pow2(n) && b < Pow2(n)
    ensures Xor(a, b) < Pow2(n)
    decreases n
  {
    if n > 0 && !(a == 0 && b == 0) {
      XorBound(a / 2, b / 2, n - 1);
    }
  }

  /** `x & (2**n - 1)`: the low `n` binary digits of `x`. */
  function Low(x: nat, n: nat): nat
  {
    if n == 0 then 0 else 2 * Low(x / 2, n - 1) + x % 2
  }

  lemma {:induction false} LowBits(x: nat, n: nat, k: nat)
    ensures Bit(Low(x, n), k) == (k < n && Bit(x, k))
    decreases n
  {
    if n == 0 {
      ZeroBits(k);
    } else if k > 0 {
      LowBits(x / 2, n - 1, k - 1);
    }
  }

  lemma {:induction false} LowBound(x: nat, n: nat)
    ensures Low(x, n) < Pow2(n)
    decreases n
  {
    if n > 0 { LowBound(x / 2, n - 1); }
  }

  lemma {:induction false} LowOfSmall(x: nat, n: nat)
    requires x < Pow2(n)
    ensures Low(x, n) == x
    decreases n
  {
    if n > 0 { LowOfSmall(x / 2, n - 1); }
  }

  /** `comp(a, b) = (a ^ b) & 0xFFFFFFFF`. */
  function Comp(a: nat, b: nat): (r: nat)
    ensures r < 0x1_0000_0000
  {
    LowBound(Xor(a, b), 32);
    Pow2ThirtyTwo();
    Low(Xor(a, b), 32)
  }

  /** `comp` is bitwise exclusive or on the low 32 binary digits, and clears
      every higher digit. */
  lemma CompBits(a: nat, b: nat, k: nat)
    ensures Bit(Comp(a, b), k) == (k < 32 && Bit(a, k) != Bit(b, k))
  {
    LowBits(Xor(a, b), 32, k);
    XorBits(a, b, k);
  }

  lemma CompCommutes(a: nat, b: nat)
    ensures Comp(a, b) == Comp(b, a)
  {
    XorCommutes(a, b);
  }

  /** On 32-bit operands the mask changes nothing. */
  lemma CompOfWords(a: nat, b: nat)
    requires a < 0x1_0000_0000 && b < 0x1_0000_0000
    ensures Comp(a, b) == Xor(a, b)
  {
    Pow2ThirtyTwo();
    XorBound(a, b, 32);
    LowOfSmall(Xor(a, b), 32);
  }

  /** The initialisation vector: the ASCII bytes `xash`. */
  const IV: nat := 0x78617368
}
