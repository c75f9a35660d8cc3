/**
 Bitwise arithmetic of the EVM on natural numbers. A `uint256` is a natural
 number below 2^256; AND, OR, XOR and the shifts are defined bit by bit, and the
 lemmas give the arithmetic facts that the index algorithms rely on.
 */
module Bits {

  const TWO_32: nat := 0x1_0000_0000
  const TWO_64: nat := 0x1_0000_0000_0000_0000
  const TWO_128: nat := 0x1_00000000_00000000_00000000_00000000
  const TWO_256: nat := 0x1_00000000_00000000_00000000_00000000_00000000_00000000_00000000_00000000

  type uint64 = x: nat | x < TWO_64
  type uint256 = x: nat | x < TWO_256

  function Pow2(n: nat): (p: nat)
    ensures p > 0
  {
    if n == 0 then 1 else 2 * Pow2(n - 1)
  }

  function And(a: nat, b: nat): nat {
    if a == 0 then 0
    else 2 * And(a / 2, b / 2) + (if a % 2 == 1 && b % 2 == 1 then 1 else 0)
  }

  function Or(a: nat, b: nat): nat
    decreases a + b
  {
    if a == 0 && b == 0 then 0
    else 2 * Or(a / 2, b / 2) + (if a % 2 == 1 || b % 2 == 1 then 1 else 0)
  }

  function Xor(a: nat, b: nat): nat
    decreases a + b
  {
    if a == 0 && b == 0 then 0
    else 2 * Xor(a / 2, b / 2) + (if a % 2 != b % 2 then 1 else 0)
  }

  function Shr(x: nat, n: nat): nat
    decreases n
  {
    if n == 0 then x else Shr(x / 2, n - 1)
  }

  function Shl(x: nat, n: nat): nat {
    x * Pow2(n)
  }

  predicate Bit(x: nat, p: nat) {
    Shr(x, p) % 2 == 1
  }

  /** Index of the most significant set bit. */
  function Depth(x: nat): nat {
    if x < 2 then 0 else 1 + Depth(x / 2)
  }

  // ----- powers of two -----

  lemma {:induction false} Pow2Add(m: nat, n: nat)
    ensures Pow2(m + n) == Pow2(m) * Pow2(n)
  {
    if m == 0 {
    } else {
      Pow2Add(m - 1, n);
      assert Pow2(m + n) == 2 * Pow2(m - 1 + n);
      assert 2 * Pow2(m - 1) * Pow2(n) == 2 * (Pow2(m - 1) * Pow2(n));
    }
  }

  lemma {:induction false} Pow2Monotone(m: nat, n: nat)
    requires m <= n
    ensures Pow2(m) <= Pow2(n)
  {
    if m < n {
      Pow2Monotone(m, n - 1);
    }
  }

  lemma Pow2Small()
    ensures Pow2(0) == 1 && Pow2(5) == 32 && Pow2(6) == 64 && Pow2(7) == 128 && Pow2(8) == 256
  {
  }

  lemma EightIsPow2()
    ensures Pow2(3) == 8
  {
  }

  lemma Pow2Step(n: nat)
    ensures Pow2(n + 1) == 2 * Pow2(n)
  {
  }

  lemma Pow2Constants()
    ensures Pow2(0) == 1 && Pow2(5) == 32 && Pow2(6) == 64 && Pow2(7) == 128
    ensures Pow2(32) == TWO_32
    ensures Pow2(64) == TWO_64
    ensures Pow2(128) == TWO_128
    ensures Pow2(256) == TWO_256
  {
    hide Pow2;
    Pow2Small();
    Pow2Add(8, 8);
    Pow2Add(16, 16);
    Pow2Add(32, 32);
    Pow2Add(64, 64);
    Pow2Add(128, 128);
  }

  // ----- depth -----

  lemma DepthStep(x: nat)
    ensures Depth(x) == if x < 2 then 0 else 1 + Depth(x / 2)
  {
  }

  lemma {:induction false} DepthBounds(x: nat)
    requires x > 0
    ensures Pow2(Depth(x)) <= x < Pow2(Depth(x) + 1)
  {
    if x >= 2 {
      DepthBounds(x / 2);
    }
  }

  /** The bounds single the depth out, so `Depth` is floor(log2 x). */
  lemma DepthUnique(x: nat, r: nat)
    requires Pow2(r) <= x < Pow2(r + 1)
    ensures Depth(x) == r
  {
    DepthBounds(x);
    if Depth(x) < r {
      Pow2Monotone(Depth(x) + 1, r);
    } else if r < Depth(x) {
      Pow2Monotone(r + 1, Depth(x));
    }
  }

  lemma DepthAtLeast(x: nat, n: nat)
    requires x > 0
    ensures Depth(x) >= n <==> x >= Pow2(n)
  {
    DepthBounds(x);
    if Depth(x) >= n {
      Pow2Monotone(n, Depth(x));
    } else {
      Pow2Monotone(Depth(x) + 1, n);
    }
  }

  // ----- shifts -----

  lemma ShlStep(x: nat, n: nat)
    ensures Shl(x, n + 1) == 2 * Shl(x, n)
  {
    assert x * (2 * Pow2(n)) == 2 * (x * Pow2(n));
  }

  lemma ShlZero(x: nat)
    ensures Shl(x, 0) == x
  {
  }

  lemma {:induction false} ShrBounds(x: nat, n: nat)
    ensures Shl(Shr(x, n), n) <= x < Shl(Shr(x, n) + 1, n)
  {
    hide Shl;
    if n > 0 {
      ShrBounds(x / 2, n - 1);
      ShlStep(Shr(x, n), n - 1);
      ShlStep(Shr(x, n) + 1, n - 1);
    } else {
      ShlZero(x);
      ShlZero(x + 1);
    }
  }

  lemma ShrZero(x: nat)
    ensures Shr(x, 0) == x
  {
  }

  lemma ShrHalf(x: nat, n: nat)
    requires n > 0
    ensures Shr(x, n) == Shr(x / 2, n - 1)
  {
  }

  lemma {:induction false} ShrShr(x: nat, m: nat, n: nat)
    ensures Shr(Shr(x, m), n) == Shr(x, m + n)
  {
    if m > 0 {
      ShrShr(x / 2, m - 1, n);
    }
  }

  lemma {:induction false} ShrStep(x: nat, n: nat)
    ensures Shr(x, n + 1) == Shr(x, n) / 2
  {
    ShrShr(x, n, 1);
  }

  lemma {:induction false} ShrDepth(x: nat, n: nat)
    requires n <= Depth(x)
    ensures Depth(Shr(x, n)) == Depth(x) - n
    ensures x > 0 ==> Shr(x, n) > 0
  {
    if n > 0 {
      ShrDepth(x / 2, n - 1);
    }
  }

  lemma {:induction false} ShrBeyond(x: nat, n: nat)
    requires x < Pow2(n)
    ensures Shr(x, n) == 0
  {
    if n > 0 {
      ShrBeyond(x / 2, n - 1);
    }
  }

  /** Shifting right drops what a left shift of the high part does not reach. */
  lemma {:induction false} ShrOfSum(x: nat, y: nat, n: nat)
    requires y < Pow2(n)
    ensures Shr(Shl(x, n) + y, n) == x
  {
    hide Shl;
    if n > 0 {
      ShlStep(x, n - 1);
      ShrOfSum(x, y / 2, n - 1);
    } else {
      ShlZero(x);
    }
  }

  // ----- bitwise operations -----

  lemma {:induction false} OrComm(a: nat, b: nat)
    ensures Or(a, b) == Or(b, a)
    decreases a + b
  {
    if a + b > 0 {
      OrComm(a / 2, b / 2);
    }
  }

  lemma {:induction false} OrZero(b: nat)
    ensures Or(0, b) == b
  {
    if b > 0 {
      OrZero(b / 2);
    }
  }

  lemma {:induction false} XorZero(b: nat)
    ensures Xor(0, b) == b
    ensures Xor(b, 0) == b
  {
    if b > 0 {
      XorZero(b / 2);
    }
  }

  /** OR of a high part and a low part that do not overlap is their sum. */
  lemma {:induction false} OrDisjoint(x: nat, y: nat, n: nat)
    requires y < Pow2(n)
    ensures Or(Shl(x, n), y) == Shl(x, n) + y
    decreases n
  {
    hide Shl;
    if n == 0 {
      ShlZero(x);
      OrZero(x);
      OrComm(x, 0);
    } else {
      ShlStep(x, n - 1);
      OrDisjoint(x, y / 2, n - 1);
    }
  }

  /** XOR with the top bit removes it. */
  lemma {:induction false} XorTopBit(b: nat, n: nat)
    requires Pow2(n) <= b < Pow2(n + 1)
    ensures Xor(b, Pow2(n)) == b - Pow2(n)
    decreases n
  {
    if n > 0 {
      Pow2Step(n - 1);
      XorTopBit(b / 2, n - 1);
    } else {
      assert Xor(1, 1) == 2 * Xor(0, 0);
    }
  }

  lemma XorOne(k: nat)
    ensures Xor(k, 1) == if k % 2 == 0 then k + 1 else k - 1
  {
    XorZero(k / 2);
  }

  lemma OrOne(k: nat)
    ensures Or(k, 1) == if k % 2 == 0 then k + 1 else k
  {
    OrZero(k / 2);
    OrComm(k / 2, 0);
  }

  lemma {:induction false} AndPow2(x: nat, n: nat)
    ensures And(x, Pow2(n)) > 0 <==> Bit(x, n)
    decreases n
  {
    if n > 0 {
      AndPow2(x / 2, n - 1);
    } else {
      AndZero(x / 2);
    }
    if x == 0 {
      ShrBeyond(0, n);
    }
  }

  lemma {:induction false} AndZero(x: nat)
    ensures And(x, 0) == 0
  {
    if x > 0 {
      AndZero(x / 2);
    }
  }

  lemma {:induction false} OrBit(a: nat, b: nat, p: nat)
    ensures Bit(Or(a, b), p) <==> Bit(a, p) || Bit(b, p)
    decreases p
  {
    OrHalves(a, b);
    if p > 0 {
      hide Or;
      OrBit(a / 2, b / 2, p - 1);
    }
  }

  lemma {:induction false} AndBit(a: nat, b: nat, p: nat)
    ensures Bit(And(a, b), p) <==> Bit(a, p) && Bit(b, p)
    decreases p
  {
    AndHalves(a, b);
    if p > 0 {
      hide And;
      AndBit(a / 2, b / 2, p - 1);
    }
  }

  lemma AndHalves(a: nat, b: nat)
    ensures And(a, b) / 2 == And(a / 2, b / 2)
    ensures And(a, b) % 2 == 1 <==> a % 2 == 1 && b % 2 == 1
  {
  }

  lemma {:induction false} XorBit(a: nat, b: nat, p: nat)
    ensures Bit(Xor(a, b), p) <==> Bit(a, p) != Bit(b, p)
    decreases p
  {
    XorHalves(a, b);
    if p > 0 {
      hide Xor;
      XorBit(a / 2, b / 2, p - 1);
    }
  }

  lemma XorHalves(a: nat, b: nat)
    ensures Xor(a, b) / 2 == Xor(a / 2, b / 2)
    ensures Xor(a, b) % 2 == 1 <==> a % 2 != b % 2
  {
  }

  lemma OrHalves(a: nat, b: nat)
    ensures Or(a, b) / 2 == Or(a / 2, b / 2)
    ensures Or(a, b) % 2 == 1 <==> a % 2 == 1 || b % 2 == 1
  {
  }

  lemma {:induction false} OrBound(a: nat, b: nat, n: nat)
    requires a < Pow2(n) && b < Pow2(n)
    ensures Or(a, b) < Pow2(n)
  {
    if n > 0 {
      OrBound(a / 2, b / 2, n - 1);
    }
  }

  // ----- smearing the top bit downwards -----

  /** The `width` bits of x from position `top` downwards are all set. */
  predicate TopOnes(x: nat, top: nat, width: nat) {
    forall p :: 0 <= p <= top < p + width ==> Bit(x, p)
  }

  /** One smearing step x |= x >> width doubles the run of ones. */
  lemma SmearStep(x: nat, top: nat, width: nat) returns (y: nat)
    requires x < Pow2(top + 1)
    requires TopOnes(x, top, width)
    ensures y == Or(x, Shr(x, width))
    ensures y < Pow2(top + 1)
    ensures TopOnes(y, top, 2 * width)
  {
    y := Or(x, Shr(x, width));
    ShrBounds(x, width);
    assert Shr(x, width) <= Shl(Shr(x, width), width) by {
      assert Pow2(width) >= 1;
    }
    OrBound(x, Shr(x, width), top + 1);
    forall p | 0 <= p <= top < p + 2 * width
      ensures Bit(y, p)
    {
      OrBit(x, Shr(x, width), p);
      if top < p + width {
        assert Bit(x, p);
      } else {
        ShrShr(x, width, p);
        assert Bit(x, width + p);
      }
    }
  }

  lemma {:induction false} AllOnes(x: nat, top: nat, width: nat)
    requires x < Pow2(top + 1)
    requires TopOnes(x, top, width) && top < width
    ensures x == Pow2(top + 1) - 1
    decreases top
  {
    assert Bit(x, 0);
    if top > 0 {
      forall p | 0 <= p <= top - 1
        ensures Bit(x / 2, p)
      {
        assert Bit(x, p + 1);
      }
      AllOnes(x / 2, top - 1, width);
    }
  }

  lemma TopBitSet(x: nat)
    requires x > 0
    ensures TopOnes(x, Depth(x), 1)
  {
    ShrDepth(x, Depth(x));
    assert Bit(x, Depth(x));
  }
}
