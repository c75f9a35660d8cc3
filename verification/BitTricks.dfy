/**
 The branch-free integer algorithms the Merkle code relies on: the De Bruijn
 logarithm, the power-of-two floor, and the two ways the repository concatenates
 generalized indices.
 */
module BitTricks {
  import opened Bits
  import opened Gindices
  import opened Wrappers
  import opened Arithmetic

  // The gIndex of validator 0 in a beacon block, as the pool hard-codes it.
  const ZERO_VALIDATOR_INDEX: nat := 798245441765376

  /** The top five bits of the 256-bit product with the De Bruijn constant. */
  function HashPosition(x: nat): nat {
    (x * 0x07c4acdd_00000000_00000000_00000000_00000000_00000000_00000000_00000000
      % 0x1_00000000_00000000_00000000_00000000_00000000_00000000_00000000_00000000)
    / 0x08000000_00000000_00000000_00000000_00000000_00000000_00000000_00000000
  }

  /** Byte i, most significant first, of the lookup word 0x0009010a...1a05041f. */
  function LookupByte(i: nat): nat {
    match i
    case 0 => 0x00 case 1 => 0x09 case 2 => 0x01 case 3 => 0x0a
    case 4 => 0x0d case 5 => 0x15 case 6 => 0x02 case 7 => 0x1d
    case 8 => 0x0b case 9 => 0x0e case 10 => 0x10 case 11 => 0x12
    case 12 => 0x16 case 13 => 0x19 case 14 => 0x03 case 15 => 0x1e
    case 16 => 0x08 case 17 => 0x0c case 18 => 0x14 case 19 => 0x1c
    case 20 => 0x0f case 21 => 0x11 case 22 => 0x18 case 23 => 0x07
    case 24 => 0x13 case 25 => 0x1b case 26 => 0x17 case 27 => 0x06
    case 28 => 0x1a case 29 => 0x05 case 30 => 0x04 case 31 => 0x1f
    case _ => 0
  }

  /** 2^(k+1) - 1, a word of k + 1 ones. */
  function Ones(k: nat): nat {
    match k
    case 0 => 0x1 case 1 => 0x3 case 2 => 0x7 case 3 => 0xf
    case 4 => 0x1f case 5 => 0x3f case 6 => 0x7f case 7 => 0xff
    case 8 => 0x1ff case 9 => 0x3ff case 10 => 0x7ff case 11 => 0xfff
    case 12 => 0x1fff case 13 => 0x3fff case 14 => 0x7fff case 15 => 0xffff
    case 16 => 0x1ffff case 17 => 0x3ffff case 18 => 0x7ffff case 19 => 0xfffff
    case 20 => 0x1fffff case 21 => 0x3fffff case 22 => 0x7fffff case 23 => 0xffffff
    case 24 => 0x1ffffff case 25 => 0x3ffffff case 26 => 0x7ffffff case 27 => 0xfffffff
    case 28 => 0x1fffffff case 29 => 0x3fffffff case 30 => 0x7fffffff case 31 => 0xffffffff
    case _ => 0
  }

  lemma {:induction false} OnesArePow2(k: nat)
    requires k < 32
    ensures Ones(k) == Pow2(k + 1) - 1
  {
    if k > 0 {
      OnesDouble(k);
      OnesArePow2(k - 1);
    } else {
      assert Ones(0) == 1;
    }
  }

  lemma OnesDouble(k: nat)
    requires 0 < k < 32
    ensures Ones(k) == 2 * Ones(k - 1) + 1
  {
  }

  /** Only the low 32 bits of the product with the constant reach the top of the word. */
  lemma PositionIs(x: nat, q: nat, p: nat, e: nat)
    requires x * 0x07c4acdd == q * 0x1_0000_0000 + p * 0x0800_0000 + e
    requires p < 32 && e < 0x0800_0000
    ensures HashPosition(x) == p
  {
    var scale := 0x1_00000000_00000000_00000000_00000000_00000000_00000000_00000000;
    var m := p * 0x0800_0000 + e;
    DivUnique(x * 0x07c4acdd * scale, TWO_256, q, m * scale);
    DivUnique(m * scale, 0x0800_0000 * scale, p, e * scale);
  }

  lemma LookupLow(k: nat)
    requires 0 <= k < 16
    ensures LookupByte(HashPosition(Ones(k))) == k
  {
    hide HashPosition;
    match k {
      case 0 => PositionIs(0x1, 0, 0, 130329821);
      case 1 => PositionIs(0x3, 0, 2, 122554007);
      case 2 => PositionIs(0x7, 0, 6, 107002379);
      case 3 => PositionIs(0xf, 0, 14, 75899123);
      case 4 => PositionIs(0x1f, 0, 30, 13692611);
      case 5 => PositionIs(0x3f, 1, 29, 23497315);
      case 6 => PositionIs(0x7f, 3, 27, 43106723);
      case 7 => PositionIs(0xff, 7, 23, 82325539);
      case 8 => PositionIs(0x1ff, 15, 16, 26545443);
      case 9 => PositionIs(0x3ff, 31, 1, 49202979);
      case 10 => PositionIs(0x7ff, 62, 3, 94518051);
      case 11 => PositionIs(0xfff, 124, 8, 50930467);
      case 12 => PositionIs(0x1fff, 248, 17, 97973027);
      case 13 => PositionIs(0x3fff, 497, 4, 57840419);
      case 14 => PositionIs(0x7fff, 994, 9, 111792931);
      case _ => PositionIs(0xffff, 1988, 20, 85480227);
    }
  }

  lemma LookupHigh(k: nat)
    requires 16 <= k < 32
    ensures LookupByte(HashPosition(Ones(k))) == k
  {
    hide HashPosition;
    match k {
      case 16 => PositionIs(0x1ffff, 3977, 10, 32854819);
      case 17 => PositionIs(0x3ffff, 7954, 21, 61821731);
      case 18 => PositionIs(0x7ffff, 15909, 11, 119755555);
      case 19 => PositionIs(0xfffff, 31818, 24, 101405475);
      case 20 => PositionIs(0x1fffff, 63637, 18, 64705315);
      case 21 => PositionIs(0x3fffff, 127275, 5, 125522723);
      case 22 => PositionIs(0x7fffff, 254550, 12, 112939811);
      case 23 => PositionIs(0xffffff, 509100, 26, 87773987);
      case 24 => PositionIs(0x1ffffff, 1018201, 22, 37442339);
      case 25 => PositionIs(0x3ffffff, 2036403, 13, 70996771);
      case 26 => PositionIs(0x7ffffff, 4072806, 28, 3887907);
      case 27 => PositionIs(0xfffffff, 8145613, 25, 3887907);
      case 28 => PositionIs(0x1fffffff, 16291227, 19, 3887907);
      case 29 => PositionIs(0x3fffffff, 32582455, 7, 3887907);
      case 30 => PositionIs(0x7fffffff, 65164910, 15, 3887907);
      case _ => PositionIs(0xffffffff, 130329820, 31, 3887907);
    }
  }

  /** The De Bruijn product of k + 1 ones finds k in the lookup word. */
  lemma LookupIsLog(k: nat)
    requires k < 32
    ensures LookupByte(HashPosition(Ones(k))) == k
  {
    hide HashPosition, LookupByte, Ones;
    if k < 16 {
      LookupLow(k);
    } else {
      LookupHigh(k);
    }
  }

  /** One smearing step: every set bit is copied `shift` places down. */
  function Smear(x: nat, shift: nat): nat {
    Or(x, Shr(x, shift))
  }

  function Smeared32(x: nat): nat {
    Smear(Smear(Smear(Smear(Smear(x, 1), 2), 4), 8), 16)
  }

  /** Five smearing steps turn a 32-bit word into Depth(x) + 1 ones. */
  lemma SmearIsOnes32(x: nat)
    requires 0 < x < Pow2(32)
    ensures TopOnes(Smeared32(x), Depth(x), 32) && Smeared32(x) < Pow2(Depth(x) + 1)
  {
    hide Or, Shr, Depth, TopOnes;
    DepthBounds(x);
    TopBitSet(x);
    var y1 := SmearStep(x, Depth(x), 1);
    var y2 := SmearStep(y1, Depth(x), 2);
    var y4 := SmearStep(y2, Depth(x), 4);
    var y8 := SmearStep(y4, Depth(x), 8);
    var y16 := SmearStep(y8, Depth(x), 16);
  }

  /** Narrowing step of the logarithm: drop `width` bits when that leaves any. */
  lemma Narrow(x: nat, r: nat, width: nat, wide: bool)
    requires x > 0 && r <= Depth(x) < r + 2 * width
    requires wide <==> Shr(x, r) >= Pow2(width)
    ensures wide ==> r + width <= Depth(x) < r + 2 * width
    ensures !wide ==> Depth(x) < r + width
  {
    ShrDepth(x, r);
    DepthAtLeast(Shr(x, r), width);
  }

  function Flag(b: bool): nat {
    if b then 1 else 0
  }

  /** Reverts (None) on zero; otherwise the index of the most significant bit. */
  method Log2(word: uint256) returns (log: Option<nat>)
    ensures log == if word == 0 then None else Some(Depth(word))
  {
    hide HashPosition, LookupByte, Ones, Or, Shr, Depth, Pow2, TopOnes;
    if word == 0 {
      return None;
    }
    Pow2Constants();
    var x: nat := word;
    DepthAtLeast(x, 256);

    var r := Shl(Flag(0xffffffffffffffffffffffffffffffff < x), 7);
    ShrZero(x);
    Narrow(x, 0, 128, r == 128);
    var wide64 := 0xffffffffffffffff < Shr(x, r);
    Narrow(x, r, 64, wide64);
    OrDisjoint(if r == 0 then 0 else 1, Shl(Flag(wide64), 6), 7);
    r := Or(r, Shl(Flag(wide64), 6));
    var wide32 := 0xffffffff < Shr(x, r);
    Narrow(x, r, 32, wide32);
    OrDisjoint(r / 64, Shl(Flag(wide32), 5), 6);
    r := Or(r, Shl(Flag(wide32), 5));

    // At most 32 bits are left: smear them and look the length up.
    ShrDepth(x, r);
    ghost var k := Depth(x) - r;
    x := Shr(x, r);
    DepthAtLeast(x, 32);
    SmearIsOnes32(x);
    x := Or(x, Shr(x, 1));
    x := Or(x, Shr(x, 2));
    x := Or(x, Shr(x, 4));
    x := Or(x, Shr(x, 8));
    x := Or(x, Shr(x, 16));
    AllOnes(x, k, 32);
    OnesArePow2(k);
    LookupIsLog(k);
    OrDisjoint(r / 32, k, 5);
    r := Or(r, LookupByte(HashPosition(x)));
    return Some(r);
  }

  // ----- the largest power of two not above a 64-bit word -----

  /** Six smearing steps turn a 64-bit word into Depth(x) + 1 ones. */
  lemma SmearIsOnes64(x: nat)
    requires 0 < x < Pow2(64)
    ensures Smear(Smeared32(x), 32) == Pow2(Depth(x) + 1) - 1
  {
    hide Or, Shr, Depth, TopOnes;
    DepthBounds(x);
    TopBitSet(x);
    var y1 := SmearStep(x, Depth(x), 1);
    var y2 := SmearStep(y1, Depth(x), 2);
    var y4 := SmearStep(y2, Depth(x), 4);
    var y8 := SmearStep(y4, Depth(x), 8);
    var y16 := SmearStep(y8, Depth(x), 16);
    var y32 := SmearStep(y16, Depth(x), 32);
    DepthAtLeast(x, 64);
    AllOnes(y32, Depth(x), 64);
  }

  /**
   The increment after the smear overflows for x >= 2^63: None is the panic of a
   checked build.
   */
  method FloorPowerOfTwo(word: uint64) returns (r: Option<uint64>)
    ensures r.None? <==> word >= Pow2(63)
    ensures word == 0 ==> r == Some(0)
    ensures 0 < word < Pow2(63) ==> r == Some(Pow2(Depth(word)))
  {
    hide Or, Shr, Depth, Pow2;
    if word == 0 {
      return Some(0);
    }
    Pow2Constants();
    Pow2Step(63);
    var x: nat := word;
    Pow2Step(Depth(word));
    SmearIsOnes64(x);
    x := Or(x, Shr(x, 1));
    x := Or(x, Shr(x, 2));
    x := Or(x, Shr(x, 4));
    x := Or(x, Shr(x, 8));
    x := Or(x, Shr(x, 16));
    x := Or(x, Shr(x, 32));
    x := x + 1;
    DepthAtLeast(word, 63);
    if word < Pow2(63) {
      Pow2Monotone(Depth(word) + 1, 63);
    } else {
      Pow2Monotone(63, Depth(word));
    }
    if x >= TWO_64 {
      return None;
    }
    HalfOfPow2(Depth(word));
    r := Some(Shr(x, 1));
  }

  lemma HalfOfPow2(n: nat)
    ensures Shr(Pow2(n + 1), 1) == Pow2(n)
  {
    assert Shr(Pow2(n + 1), 1) == Shr(Pow2(n + 1) / 2, 0);
  }

  // ----- concatenation of generalized indices -----

  /** The indices concatenated left to right; a zero index collapses the product. */
  function ConcatAll(indices: seq<nat>): nat {
    if indices == [] then 1
    else
      var last := indices[|indices| - 1];
      if last == 0 then 0 else ConcatIndex(ConcatAll(indices[..|indices| - 1]), last)
  }

  ghost predicate FitsThroughout(indices: seq<nat>) {
    (forall i :: 0 <= i < |indices| ==> indices[i] < Pow2(63)) &&
    (forall n :: 0 <= n <= |indices| ==> ConcatAll(indices[..n]) < TWO_64)
  }

  /** The fold of the Rust prover over 64-bit words; None is an overflow panic. */
  method ConcatGeneralizedIndices(indices: seq<uint64>) returns (r: Option<uint64>)
    ensures r == if FitsThroughout(indices) then Some(ConcatAll(indices)) else None
  {
    hide ConcatIndex, Depth, Shl, Pow2;
    var o: nat := 1;
    var i := 0;
    while i < |indices|
      invariant 0 <= i <= |indices|
      invariant o == ConcatAll(indices[..i])
      invariant forall k :: 0 <= k < i ==> indices[k] < Pow2(63)
      invariant forall n :: 0 <= n <= i ==> ConcatAll(indices[..n]) < TWO_64
    {
      var index := indices[i];
      assert indices[..i + 1][..i] == indices[..i];
      var floor := FloorPowerOfTwo(index);
      if floor.None? {
        return None;
      }
      if index > 0 {
        DepthBounds(index);
        ConcatFormula(o, index);
        assert Shl(o, Depth(index)) == o * Pow2(Depth(index)) by { ShlIsProduct(o, Depth(index)); }
      }
      var next := o * floor.value + (index - floor.value);
      assert next == ConcatAll(indices[..i + 1]);
      if next >= TWO_64 {
        return None;
      }
      o, i := next, i + 1;
    }
    assert indices[..|indices|] == indices;
    return Some(o);
  }

  lemma ShlIsProduct(x: nat, n: nat)
    ensures Shl(x, n) == x * Pow2(n)
  {
  }

  /** The shift/xor form on 64-bit words is concatenation modulo 2^64. */
  method ConcatGindices(a: uint64, b: uint64) returns (r: Option<uint64>)
    ensures r == if b == 0 then None else Some(ConcatIndex(a, b) % TWO_64)
  {
    hide ConcatIndex, Depth, Or, Xor, Shl, Pow2;
    Pow2Constants();
    var log := Log2(b);
    if log.None? {
      return None;
    }
    var stepBitLen := log.value;
    DepthBounds(b);
    DepthAtLeast(b, 64);
    var shifted := Shl(a, stepBitLen) % TWO_64;
    assert Shl(1, stepBitLen) == Pow2(stepBitLen) by { ShlIsProduct(1, stepBitLen); }
    var low := Xor(b, Shl(1, stepBitLen));
    XorTopBit(b, stepBitLen);
    ConcatFormula(a, b);
    Pow2Step(stepBitLen);
    ShlTruncated(a, low, stepBitLen);
    OrDisjoint(a % Pow2(64 - stepBitLen), low, stepBitLen);
    return Some(Or(shifted, low) % TWO_64);
  }

  /** A 64-bit left shift by s only keeps the low 64 - s bits of its operand. */
  lemma ShlTruncated(a: nat, low: nat, s: nat)
    requires s < 64 && low < Pow2(s)
    ensures Shl(a, s) % TWO_64 == Shl(a % Pow2(64 - s), s)
    ensures (Shl(a, s) + low) % TWO_64 == Shl(a % Pow2(64 - s), s) + low < TWO_64
  {
    hide Pow2, Shl;
    Pow2Constants();
    Pow2Add(s, 64 - s);
    ShlIsProduct(a, s);
    ShlIsProduct(a % Pow2(64 - s), s);
    TruncateShift(a, Pow2(s), Pow2(64 - s), low, TWO_64);
  }

  lemma TruncateShift(a: nat, p: nat, q: nat, low: nat, size: nat)
    requires size == p * q && q > 0 && low < p
    ensures size > 0
    ensures (a * p) % size == (a % q) * p
    ensures (a * p + low) % size == (a % q) * p + low < size
  {
    DivMod(a, q);
    TruncateProduct(a, p, q, a / q, a % q, 0);
    TruncateProduct(a, p, q, a / q, a % q, low);
  }

  lemma TruncateProduct(a: nat, p: nat, q: nat, d: nat, e: nat, low: nat)
    requires a == q * d + e && e < q && low < p
    ensures p * q > 0
    ensures (a * p + low) % (p * q) == e * p + low < p * q
  {
    assert a * p == (p * q) * d + e * p;
    MulMonotone(p, e + 1, q);
    assert p * (e + 1) == e * p + p;
    DivUnique(a * p + low, p * q, d, e * p + low);
  }

  lemma ConcatLast(indices: seq<nat>, last: nat)
    ensures ConcatAll(indices + [last]) == if last == 0 then 0 else ConcatIndex(ConcatAll(indices), last)
  {
    assert (indices + [last])[..|indices|] == indices;
  }

  lemma ConcatOne(index: nat)
    ensures ConcatAll([index]) == index
  {
    hide ConcatIndex;
    ConcatLast([], index);
    assert [] + [index] == [index];
    if index >= 1 {
      ConcatRoot(index);
    }
  }

  lemma PairFits(a: uint64, b: uint64)
    ensures ConcatAll([a, b]) == if b == 0 then 0 else ConcatIndex(a, b)
    ensures FitsThroughout([a, b]) <==> a < Pow2(63) && b < Pow2(63) && ConcatAll([a, b]) < TWO_64
  {
    hide ConcatIndex, ConcatAll, Pow2;
    ConcatOne(a);
    ConcatLast([a], b);
    ConcatNone();
    var pair := [a, b];
    assert [a] + [b] == pair;
    assert pair[..0] == [] && pair[..1] == [a] && pair[..2] == pair;
    if a < Pow2(63) && b < Pow2(63) && ConcatAll(pair) < TWO_64 {
      assert forall n :: 0 <= n <= |pair| ==> ConcatAll(pair[..n]) < TWO_64;
    } else {
      assert pair[0] == a && pair[1] == b;
      assert ConcatAll(pair[..2]) == ConcatAll(pair);
    }
  }

  lemma ConcatNone()
    ensures ConcatAll([]) == 1
  {
  }

  /**
   The Rust fold over two indices yields what the Solidity form yields; it panics when
   an index or the result leaves its range, where the Solidity form still answers. The
   forms part on a second index of zero, which the Solidity form refuses.
   */
  method ConcatenationsAgree(a: uint64, b: uint64) returns (rust: Option<uint64>, solidity: Option<uint64>)
    ensures rust.Some? <==> a < Pow2(63) && b < Pow2(63) && (b > 0 ==> ConcatIndex(a, b) < TWO_64)
    ensures solidity.Some? <==> b > 0
    ensures rust.Some? ==> rust == if b > 0 then solidity else Some(0)
  {
    hide ConcatIndex, ConcatAll, Pow2, FitsThroughout;
    PairFits(a, b);
    rust := ConcatGeneralizedIndices([a, b]);
    solidity := ConcatGindices(a, b);
  }

  // Left child of the registry node: the root of the 2^40 places for validators. The
  // right child holds the length of the list.
  const VALIDATORS: nat := 726

  /**
   The pool's index arithmetic: for every uint64 the sum is a place for a validator
   record, 40 levels below the registry's data root, exactly for v < 2^40. It is then
   the joint path of state root (11), registry (43) and leaf v of its 2^41-wide tree.
   */
  lemma ValidatorGindex(v: uint64)
    ensures Covers(VALIDATORS, ZERO_VALIDATOR_INDEX + v) && Depth(ZERO_VALIDATOR_INDEX + v) == 49 <==> v < Pow2(40)
    ensures v < Pow2(40) ==> ZERO_VALIDATOR_INDEX + v == ConcatAll([11, 43, Pow2(41) + v])
  {
    hide Covers, ConcatAll, Depth, Pow2, Shr;
    LeafPow2();
    if v < Pow2(40) {
      JointPath(v);
      PlaceOf(v);
    } else if Covers(VALIDATORS, ZERO_VALIDATOR_INDEX + v) && Depth(ZERO_VALIDATOR_INDEX + v) == 49 {
      NoPlace(v);
    }
  }

  lemma JointPath(v: nat)
    requires v < Pow2(40)
    ensures ZERO_VALIDATOR_INDEX + v == ConcatAll([11, 43, Pow2(41) + v])
    ensures Depth(ZERO_VALIDATOR_INDEX + v) == 49
  {
    var w := Pow2(41) + v;
    hide ConcatIndex, ConcatAll, Depth, Pow2;
    LeafPow2();
    StateRegistryGindex();
    ConcatLast([11, 43], w);
    assert [11, 43] + [w] == [11, 43, w];
    ValidatorLeafGindex(w);
  }

  lemma PlaceOf(v: nat)
    requires v < Pow2(40)
    ensures Covers(VALIDATORS, ZERO_VALIDATOR_INDEX + v)
  {
    hide Covers, Depth, Pow2, Shr;
    LeafPow2();
    JointPath(v);
    ShrOfSum(VALIDATORS, v, 40);
    ShiftCovers(ZERO_VALIDATOR_INDEX + v, 40);
  }

  lemma NoPlace(v: nat)
    requires Covers(VALIDATORS, ZERO_VALIDATOR_INDEX + v) && Depth(ZERO_VALIDATOR_INDEX + v) == 49
    ensures v < Pow2(40)
  {
    hide Covers, Depth, Pow2, Shr;
    LeafPow2();
    DepthUnique(VALIDATORS, 9);
    CoversDepth(VALIDATORS, ZERO_VALIDATOR_INDEX + v);
    ShrBounds(ZERO_VALIDATOR_INDEX + v, 40);
  }

  lemma LeafPow2()
    ensures Pow2(9) == 0x200 && Pow2(10) == 0x400
    ensures Pow2(40) == 0x100_0000_0000 && Pow2(41) == 0x200_0000_0000 && Pow2(42) == 0x400_0000_0000
  {
    assert Pow2(8) == 0x100;
    Pow2Constants();
    Pow2Add(32, 8);
  }

  lemma StateRegistryGindex()
    ensures ConcatAll([11, 43]) == 363 && Depth(363) == 8
  {
    ConcatOne(11);
    ConcatLast([11], 43);
    assert [11] + [43] == [11, 43];
    assert ConcatIndex(11, 43) == 363;
  }

  lemma ValidatorLeafGindex(w: nat)
    requires Pow2(41) <= w < Pow2(42)
    ensures w >= 1 && ConcatIndex(363, w) == ZERO_VALIDATOR_INDEX + (w - Pow2(41))
    ensures Depth(ConcatIndex(363, w)) == Depth(363) + 41
  {
    hide ConcatIndex, Depth, Pow2;
    LeafPow2();
    DepthUnique(w, 41);
    ConcatFormula(363, w);
    ConcatDepth(363, w);
  }
}
