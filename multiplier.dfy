/** The "multiplier" of src/multiplier.rs, on 32-bit words. For each bit `i`
    of `b` that is set it ORs `a << i` into the result. The partial products
    are OR-ed rather than added, so the result is `a * b` only when they
    share no set bits. `ShiftOr` is that computation, `Multiply` the loop
    proved against it, and the lemmas below say what it means bit by bit.
    `Product` is the evidently intended shift-and-add version. */
module Multiplier {
  import Adder

  // ---------------------------------------------------------------------
  // Bits of a 32-bit word.

  /** Bit `i` of `x`, read one shift at a time. This is `Adder.TestBit`
      on the word's value; the multiplier's words stay `bv32` so that its
      shifts, masks and ORs remain bit-vector operations, where stating
      them on numbers would need division and remainder by powers of two
      throughout. */
  predicate Bit(x: bv32, i: bv32)
  {
    if i == 0 then x & 1 == 1 else Bit(x >> 1, i - 1)
  }

  /** Shifting right by one and then by `i` is shifting by `i + 1`. */
  lemma ShrSucc(x: bv32, i: bv32)
    requires i < 32
    ensures (x >> 1) >> i == x >> (i + 1)
  {
  }

  /** `Bit` agrees with a single shift by `i`. */
  lemma {:induction false} BitShr(x: bv32, i: bv32)
    requires i < 32
    ensures Bit(x, i) <==> (x >> i) & 1 == 1
  {
    if i > 0 {
      BitShr(x >> 1, i - 1);
      ShrSucc(x, i - 1);
    }
  }

  /** The source's test `b & (1 << i) > 0` reads bit `i`. */
  lemma MaskBit(x: bv32, i: bv32)
    requires i < 32
    ensures x & (1 << i) > 0 <==> Bit(x, i)
  {
    BitShr(x, i);
    MaskSet(x, i);
    MaskClear(x, i);
  }

  lemma MaskSet(x: bv32, i: bv32)
    requires i < 32
    ensures x & (1 << i) > 0 ==> (x >> i) & 1 == 1
  {
  }

  lemma MaskClear(x: bv32, i: bv32)
    requires i < 32
    ensures (x >> i) & 1 == 1 ==> x & (1 << i) > 0
  {
  }

  /** Shifting left by one moves every bit up one place and clears bit 0. */
  lemma ShiftOneBit(x: bv32, k: bv32)
    requires k < 32
    ensures Bit(x << 1, k) <==> k >= 1 && Bit(x, k - 1)
  {
    BitShr(x << 1, k);
    if k >= 1 {
      BitShr(x, k - 1);
    }
  }

  lemma OrBit(x: bv32, y: bv32, k: bv32)
    requires k < 32
    ensures Bit(x | y, k) <==> Bit(x, k) || Bit(y, k)
  {
    BitShr(x | y, k);
    BitShr(x, k);
    BitShr(y, k);
  }

  lemma ZeroBit(k: bv32)
    requires k < 32
    ensures !Bit(0, k)
  {
    BitShr(0, k);
  }

  /** `a << j`, one place at a time. */
  function Shl(a: bv32, j: bv32): bv32
  {
    if j == 0 then a else Shl(a, j - 1) << 1
  }

  lemma {:induction false} ShlBit(a: bv32, j: bv32, k: bv32)
    requires k < 32
    ensures Bit(Shl(a, j), k) <==> j <= k && Bit(a, k - j)
  {
    if j > 0 {
      ShiftOneBit(Shl(a, j - 1), k);
      if k >= 1 {
        ShlBit(a, j - 1, k - 1);
        assert (k - 1) - (j - 1) == k - j;
      }
    }
  }

  lemma ShiftSucc(a: bv32, j: bv32)
    requires j < 31
    ensures a << (j + 1) == (a << j) << 1
  {
  }

  lemma {:induction false} ShlIsShift(a: bv32, j: bv32)
    requires j < 32
    ensures Shl(a, j) == a << j
  {
    if j > 0 {
      ShlIsShift(a, j - 1);
      ShiftSucc(a, j - 1);
    }
  }

  /** Bit `k` of `a << j` is bit `k - j` of `a`, and clear below `j`. */
  lemma ShiftedBit(a: bv32, j: bv32, k: bv32)
    requires j < 32 && k < 32
    ensures Bit(a << j, k) <==> j <= k && Bit(a, k - j)
  {
    ShlIsShift(a, j);
    ShlBit(a, j, k);
  }

  // ---------------------------------------------------------------------
  // The multiplier as written.

  /** The partial product for bit `i` of `b`: `a << i` if that bit is set. */
  function Partial(a: bv32, b: bv32, i: bv32): bv32
  {
    if i < 32 && b & (1 << i) > 0 then a << i else 0
  }

  /** The first `n` partial products OR-ed together. No bit appears
      without a set bit in both operands, so a zero operand gives 0. */
  function ShiftOr(a: bv32, b: bv32, n: bv32): (r: bv32)
    ensures a == 0 || b == 0 ==> r == 0
  {
    if n == 0 then 0
    else
      ShiftOr(a, b, n - 1) | Partial(a, b, n - 1)
  }

  lemma ShiftOrStep(a: bv32, b: bv32, n: bv32, s: bv32, p: bv32, r: bv32)
    requires n < 32 && s == ShiftOr(a, b, n) && p == Partial(a, b, n)
    requires r == ShiftOr(a, b, n + 1)
    ensures r == s | p
  {
    assert (n + 1) - 1 == n;
  }

  /** One round of the loop, in the source's own terms. */
  lemma LoopStep(a: bv32, b: bv32, n: bv32, mask: bv32, result: bv32, next: bv32)
    requires n < 32 && mask == 1 << n
    requires result == ShiftOr(a, b, n) && next == ShiftOr(a, b, n + 1)
    ensures next == if b & mask > 0 then result | (a << n) else result
  {
    var p := Partial(a, b, n);
    ShiftOrStep(a, b, n, result, p, next);
    PartialMask(a, b, n, mask, p);
    PickStep(a, n, b & mask > 0, result, p, next);
  }

  lemma PartialMask(a: bv32, b: bv32, n: bv32, mask: bv32, p: bv32)
    requires n < 32 && mask == 1 << n && p == Partial(a, b, n)
    ensures p == if b & mask > 0 then a << n else 0
  {
    if b & mask > 0 { } else { }
  }

  lemma PickStep(a: bv32, n: bv32, taken: bool, result: bv32, p: bv32, next: bv32)
    requires n < 32
    requires p == if taken then a << n else 0
    requires next == result | p
    ensures next == if taken then result | (a << n) else result
  {
    if !taken {
      assert p == 0;
      assert result | 0 == result;
    }
  }

  /** `multiplier`: after `i` rounds `result` holds the first `i` partial
      products. */
  method Multiply(a: bv32, b: bv32) returns (result: bv32)
    ensures result == ShiftOr(a, b, 32)
  {
    result := 0;
    var i: bv32 := 0;
    while i < 32
      invariant i <= 32
      invariant result == ShiftOr(a, b, i)
    {
      var mask: bv32 := 1 << i;
      var bBit := if b & mask > 0 then 1 else 0;
      LoopStep(a, b, i, mask, result, ShiftOr(a, b, i + 1));
      if bBit == 1 {
        result := result | (a << i);
      }
      i := i + 1;
    }
  }

  // ---------------------------------------------------------------------
  // What the result means.

  /** Bit `i` of `b` and bit `k - i` of `a` are both set: a one that lands
      in bit `k` of the result. */
  predicate Pair(a: bv32, b: bv32, i: bv32, k: bv32)
  {
    i <= k && Bit(b, i) && Bit(a, k - i)
  }

  /** Some index below `n` satisfies `p`. */
  ghost predicate AnyBelow(p: bv32 -> bool, n: bv32)
  {
    exists i: bv32 :: i < n && p(i)
  }

  lemma AnyBelowStep(p: bv32 -> bool, m: bv32)
    requires m < 32
    ensures AnyBelow(p, m + 1) <==> AnyBelow(p, m) || p(m)
  {
    if AnyBelow(p, m + 1) {
      var i: bv32 :| i < m + 1 && p(i);
      if i != m {
        assert i < m;
      }
    }
    if p(m) {
      assert m < m + 1;
    }
  }

  /** Some pair among the first `n` bits of `b` lands in bit `k`. */
  ghost predicate HasPair(a: bv32, b: bv32, n: bv32, k: bv32)
  {
    AnyBelow(i => Pair(a, b, i, k), n)
  }

  lemma PartialBit(a: bv32, b: bv32, m: bv32, k: bv32)
    requires m < 32 && k < 32
    ensures Bit(Partial(a, b, m), k) <==> Pair(a, b, m, k)
  {
    MaskBit(b, m);
    if Bit(b, m) {
      ShiftedBit(a, m, k);
    } else {
      ZeroBit(k);
    }
  }

  lemma OrInto(s: bv32, p: bv32, r: bv32, k: bv32)
    requires k < 32 && r == s | p
    ensures Bit(r, k) <==> Bit(s, k) || Bit(p, k)
  {
    OrBit(s, p, k);
  }

  /** One more round ORs in one partial product; `s` and `r` are the
      results before and after it. */
  lemma ResultBitStep(a: bv32, b: bv32, m: bv32, k: bv32, s: bv32, r: bv32)
    requires m < 32 && k < 32
    requires s == ShiftOr(a, b, m) && r == ShiftOr(a, b, m + 1)
    ensures Bit(r, k) <==> Bit(s, k) || Pair(a, b, m, k)
  {
    var p := Partial(a, b, m);
    ShiftOrStep(a, b, m, s, p, r);
    OrInto(s, p, r, k);
    PartialBit(a, b, m, k);
  }

  /** Bit `k` of the result is set exactly when bit `i` of `b` and bit
      `k - i` of `a` are both set for some `i`: the carry-free product. */
  lemma {:induction false} ResultBit(a: bv32, b: bv32, n: bv32, k: bv32, r: bv32)
    requires n <= 32 && k < 32 && r == ShiftOr(a, b, n)
    ensures Bit(r, k) <==> HasPair(a, b, n, k)
  {
    if n > 0 {
      var m := n - 1;
      assert m + 1 == n;
      var s := ShiftOr(a, b, m);
      ResultBit(a, b, m, k, s);
      ResultBitStep(a, b, m, k, s, r);
      AnyBelowStep(i => Pair(a, b, i, k), m);
    } else {
      ZeroBit(k);
    }
  }

  /** `x >> 1` has bit 31 clear. */
  lemma TopBitOfShifted(x: bv32)
    ensures !Bit(x >> 1, 31)
  {
    BitShr(x >> 1, 31);
  }

  lemma ShrSmaller(x: bv32, y: bv32)
    requires x != y && x & 1 == y & 1
    ensures x >> 1 != y >> 1 && (x >> 1) | (y >> 1) < x | y
  {
  }

  /** A bit position where two different words differ. */
  ghost function SomeDiff(x: bv32, y: bv32): (k: bv32)
    ensures k < 32
    ensures x != y ==> Bit(x, k) != Bit(y, k)
    decreases x | y
  {
    if x == y || x & 1 != y & 1 then 0
    else
      ShrSmaller(x, y);
      TopBitOfShifted(x);
      TopBitOfShifted(y);
      var k := SomeDiff(x >> 1, y >> 1);
      assert (k + 1) - 1 == k;
      k + 1
  }

  /** A word is fixed by its 32 bits. */
  lemma BitsDetermine(x: bv32, y: bv32)
    requires forall k: bv32 :: k < 32 ==> Bit(x, k) == Bit(y, k)
    ensures x == y
  {
    var k := SomeDiff(x, y);
    assert Bit(x, k) == Bit(y, k);
  }

  /** A pair for `a, b` read the other way is a pair for `b, a`. */
  lemma PairSwap(a: bv32, b: bv32, i: bv32, k: bv32)
    requires k < 32 && Pair(a, b, i, k)
    ensures k - i < 32 && Pair(b, a, k - i, k)
  {
    assert k - (k - i) == i;
  }

  lemma HasPairSwap(a: bv32, b: bv32, k: bv32)
    requires k < 32 && HasPair(a, b, 32, k)
    ensures HasPair(b, a, 32, k)
  {
    var i: bv32 :| i < 32 && Pair(a, b, i, k);
    PairSwap(a, b, i, k);
    var j := k - i;
    assert j < 32 && (x => Pair(b, a, x, k))(j);
  }

  /** The order of the factors does not matter. */
  lemma Commutes(a: bv32, b: bv32)
    ensures ShiftOr(a, b, 32) == ShiftOr(b, a, 32)
  {
    forall k: bv32 | k < 32
      ensures Bit(ShiftOr(a, b, 32), k) == Bit(ShiftOr(b, a, 32), k)
    {
      ResultBit(a, b, 32, k, ShiftOr(a, b, 32));
      ResultBit(b, a, 32, k, ShiftOr(b, a, 32));
      if HasPair(a, b, 32, k) {
        HasPairSwap(a, b, k);
      }
      if HasPair(b, a, 32, k) {
        HasPairSwap(b, a, k);
      }
    }
    BitsDetermine(ShiftOr(a, b, 32), ShiftOr(b, a, 32));
  }

  /** `1 << k` has bit `k` set and no other. */
  lemma SingleBit(k: bv32, i: bv32)
    requires k < 32 && i < 32
    ensures Bit(1 << k, i) <==> i == k
  {
    BitShr(1 << k, i);
  }

  lemma HasPairSingle(a: bv32, b: bv32, k: bv32, j: bv32)
    requires k < 32 && j < 32 && b == 1 << k
    ensures HasPair(a, b, 32, j) <==> k <= j && Bit(a, j - k)
  {
    if HasPair(a, b, 32, j) {
      var i: bv32 :| i < 32 && Pair(a, b, i, j);
      SingleBit(k, i);
    }
    if k <= j && Bit(a, j - k) {
      SingleBit(k, k);
      assert (x => Pair(a, b, x, j))(k);
    }
  }

  /** With a single set bit in `b` the result is `a` shifted left, the top
      bits dropped: `a * 2^k` modulo `2^32`. */
  lemma PowerOfTwo(a: bv32, k: bv32)
    requires k < 32
    ensures ShiftOr(a, 1 << k, 32) == a << k
  {
    var b, r, s := 1 << k, ShiftOr(a, 1 << k, 32), a << k;
    forall j: bv32 | j < 32
      ensures Bit(r, j) == Bit(s, j)
    {
      ResultBit(a, b, 32, j, r);
      HasPairSingle(a, b, k, j);
      ShiftedBit(a, k, j);
    }
    BitsDetermine(r, s);
  }

  /** A zero factor gives zero, on either side. */
  const U32_MAX: bv32 := 0xFFFF_FFFF

  /** The source's tests, stated of the function that `Multiply` computes. */
  lemma MultiplyExamples()
    ensures ShiftOr(2, 2, 32) == 4
    ensures ShiftOr(0, 0, 32) == 0
    ensures ShiftOr(U32_MAX / 2, 2, 32) == U32_MAX - 1
  {
    PowerOfTwo(2, 1);
    PowerOfTwo(U32_MAX / 2, 1);
  }

  /** 3 is bits 0 and 1; 7 is bits 0 to 2. */
  lemma ThreeBits(i: bv32)
    requires i < 32
    ensures Bit(3, i) <==> i < 2
    ensures Bit(7, i) <==> i < 3
  {
    BitShr(3, i);
    BitShr(7, i);
  }

  lemma ThreeThreePairs(j: bv32)
    requires j < 32
    ensures HasPair(3, 3, 32, j) <==> j < 3
  {
    if HasPair(3, 3, 32, j) {
      var i: bv32 :| i < 32 && Pair(3, 3, i, j);
      ThreeBits(i);
      ThreeBits(j - i);
    }
    if j < 3 {
      var i: bv32 := if j < 2 then 0 else 1;
      ThreeBits(i);
      ThreeBits(j - i);
      assert (x => Pair(3, 3, x, j))(i);
    }
  }

  /** The partial products of `3 * 3`, 3 and 6, share bit 1, so OR-ing
      them gives 7 where the product is 9. */
  lemma ThreeTimesThree()
    ensures ShiftOr(3, 3, 32) == 7
    ensures ShiftOr(3, 3, 32) as int != (3 * 3) % WORD32
  {
    var r := ShiftOr(3, 3, 32);
    forall j: bv32 | j < 32
      ensures Bit(r, j) == Bit(7, j)
    {
      ResultBit(3, 3, 32, j, ShiftOr(3, 3, 32));
      ThreeThreePairs(j);
      ThreeBits(j);
    }
    BitsDetermine(r, 7);
  }

  // ---------------------------------------------------------------------
  // The evidently intended multiplier: partial products added, not OR-ed,
  // with `u32` wrap-around. Words are modelled by their values, as in
  // `Adder`.

  const WORD32 := Adder.WORD32

  type U32 = Adder.U32

  /** Reducing one summand first does not change the sum's remainder. */
  lemma ModAdd(x: int, y: int, d: int)
    requires d > 0
    ensures (x % d + y) % d == (x + y) % d
  {
    var t, q := (x % d + y) % d, (x % d + y) / d;
    assert x + y == (x / d + q) * d + t;
    Adder.ModUnique(x + y, x / d + q, d, t);
  }

  /** `a << i` on a `u32`: the high bits fall off. */
  function ShlWrap(a: U32, i: nat): (r: U32)
  {
    (a * Adder.Pow2(i)) % WORD32
  }

  /** One round of shift-and-add extends the product by bit `i` of `b`. */
  lemma ProductStep(a: U32, b: U32, i: nat, result: U32)
    requires result == (a * (b % Adder.Pow2(i))) % WORD32
    ensures (if Adder.TestBit(b, i) then (result + ShlWrap(a, i)) % WORD32 else result) ==
      (a * (b % Adder.Pow2(i + 1))) % WORD32
  {
    var low, p := b % Adder.Pow2(i), Adder.Pow2(i);
    Adder.BitSplit(b, i);
    if Adder.TestBit(b, i) {
      assert a * (low + p) == a * low + a * p;
      ModAdd(a * low, ShlWrap(a, i), WORD32);
      ModAdd(a * p, a * low, WORD32);
    }
  }

  /** Shift-and-add: after bit `i` the result is `a` times the low `i` bits
      of `b`, modulo `2^32`. */
  method Product(a: U32, b: U32) returns (result: U32)
    ensures result == (a * b) % WORD32
  {
    result := 0;
    for i := 0 to 32
      invariant result == (a * (b % Adder.Pow2(i))) % WORD32
    {
      ProductStep(a, b, i, result);
      if Adder.TestBit(b, i) {
        result := (result + ShlWrap(a, i)) % WORD32;
      }
    }
    Adder.WordIsPow2();
    assert b % Adder.Pow2(32) == b;
  }
}
