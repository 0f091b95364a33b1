/** Ripple-carry addition of two machine words (src/adder.rs). `usize` is
    fixed at 64 bits and modelled by its value: bit `i` of `x` is
    `(x / 2^i) % 2`, and OR-ing a bit into a position that is still clear
    adds its weight. */
module Adder {

  function Pow2(i: nat): (p: nat)
    ensures p >= 1
  {
    if i == 0 then 1 else 2 * Pow2(i - 1)
  }

  /** `usize::BITS` is 64. */
  const BITS: nat := 64

  const WORD: nat := 0x1_0000_0000_0000_0000

  type Usize = x: int | 0 <= x < WORD

  const USIZE_MAX: Usize := WORD - 1

  /** `u32`, for the other bit-level operations. */
  const WORD32: nat := 0x1_0000_0000

  type U32 = x: int | 0 <= x < WORD32

  /** `x & (1 << i) > 0`: bit `i` of `x` is set. */
  predicate TestBit(x: nat, i: nat)
  {
    (x / Pow2(i)) % 2 == 1
  }

  /** What `add` computes: the sum with the carry out of the top bit
      dropped. */
  function WrappingAdd(left: Usize, right: Usize): (s: Usize)
    ensures s == left + right || s == left + right - WORD
    ensures s == left + right <==> left + right < WORD
  {
    (left + right) % WORD
  }

  /** A non-zero multiple of `d` is at least `d` away from 0. */
  lemma MultipleBounds(k: int, d: int)
    requires d > 0
    ensures k >= 1 ==> k * d >= d
    ensures k <= -1 ==> k * d <= -d
  {
    if k >= 1 {
      assert k * d == (k - 1) * d + d;
    }
    if k <= -1 {
      assert k * d == (k + 1) * d - d;
    }
  }

  lemma ModUnique(x: int, a: int, d: int, t: int)
    requires d > 0 && 0 <= t < d && x == a * d + t
    ensures x % d == t
  {
    var q, r := x / d, x % d;
    assert (a - q) * d == r - t;
    MultipleBounds(a - q, d);
  }

  /** The low `i + 1` bits are the low `i` bits plus bit `i`. */
  lemma BitSplit(x: nat, i: nat)
    ensures x % Pow2(i + 1) == x % Pow2(i) + (if TestBit(x, i) then Pow2(i) else 0)
  {
    var p := Pow2(i);
    var q, r := x / p, x % p;
    var b := q % 2;
    assert q == 2 * (q / 2) + b;
    assert x == q * p + r;
    assert x == (q / 2) * (2 * p) + (b * p + r) by {
      assert q * p == (2 * (q / 2) + b) * p;
    }
    ModUnique(x, q / 2, 2 * p, b * p + r);
  }

  lemma {:induction false} Pow2Add(a: nat, b: nat)
    ensures Pow2(a + b) == Pow2(a) * Pow2(b)
  {
    if a > 0 {
      Pow2Add(a - 1, b);
    }
  }

  lemma WordIsPow2()
    ensures Pow2(32) == WORD32
    ensures Pow2(BITS) == WORD
  {
    assert Pow2(8) == 256;
    Pow2Add(8, 8);
    assert Pow2(16) == 0x1_0000;
    Pow2Add(16, 16);
    assert Pow2(32) == 0x1_0000_0000;
    Pow2Add(32, 32);
  }

  /** One full adder: the sum bit is the XOR of the three inputs and the
      carry their majority, so together they count the ones among them. */
  lemma FullAdder(a: bv1, b: bv1, c: bv1)
    ensures a as int + b as int + c as int ==
      (a ^ b ^ c) as int + 2 * ((a & b) | (a & c) | (b & c)) as int
  {
  }

  /** `add`: after bit `i` the result holds the low `i` bits of the sum
      and the carry is the carry out of them. */
  method Add(left: Usize, right: Usize) returns (result: Usize)
    ensures result == WrappingAdd(left, right)
  {
    var sum: nat := 0;
    var carry: bv1 := 0;
    for i := 0 to BITS
      invariant sum < Pow2(i)
      invariant sum + (if carry == 1 then Pow2(i) else 0) == left % Pow2(i) + right % Pow2(i)
    {
      var mask := Pow2(i);
      var leftBit: bv1 := if TestBit(left, i) then 1 else 0;
      var rightBit: bv1 := if TestBit(right, i) then 1 else 0;
      var sumBit := leftBit ^ rightBit ^ carry;
      FullAdder(leftBit, rightBit, carry);
      carry := (leftBit & rightBit) | (leftBit & carry) | (rightBit & carry);
      BitSplit(left, i);
      BitSplit(right, i);
      sum := sum + (if sumBit == 1 then mask else 0);
    }
    WordIsPow2();
    assert left % WORD == left && right % WORD == right;
    result := sum;
  }

  /** The order of the operands does not matter. */
  lemma WrappingAddCommutes(left: Usize, right: Usize)
    ensures WrappingAdd(left, right) == WrappingAdd(right, left)
  {
  }

  /** The source's tests, and the wrap-around they stop short of. */
  lemma AddExamples()
    ensures WrappingAdd(2, 2) == 4
    ensures WrappingAdd(2, 0) == 2
    ensures WrappingAdd(0, 0) == 0
    ensures WrappingAdd(USIZE_MAX, 0) == USIZE_MAX
    ensures WrappingAdd(USIZE_MAX, 1) == 0
  {
  }
}
