/** The reflected binary Gray code of src/gray_code.rs. As in `Adder`, a
    `u32` is modelled by its value: `n >> 1` is `n / 2` and `^` is `Xor`
    below, the bitwise exclusive or of two naturals. */
module Gray {
  import opened Adder

  // ---------------------------------------------------------------------
  // Exclusive or on naturals.

  /** `a ^ b`, lowest bit first. */
  function Xor(a: nat, b: nat): nat
    decreases a + b
  {
    if a == 0 && b == 0 then 0 else 2 * Xor(a / 2, b / 2) + (a + b) % 2
  }

  /** Every pair of naturals splits into its lowest bits and the rest. */
  lemma XorSplit(a: nat, b: nat)
    ensures Xor(a, b) == 2 * Xor(a / 2, b / 2) + (a + b) % 2
  {
  }

  lemma DivPow2Succ(x: nat, i: nat)
    ensures x / Pow2(i + 1) == (x / 2) / Pow2(i)
  {
    DivTwice(x, Pow2(i));
  }

  /** Dividing by `2 * d` is halving and then dividing by `d`. */
  lemma DivTwice(x: nat, d: nat)
    requires d > 0
    ensures x / (2 * d) == (x / 2) / d
  {
    var e := 2 * d;
    var q, r := x / e, x % e;
    DivMod(x, e, q, r);
    DivTwiceWith(x, d, e, q, r);
  }

  lemma DivMod(x: nat, e: nat, q: int, r: int)
    requires e > 0 && q == x / e && r == x % e
    ensures x == q * e + r && 0 <= q && 0 <= r < e
  {
  }

  lemma DivTwiceWith(x: nat, d: nat, e: nat, q: nat, r: nat)
    requires d > 0 && e == 2 * d && x == q * e + r && r < e
    ensures (x / 2) / d == q
  {
    var m := q * d;
    Double(q, d, e, m);
    Halve(x, m, r);
    DivUnique(x / 2, q, d, r / 2);
  }

  lemma Double(q: nat, d: nat, e: nat, m: nat)
    requires e == 2 * d && m == q * d
    ensures q * e == 2 * m
  {
  }

  lemma Halve(x: nat, m: nat, r: nat)
    requires x == 2 * m + r
    ensures x / 2 == m + r / 2
  {
  }

  lemma DivUnique(x: nat, q: nat, d: nat, t: nat)
    requires d > 0 && t < d && x == q * d + t
    ensures x / d == q
  {
    ModUnique(x, q, d, t);
  }

  /** Bit 0 of `a ^ b` is the parity of `a + b`; the rest is `Xor` of
      the rest. */
  lemma XorHalves(a: nat, b: nat)
    ensures Xor(a, b) / 2 == Xor(a / 2, b / 2)
    ensures Xor(a, b) % 2 == (a + b) % 2
  {
    XorSplit(a, b);
  }

  /** `Xor` is bitwise: bit `i` of `a ^ b` is set exactly when bit `i` is
      set in one operand and not the other. */
  lemma {:induction false} XorBits(a: nat, b: nat, i: nat)
    ensures TestBit(Xor(a, b), i) <==> TestBit(a, i) != TestBit(b, i)
  {
    if i == 0 {
      XorLowBit(a, b);
    } else {
      XorBits(a / 2, b / 2, i - 1);
      XorHigherBit(a, b, i - 1);
    }
  }

  lemma XorLowBit(a: nat, b: nat)
    ensures TestBit(Xor(a, b), 0) <==> TestBit(a, 0) != TestBit(b, 0)
  {
    var x := Xor(a, b);
    XorHalves(a, b);
    LowBit(x);
    LowBit(a);
    LowBit(b);
    SumOdd(a, b, x);
  }

  /** A sum is odd exactly when one of its two terms is. */
  lemma SumOdd(a: nat, b: nat, x: nat)
    requires x % 2 == (a + b) % 2
    ensures x % 2 == 1 <==> (a % 2 == 1) != (b % 2 == 1)
  {
    Split(a, a / 2, a % 2);
    Split(b, b / 2, b % 2);
  }

  lemma XorHigherBit(a: nat, b: nat, i: nat)
    ensures TestBit(Xor(a, b), i + 1) <==> TestBit(Xor(a / 2, b / 2), i)
    ensures TestBit(a, i + 1) <==> TestBit(a / 2, i)
    ensures TestBit(b, i + 1) <==> TestBit(b / 2, i)
  {
    XorHalves(a, b);
    HigherBit(Xor(a, b), i);
    HigherBit(a, i);
    HigherBit(b, i);
  }

  lemma LowBit(x: nat)
    ensures TestBit(x, 0) <==> x % 2 == 1
  {
  }

  /** Bit `i + 1` of `x` is bit `i` of `x >> 1`. */
  lemma HigherBit(x: nat, i: nat)
    ensures TestBit(x, i + 1) <==> TestBit(x / 2, i)
  {
    DivPow2Succ(x, i);
  }

  lemma {:induction false} XorSelf(a: nat)
    ensures Xor(a, a) == 0
    decreases a
  {
    if a > 0 {
      XorSelf(a / 2);
    }
  }

  lemma {:induction false} XorZero(a: nat)
    ensures Xor(a, 0) == a
    decreases a
  {
    if a > 0 {
      XorZero(a / 2);
    }
  }

  lemma Parity(u: nat, a: nat, b: nat, c: nat)
    requires u % 2 == (a + b) % 2
    ensures (u + c) % 2 == (a + b + c) % 2
  {
  }

  lemma {:induction false} XorAssociates(a: nat, b: nat, c: nat)
    ensures Xor(Xor(a, b), c) == Xor(a, Xor(b, c))
    decreases a + b + c
  {
    var ab, bc := Xor(a, b), Xor(b, c);
    XorHalves(a, b);
    XorHalves(b, c);
    XorSplit(ab, c);
    XorSplit(a, bc);
    Parity(ab, a, b, c);
    Parity(bc, b, c, a);
    if a > 0 || b > 0 || c > 0 {
      XorAssociates(a / 2, b / 2, c / 2);
    } else {
      XorZero(0);
    }
  }

  /** XOR-ing the same value twice gives back what was there. */
  lemma Cancel(a: nat, b: nat)
    ensures Xor(Xor(a, b), b) == a
  {
    XorAssociates(a, b, b);
    XorSelf(b);
    XorZero(a);
  }

  /** Below `2^k` on both sides, below `2^k` afterwards. */
  lemma {:induction false} XorBound(a: nat, b: nat, k: nat)
    requires a < Pow2(k) && b < Pow2(k)
    ensures Xor(a, b) < Pow2(k)
    decreases k
  {
    if k > 0 && (a > 0 || b > 0) {
      XorBound(a / 2, b / 2, k - 1);
    }
  }

  // ---------------------------------------------------------------------
  // The code.

  /** `n ^ (n >> 1)`: bit `i` of the code is bit `i` of `n` XOR bit
      `i + 1`. */
  function Code(n: nat): nat
  {
    Xor(n, n / 2)
  }

  /** `gray_code`, on a `u32`; the code of a `u32` is again a `u32`, and
      `Decode` recovers `n` from it. */
  function GrayCode(n: U32): (g: U32)
    ensures Decode(g) == n
    ensures g == 0 <==> n == 0
  {
    DecodeCode(n);
    CodeZero(n);
    WordIsPow2();
    XorBound(n, n / 2, 32);
    Code(n)
  }

  lemma CodeBits(n: nat, i: nat)
    ensures TestBit(Code(n), i) <==> TestBit(n, i) != TestBit(n, i + 1)
  {
    XorBits(n, n / 2, i);
    DivPow2Succ(n, i);
  }

  /** Shifting the code right by one is coding the shifted number; the
      lowest bit is bit 0 XOR bit 1. */
  lemma CodeHalf(n: nat)
    ensures Code(n) / 2 == Code(n / 2)
    ensures Code(n) % 2 == (n + n / 2) % 2
  {
    XorSplit(n, n / 2);
  }

  /** The XOR of all right shifts of `g`: the inverse of the code. */
  function Decode(g: nat): nat
    decreases g
  {
    if g == 0 then 0 else Xor(g, Decode(g / 2))
  }

  /** Only zero codes to zero. */
  lemma {:induction false} CodeZero(n: nat)
    ensures Code(n) == 0 <==> n == 0
    decreases n
  {
    CodeHalf(n);
    if n > 0 && Code(n) == 0 {
      CodeZero(n / 2);
    }
  }

  /** Decoding undoes the code, so no information is lost. */
  lemma {:induction false} DecodeCode(n: nat)
    ensures Decode(Code(n)) == n
    decreases n
  {
    CodeZero(n);
    if n > 0 {
      CodeHalf(n);
      DecodeCode(n / 2);
      Cancel(n, n / 2);
    }
  }

  /** Different numbers have different codes. */
  lemma Injective(x: U32, y: U32)
    ensures GrayCode(x) == GrayCode(y) <==> x == y
  {
    DecodeCode(x);
    DecodeCode(y);
  }

  /** Numbers below `2^k` have codes below `2^k`. */
  lemma Bound(n: U32, k: nat)
    requires n < Pow2(k)
    ensures GrayCode(n) < Pow2(k)
  {
    XorBound(n, n / 2, k);
  }

  /** The top bit of a `u32` passes through unchanged. */
  lemma TopBit(n: U32)
    ensures TestBit(GrayCode(n), 31) <==> TestBit(n, 31)
  {
    CodeBits(n, 31);
    WordIsPow2();
    assert n / Pow2(32) == 0;
  }

  /** How many ones `n` ends in: the position of its lowest clear bit. */
  function TrailingOnes(n: nat): nat
  {
    if n % 2 == 1 then 1 + TrailingOnes(n / 2) else 0
  }

  /** Two numbers with the parities of `t` and `t + d` sum to the parity
      of `d`. */
  lemma SumParity(x: nat, y: nat, t: nat)
    requires x % 2 == t % 2
    ensures y % 2 == (t + 2) % 2 ==> (x + y) % 2 == 0
    ensures y % 2 == (t + 1) % 2 ==> (x + y) % 2 == 1
  {
  }

  /** Consecutive numbers have codes exactly one bit apart: counting up
      flips the bit at the position of the lowest clear bit of `n`. */
  lemma {:induction false} Adjacent(n: nat)
    ensures Xor(Code(n), Code(n + 1)) == Pow2(TrailingOnes(n))
    decreases n
  {
    if n % 2 == 1 {
      Adjacent(n / 2);
      AdjacentOdd(n);
    } else {
      AdjacentEven(n);
    }
  }

  /** From an even number only bit 0 changes. */
  lemma AdjacentEven(n: nat)
    requires n % 2 == 0
    ensures Xor(Code(n), Code(n + 1)) == Pow2(TrailingOnes(n))
  {
    var m, g0, g1 := n / 2, Code(n), Code(n + 1);
    CodeHalf(n);
    CodeHalf(n + 1);
    XorSplit(g0, g1);
    assert (n + 1) / 2 == m;
    assert g1 % 2 == (n + m + 1) % 2;
    SumParity(g0, g1, n + m);
    XorSelf(Code(m));
  }

  /** From an odd number bit 0 stays and the change happens in `n >> 1`. */
  lemma AdjacentOdd(n: nat)
    requires n % 2 == 1
    requires Xor(Code(n / 2), Code(n / 2 + 1)) == Pow2(TrailingOnes(n / 2))
    ensures Xor(Code(n), Code(n + 1)) == Pow2(TrailingOnes(n))
  {
    var m, g0, g1 := n / 2, Code(n), Code(n + 1);
    CodeHalf(n);
    CodeHalf(n + 1);
    XorSplit(g0, g1);
    assert (n + 1) / 2 == m + 1;
    assert g1 % 2 == (n + m + 2) % 2;
    SumParity(g0, g1, n + m);
    assert TrailingOnes(n) == TrailingOnes(m) + 1;
  }

  /** The code of `2^(k+1)` is `2^(k+1) + 2^k`: a power of two sets the
      bit below it. */
  lemma {:induction false} CodePow2(k: nat)
    ensures Code(Pow2(k + 1)) == Pow2(k + 1) + Pow2(k)
  {
    if k == 0 {
      CodeTwo();
    } else {
      CodePow2(k - 1);
      CodePow2Step(k);
    }
  }

  lemma CodeTwo()
    ensures Code(2) == 3
  {
    assert Xor(1, 0) == 1;
  }

  lemma CodePow2Step(k: nat)
    requires k > 0 && Code(Pow2(k)) == Pow2(k) + Pow2(k - 1)
    ensures Code(Pow2(k + 1)) == Pow2(k + 1) + Pow2(k)
  {
    var n, p, h := Pow2(k + 1), Pow2(k), Pow2(k - 1);
    assert n == 2 * p && p == 2 * h;
    assert n / 2 == p;
    CodeHalf(n);
    Reassemble(Code(n), n, p, h);
  }

  /** A number is twice its half plus its lowest bit. */
  lemma Reassemble(c: nat, n: nat, p: nat, h: nat)
    requires c / 2 == p + h && c % 2 == (n + p) % 2 && n == 2 * p && p == 2 * h
    ensures c == n + p
  {
    Split(c, c / 2, c % 2);
    Even(n + p, 3 * h);
  }

  lemma Split(c: int, q: int, b: int)
    requires q == c / 2 && b == c % 2
    ensures c == 2 * q + b
  {
  }

  lemma Even(x: int, m: int)
    requires x == 2 * m
    ensures x % 2 == 0
  {
  }

  /** The source's table. */
  lemma Examples()
    ensures GrayCode(0) == 0 && GrayCode(1) == 1 && GrayCode(2) == 3
    ensures GrayCode(3) == 2 && GrayCode(4) == 6 && GrayCode(5) == 7
    ensures GrayCode(6) == 5 && GrayCode(7) == 4 && GrayCode(8) == 12
    ensures GrayCode(2147483648) == 3221225472
  {
    WordIsPow2();
    assert Pow2(31) == 2147483648;
    assert Pow2(30) == 1073741824;
    CodePow2(30);
  }
}
