/** Powers of two and the bit-level arithmetic of the allocator: the source computes block
    orders with `next_power_of_two().trailing_zeros()` and buddy addresses with `^`. */
module Bits {

  function Pow2(e: nat): (r: nat)
    ensures r > 0
  {
    if e == 0 then 1 else 2 * Pow2(e - 1)
  }

  /** Bitwise exclusive or of two unsigned machine words. */
  function Xor(a: nat, b: nat): nat {
    if a == 0 && b == 0 then 0 else (a + b) % 2 + 2 * Xor(a / 2, b / 2)
  }

  /** `usize::next_power_of_two`, doubling from `p` until `n` is reached. */
  function NextPow2From(n: nat, p: nat): (r: nat)
    requires p > 0
    ensures r > 0
    decreases if p < n then n - p else 0
  {
    if n <= p then p else NextPow2From(n, 2 * p)
  }

  function NextPow2(n: nat): (r: nat)
    ensures r > 0
  {
    NextPow2From(n, 1)
  }

  /** `usize::trailing_zeros` of a non-zero word. */
  function TrailingZeros(n: nat): nat
    requires n > 0
  {
    if n % 2 == 1 then 0 else 1 + TrailingZeros(n / 2)
  }

  /** `allocator::order`. */
  function Order(size: nat): nat {
    TrailingZeros(NextPow2(size))
  }

  predicate IsPow2(n: nat) {
    n == NextPow2(n)
  }

  lemma {:induction false} TrailingZerosPow2(e: nat)
    ensures TrailingZeros(Pow2(e)) == e
  {
    if e > 0 {
      TrailingZerosPow2(e - 1);
    }
  }

  lemma {:induction false} NextPow2FromIsLeast(n: nat, e: nat) returns (o: nat)
    requires e > 0 ==> Pow2(e - 1) < n
    ensures NextPow2From(n, Pow2(e)) == Pow2(o)
    ensures n <= Pow2(o)
    ensures o > 0 ==> Pow2(o - 1) < n
    decreases if Pow2(e) < n then n - Pow2(e) else 0
  {
    if n <= Pow2(e) {
      o := e;
    } else {
      o := NextPow2FromIsLeast(n, e + 1);
    }
  }

  /** The order of a size is the least exponent whose power of two is large enough. */
  lemma OrderIsLeast(n: nat)
    ensures NextPow2(n) == Pow2(Order(n))
    ensures n <= Pow2(Order(n))
    ensures Order(n) > 0 ==> Pow2(Order(n) - 1) < n
  {
    assert Pow2(0) == 1;
    var o := NextPow2FromIsLeast(n, 0);
    TrailingZerosPow2(o);
  }

  lemma {:induction false} Pow2Monotone(a: nat, b: nat)
    requires a <= b
    ensures Pow2(a) <= Pow2(b)
    ensures a < b ==> 2 * Pow2(a) <= Pow2(b)
    decreases b
  {
    if a < b {
      Pow2Monotone(a, b - 1);
    }
  }

  /** Any exponent with the same two bounds is the order. */
  lemma OrderUnique(n: nat, o: nat)
    requires n <= Pow2(o)
    requires o > 0 ==> Pow2(o - 1) < n
    ensures Order(n) == o
  {
    OrderIsLeast(n);
    if Order(n) < o {
      Pow2Monotone(Order(n), o - 1);
    } else if o < Order(n) {
      Pow2Monotone(o, Order(n) - 1);
    }
  }

  /** `a << e`. */
  function Shl(a: nat, e: nat): nat {
    if e == 0 then a else 2 * Shl(a, e - 1)
  }

  lemma {:induction false} ShlOne(e: nat)
    ensures Shl(1, e) == Pow2(e)
  {
    if e > 0 {
      ShlOne(e - 1);
    }
  }

  lemma {:induction false} ShlSucc(a: nat, e: nat)
    ensures Shl(a + 1, e) == Shl(a, e) + Pow2(e)
  {
    if e > 0 {
      ShlSucc(a, e - 1);
    }
  }

  lemma {:induction false} ShlDouble(a: nat, e: nat)
    ensures Shl(2 * a, e) == Shl(a, e + 1)
  {
    if e > 0 {
      ShlDouble(a, e - 1);
    }
  }

  /** Shifting by the page bits multiplies by the page size. */
  lemma ShlPage(a: nat)
    ensures Shl(a, 12) == 4096 * a
  {
    assert Shl(a, 1) == 2 * a;
    assert Shl(a, 2) == 4 * a;
    assert Shl(a, 4) == 16 * a;
    assert Shl(a, 6) == 64 * a;
    assert Shl(a, 8) == 256 * a;
    assert Shl(a, 10) == 1024 * a;
  }

  lemma XorStep(x: nat, r: nat)
    ensures Xor(2 * x, r) == r % 2 + 2 * Xor(x, r / 2)
  {
    assert (2 * x + r) % 2 == r % 2;
  }

  /** Shifting both operands left shifts the exclusive or. */
  lemma {:induction false} XorShl(a: nat, b: nat, e: nat)
    ensures Xor(Shl(a, e), Shl(b, e)) == Shl(Xor(a, b), e)
  {
    if e > 0 {
      XorShl(a, b, e - 1);
      XorStep(Shl(a, e - 1), Shl(b, e));
    }
  }

  /** With an operand whose low bits are clear, exclusive or adds the low bits. */
  lemma {:induction false} XorLow(a: nat, r: nat, e: nat)
    requires r < Pow2(e)
    ensures Xor(Shl(a, e), r) == Shl(a, e) + r
  {
    if e == 0 {
      XorZero(a);
    } else {
      XorLow(a, r / 2, e - 1);
      XorStep(Shl(a, e - 1), r);
    }
  }

  lemma {:induction false} XorZero(a: nat)
    ensures Xor(a, 0) == a
  {
    if a > 0 {
      XorZero(a / 2);
    }
  }

  /** Exclusive or with one flips the parity: the number of the buddy. */
  lemma XorOne(k: nat)
    ensures Xor(k, 1) == if k % 2 == 0 then k + 1 else k - 1
  {
    XorZero(k / 2);
  }
}
