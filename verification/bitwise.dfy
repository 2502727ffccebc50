/** The bitwise exclusive or of JavaScript's `^` operator, on the
    non-negative operands the wallet code applies it to (UTF-16 code units,
    so ToInt32 leaves them unchanged). */
module Bitwise {

  function Pow2(k: nat): (p: nat)
    ensures p >= 1
  {
    if k == 0 then 1 else 2 * Pow2(k - 1)
  }

  /** Bit by bit, least significant bit first: a bit of the result is set
      exactly when the bits of the operands differ. */
  function Xor(a: nat, b: nat): (r: nat)
    ensures r % 2 == (if a % 2 == b % 2 then 0 else 1)
    ensures a == b ==> r == 0
    ensures r <= a + b
    decreases a + b
  {
    if a == 0 && b == 0 then 0
    else 2 * Xor(a / 2, b / 2) + (if a % 2 == b % 2 then 0 else 1)
  }

  /** The lowest bit of `Xor(a, b)` is the exclusive or of the lowest bits,
      and the higher bits are the exclusive or of the higher bits. */
  lemma {:induction false} XorBits(a: nat, b: nat)
    ensures Xor(a, b) % 2 == (if a % 2 == b % 2 then 0 else 1)
    ensures Xor(a, b) / 2 == Xor(a / 2, b / 2)
  {
  }

  /** Exclusive or with zero changes nothing. */
  lemma {:induction false} XorZero(a: nat)
    ensures Xor(a, 0) == a
    decreases a
  {
    if a != 0 {
      XorZero(a / 2);
    }
  }

  /** Applying the same mask twice gives the value back. */
  lemma {:induction false} XorSelfInverse(a: nat, b: nat)
    ensures Xor(Xor(a, b), b) == a
    decreases a + b
  {
    var x := Xor(a, b);
    if a == 0 && b == 0 {
    } else if x == 0 && b == 0 {
      XorZero(a);
    } else {
      XorBits(a, b);
      XorSelfInverse(a / 2, b / 2);
      assert Xor(x, b) == 2 * Xor(x / 2, b / 2) + (if x % 2 == b % 2 then 0 else 1);
    }
  }

  /** Operands of at most `k` bits give a result of at most `k` bits. */
  lemma {:induction false} XorBelow(a: nat, b: nat, k: nat)
    requires a < Pow2(k) && b < Pow2(k)
    ensures Xor(a, b) < Pow2(k)
    decreases k
  {
    if k > 0 && (a != 0 || b != 0) {
      XorBelow(a / 2, b / 2, k - 1);
    }
  }
}
