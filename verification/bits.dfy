/** Python's `&` on non-negative integers, and the fact the cluster translation
    relies on: masking with `n - 1` is the remainder modulo `n` when `n` is a
    power of two. */
module Bits {

  predicate IsPowerOfTwo(n: nat)
    decreases n
  {
    n == 1 || (n >= 2 && n % 2 == 0 && IsPowerOfTwo(n / 2))
  }

  /** Bitwise AND of two non-negative integers, one binary digit at a time. */
  function BitAnd(a: nat, b: nat): (r: nat)
    decreases a
    ensures r <= a && r <= b
  {
    if a == 0 || b == 0 then 0
    else 2 * BitAnd(a / 2, b / 2) + (if a % 2 == 1 && b % 2 == 1 then 1 else 0)
  }

  /** Reference definition of bit `k` of `a`. */
  function Bit(a: nat, k: nat): bool
    decreases k
  {
    if k == 0 then a % 2 == 1 else Bit(a / 2, k - 1)
  }

  /** BitAnd agrees with the bitwise reading: bit `k` of the result is set
      exactly when bit `k` is set in both operands. */
  lemma {:induction false} BitAndBits(a: nat, b: nat, k: nat)
    decreases k
    ensures Bit(BitAnd(a, b), k) <==> Bit(a, k) && Bit(b, k)
  {
    if a == 0 || b == 0 {
      ZeroHasNoBits(k);
      if a == 0 { assert !Bit(a, k); } else { assert !Bit(b, k); }
    } else {
      var bit := if a % 2 == 1 && b % 2 == 1 then 1 else 0;
      DoubleHalves(BitAnd(a / 2, b / 2), bit);
      if k > 0 {
        BitAndBits(a / 2, b / 2, k - 1);
      }
    }
  }

  lemma DoubleHalves(x: nat, bit: nat)
    requires bit < 2
    ensures (2 * x + bit) / 2 == x && (2 * x + bit) % 2 == bit
  {
  }

  lemma {:induction false} ZeroHasNoBits(k: nat)
    decreases k
    ensures !Bit(0, k)
  {
    if k > 0 {
      ZeroHasNoBits(k - 1);
    }
  }

  /** `a & (n - 1) == a % n` for every power of two `n`. */
  lemma {:induction false} MaskIsMod(a: nat, n: nat)
    requires IsPowerOfTwo(n)
    decreases n
    ensures BitAnd(a, n - 1) == a % n
  {
    if n == 1 {
    } else {
      var m := n / 2;
      assert IsPowerOfTwo(m);
      if a == 0 {
      } else {
        MaskIsMod(a / 2, m);
        assert (n - 1) / 2 == m - 1 && (n - 1) % 2 == 1;
        assert BitAnd(a, n - 1) == 2 * ((a / 2) % m) + a % 2;
        ModOfDouble(a, m);
      }
    }
  }

  lemma ModOfDouble(a: nat, m: nat)
    requires m > 0
    ensures a % (2 * m) == 2 * ((a / 2) % m) + a % 2
  {
    var q, r := (a / 2) / m, (a / 2) % m;
    assert a / 2 == q * m + r;
    assert a == 2 * (a / 2) + a % 2;
    assert a == q * (2 * m) + (2 * r + a % 2);
    ModUnique(a, 2 * m, q, 2 * r + a % 2);
  }

  /** Euclidean division is unique: a quotient/remainder pair pins down `%`. */
  lemma ModUnique(a: nat, d: nat, q: int, r: int)
    requires d > 0 && 0 <= r < d && a == q * d + r
    ensures a % d == r
  {
    var q', r' := a / d, a % d;
    assert a == q' * d + r';
    var k := q - q';
    assert k * d == q * d - q' * d by { MulSub(q, q', d); }
    assert k * d == r' - r;
    if k > 0 {
      MulAtLeast(k, d);
    } else if k < 0 {
      MulAtLeast(-k, d);
    }
  }

  lemma MulSub(x: int, y: int, d: int)
    ensures (x - y) * d == x * d - y * d
  {
  }

  lemma MulAtLeast(k: int, d: int)
    requires k >= 1 && d >= 0
    ensures k * d >= d
  {
  }
}
