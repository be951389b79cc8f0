/** Fixed-width machine words as natural numbers, with the bit operations of the
    address code given bit by bit, and what they mean as division and remainder. */
module Bits {

  function Pow2(n: nat): (r: nat)
    ensures r >= 1
  {
    if n == 0 then 1 else 2 * Pow2(n - 1)
  }

  /** Bitwise conjunction. */
  function And(a: nat, b: nat): nat {
    if a == 0 || b == 0 then 0 else 2 * And(a / 2, b / 2) + (if a % 2 == 1 && b % 2 == 1 then 1 else 0)
  }

  /** Bitwise exclusive or. */
  function Xor(a: nat, b: nat): nat
    decreases a + b
  {
    if a == 0 && b == 0 then 0
    else 2 * Xor(a / 2, b / 2) + (if a % 2 == b % 2 then 0 else 1)
  }

  /** Right shift of a word of `width` bits. Shifting by the whole width is an
      overflow in the program, so it is a precondition here. */
  function Shr(width: nat, a: nat, k: nat): nat
    requires k < width
  {
    if k == 0 then a else Shr(width, a / 2, k - 1)
  }

  /** The word with only bit `k` set. */
  function Shl1(width: nat, k: nat): nat
    requires k < width
  {
    Pow2(k)
  }

  lemma MulMonotone(s: nat, x: int, y: int)
    requires x <= y
    ensures s * x <= s * y
    ensures x < y ==> s * x + s <= s * y
  {
    assert s * (x + 1) == s * x + s;
  }

  lemma DivUnique(x: int, d: nat, q: int)
    requires d > 0 && q * d <= x < q * d + d
    ensures x / d == q
  {
    var p := x / d;
    assert x == d * p + x % d;
    if p <= q {
      MulMonotone(d, p, q);
    } else {
      MulMonotone(d, q, p);
    }
  }

  lemma Quotient(a: nat, s: nat) returns (q: nat)
    requires s > 0 && a % s == 0
    ensures a == s * q
  {
    q := a / s;
  }

  lemma MultipleOf(s: nat, q: nat)
    requires s > 0
    ensures (s * q) % s == 0 && (s * q) / s == q
  {
    DivUnique(s * q, s, q);
  }

  lemma HalveRemainder(x: nat, p: nat)
    requires p > 0
    ensures x % (2 * p) == 2 * ((x / 2) % p) + x % 2
  {
    HalveThenDivide(x, p);
  }

  lemma HalveThenDivide(x: nat, p: nat)
    requires p > 0
    ensures (x / 2) / p == x / (2 * p)
    ensures x % (2 * p) == 2 * ((x / 2) % p) + x % 2
  {
    var q := (x / 2) / p;
    var r := (x / 2) % p;
    assert x == 2 * (q * p + r) + x % 2;
    assert q * (2 * p) == 2 * (q * p);
    DivUnique(x, 2 * p, q);
    assert x % (2 * p) == x - q * (2 * p);
  }

  lemma DoubleProduct(x: nat, y: nat)
    ensures (2 * x) * y == 2 * (x * y)
  {}

  lemma {:induction false} Pow2Sum(m: nat, n: nat)
    ensures Pow2(m + n) == Pow2(m) * Pow2(n)
  {
    if m != 0 {
      Pow2Sum(m - 1, n);
      DoubleProduct(Pow2(m - 1), Pow2(n));
    }
  }

  lemma {:induction false} ShrIsDivision(width: nat, a: nat, k: nat)
    requires k < width
    ensures Shr(width, a, k) == a / Pow2(k)
  {
    if k != 0 {
      ShrIsDivision(width, a / 2, k - 1);
      HalveThenDivide(a, Pow2(k - 1));
    }
  }

  /** Masking with the k lowest bits is the remainder modulo 2^k. */
  lemma {:induction false} MaskIsRemainder(a: nat, k: nat)
    ensures And(a, Pow2(k) - 1) == a % Pow2(k)
  {
    hide And;
    AndZero(a, Pow2(k) - 1);
    if a == 0 {
      MultipleOf(Pow2(k), 0);
    } else if k != 0 {
      MaskIsRemainder(a / 2, k - 1);
      MaskOneBitMore(a, Pow2(k - 1));
    }
  }

  lemma AndZero(a: nat, b: nat)
    ensures And(0, b) == 0 && And(a, 0) == 0
  {}

  lemma MaskOneBitMore(a: nat, p: nat)
    requires a > 0 && p > 0 && And(a / 2, p - 1) == (a / 2) % p
    ensures And(a, 2 * p - 1) == a % (2 * p)
  {
    HalveRemainder(a, p);
    AndOddMask(a, p);
  }

  lemma AndOddMask(a: nat, p: nat)
    requires a > 0 && p > 0
    ensures And(a, 2 * p - 1) == 2 * And(a / 2, p - 1) + a % 2
  {
    var m := 2 * p - 1;
    assert m / 2 == p - 1 && m % 2 == 1;
  }

  /** The k lowest bits of the word are zero. */
  predicate LowBitsZero(a: nat, k: nat) {
    k == 0 || (a % 2 == 0 && LowBitsZero(a / 2, k - 1))
  }

  lemma {:induction false} LowBitsZeroIsMultiple(a: nat, k: nat)
    ensures LowBitsZero(a, k) <==> a % Pow2(k) == 0
  {
    if k != 0 {
      LowBitsZeroIsMultiple(a / 2, k - 1);
      HalveRemainder(a, Pow2(k - 1));
    }
  }

  lemma {:induction false} XorZero(a: nat, b: nat)
    ensures Xor(a, b) == 0 <==> a == b
    decreases a + b
  {
    if a != 0 || b != 0 {
      XorZero(a / 2, b / 2);
    }
  }

  /** The exclusive or is the single bit k exactly when the words agree below and
      above bit k and differ in it. */
  lemma {:induction false} XorIsOneBit(a: nat, b: nat, k: nat)
    ensures Xor(a, b) == Pow2(k) <==>
            a % Pow2(k) == b % Pow2(k) && a / Pow2(k) != b / Pow2(k) && a / Pow2(k + 1) == b / Pow2(k + 1)
    decreases k
  {
    if k == 0 {
      XorZero(a / 2, b / 2);
      XorZero(a, b);
      assert Pow2(1) == 2;
    } else {
      XorIsOneBit(a / 2, b / 2, k - 1);
      HalveThenDivide(a, Pow2(k - 1));
      HalveThenDivide(b, Pow2(k - 1));
      HalveThenDivide(a, Pow2(k));
      HalveThenDivide(b, Pow2(k));
    }
  }
}
