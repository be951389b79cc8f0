/** One CIDR network over addresses of `w` bits (32 for IPv4, 128 for IPv6). The
    operations work on bits, as the program does; the lemmas say what they mean
    for the range of addresses a network stands for. */
module Nets {
  import opened Bits
  import opened Wrappers

  datatype Net = Net(address: nat, prefixLen: nat)

  datatype NetError = BadPrefixLen | NotNetworkAddress

  // ----- the program's operations -----

  function New(w: nat, address: nat, prefixLen: nat): Result<Net, NetError> {
    if prefixLen > w then Err(BadPrefixLen)
    else if prefixLen != w && And(address, Shr(w, Pow2(w) - 1, prefixLen)) != 0 then Err(NotNetworkAddress)
    else Ok(Net(address, prefixLen))
  }

  predicate Contains(w: nat, a: Net, b: Net)
    requires a.prefixLen <= w && b.prefixLen <= w
  {
    if a.prefixLen > b.prefixLen then false
    else if a.prefixLen == b.prefixLen then a.address == b.address
    else if a.prefixLen == 0 then true
    else Shr(w, a.address, w - a.prefixLen) == Shr(w, b.address, w - a.prefixLen)
  }

  predicate Siblings(w: nat, a: Net, b: Net)
    requires a.prefixLen <= w && b.prefixLen <= w
  {
    if b.prefixLen != a.prefixLen || a.prefixLen == 0 then false
    else Xor(a.address, b.address) == Shl1(w, w - a.prefixLen)
  }

  /** The derived order: by address, then by prefix length. */
  predicate Less(a: Net, b: Net) {
    a.address < b.address || (a.address == b.address && a.prefixLen < b.prefixLen)
  }

  // ----- the address ranges they are about -----

  function Size(w: nat, n: Net): (r: nat)
    requires n.prefixLen <= w
    ensures r > 0
  {
    Pow2(w - n.prefixLen)
  }

  /** The first address after the network. */
  function End(w: nat, n: Net): nat
    requires n.prefixLen <= w
  {
    n.address + Size(w, n)
  }

  /** The network is an aligned block of existing addresses. */
  ghost predicate ValidNet(w: nat, n: Net) {
    n.prefixLen <= w && n.address < Pow2(w) && LowBitsZero(n.address, w - n.prefixLen)
  }

  ghost predicate Has(w: nat, n: Net, x: int) {
    n.prefixLen <= w && n.address <= x < End(w, n)
  }

  /** Every address of `a` is one of `b`. */
  ghost predicate Inside(w: nat, a: Net, b: Net)
    requires a.prefixLen <= w && b.prefixLen <= w
  {
    b.address <= a.address && End(w, a) <= End(w, b)
  }

  /** `lo` and `hi` are the lower and the upper half of one network. */
  ghost predicate Halves(w: nat, lo: Net, hi: Net) {
    && lo.prefixLen == hi.prefixLen
    && 0 < lo.prefixLen <= w
    && LowBitsZero(lo.address, w - lo.prefixLen + 1)
    && hi.address == End(w, lo)
  }

  /** The network `n` is a half of. */
  function Parent(n: Net): Net
    requires n.prefixLen > 0
  {
    Net(n.address, n.prefixLen - 1)
  }

  // ----- what the operations mean -----

  lemma SizesDivide(w: nat, a: Net, b: Net) returns (m: nat)
    requires a.prefixLen <= b.prefixLen <= w
    ensures m >= 1 && Size(w, a) == Size(w, b) * m
    ensures a.prefixLen < b.prefixLen ==> m >= 2
  {
    m := Pow2(b.prefixLen - a.prefixLen);
    Pow2Sum(w - b.prefixLen, b.prefixLen - a.prefixLen);
    assert w - b.prefixLen + (b.prefixLen - a.prefixLen) == w - a.prefixLen;
  }

  /** Aligned blocks of sizes `s` and `s * m`. */
  lemma AlignedBlocks(s: nat, m: nat, b: nat, a: nat)
    requires s > 0 && m >= 1 && s * m > 0 && b % s == 0 && a % (s * m) == 0
    ensures b + s <= a || (a <= b && b + s <= a + s * m) || a + s * m <= b
  {
    var q := Quotient(b, s);
    var r := Quotient(a, s * m);
    var t := m * r;
    assert a == s * t;
    assert a + s * m == s * (t + m);
    if q < t {
      MulMonotone(s, q, t);
    } else if q < t + m {
      MulMonotone(s, t, q);
      MulMonotone(s, q, t + m);
    } else {
      MulMonotone(s, t + m, q);
    }
  }

  lemma EndsWithinWidth(w: nat, n: Net)
    requires ValidNet(w, n)
    ensures End(w, n) <= Pow2(w)
  {
    var m := SizesDivide(w, Net(0, 0), n);
    LowBitsZeroIsMultiple(n.address, w - n.prefixLen);
    AlignedBlocks(Size(w, n), m, n.address, 0);
  }

  /** Two networks are nested or disjoint, and the one with the shorter prefix is
      the outer one. */
  lemma NestedOrDisjoint(w: nat, a: Net, b: Net)
    requires ValidNet(w, a) && ValidNet(w, b) && a.prefixLen <= b.prefixLen
    ensures Inside(w, b, a) || End(w, a) <= b.address || End(w, b) <= a.address
    ensures Inside(w, b, a) <==> Has(w, a, b.address)
    ensures Inside(w, a, b) ==> a == b
  {
    var m := SizesDivide(w, a, b);
    LowBitsZeroIsMultiple(a.address, w - a.prefixLen);
    LowBitsZeroIsMultiple(b.address, w - b.prefixLen);
    AlignedBlocks(Size(w, b), m, b.address, a.address);
    MulMonotone(Size(w, b), 1, m);
  }

  /** `new` accepts exactly the aligned blocks. */
  lemma NewAcceptsAlignedBlocks(w: nat, address: nat, prefixLen: nat)
    requires address < Pow2(w)
    ensures New(w, address, prefixLen) ==
            if prefixLen > w then Err(BadPrefixLen)
            else if ValidNet(w, Net(address, prefixLen)) then Ok(Net(address, prefixLen))
            else Err(NotNetworkAddress)
  {
    if prefixLen < w {
      var p := Pow2(w - prefixLen);
      Pow2Sum(prefixLen, w - prefixLen);
      ShrIsDivision(w, Pow2(w) - 1, prefixLen);
      TopDivides(Pow2(prefixLen), p);
      MaskIsRemainder(address, w - prefixLen);
      LowBitsZeroIsMultiple(address, w - prefixLen);
    }
  }

  lemma TopDivides(d: nat, p: nat)
    requires d > 0 && p > 0
    ensures (d * p - 1) / d == p - 1
  {
    assert (p - 1) * d == d * p - d;
    DivUnique(d * p - 1, d, p - 1);
  }

  /** The shift comparison is inclusion of address ranges. */
  lemma ContainsIsInclusion(w: nat, a: Net, b: Net)
    requires ValidNet(w, a) && ValidNet(w, b)
    ensures Contains(w, a, b) <==> Inside(w, b, a)
  {
    if a.prefixLen > b.prefixLen {
      NestedOrDisjoint(w, b, a);
    } else {
      NestedOrDisjoint(w, a, b);
      if a.prefixLen == 0 {
        EndsWithinWidth(w, b);
        LowBitsZeroIsMultiple(a.address, w);
        BelowOneBlock(a.address, Size(w, a));
      } else if a.prefixLen < b.prefixLen {
        LowBitsZeroIsMultiple(a.address, w - a.prefixLen);
        SameShift(w, a.address, b.address, w - a.prefixLen);
      }
    }
  }

  lemma BelowOneBlock(a: nat, s: nat)
    requires a < s && a % s == 0
    ensures a == 0
  {}

  lemma SameShift(w: nat, a: nat, b: nat, k: nat)
    requires k < w && a % Pow2(k) == 0
    ensures Shr(w, a, k) == Shr(w, b, k) <==> a <= b < a + Pow2(k)
  {
    ShrIsDivision(w, a, k);
    ShrIsDivision(w, b, k);
    SameBlock(a, b, Pow2(k));
  }

  lemma SameBlock(a: nat, b: nat, s: nat)
    requires s > 0 && a % s == 0
    ensures a / s == b / s <==> a <= b < a + s
  {
    var q := a / s;
    if a <= b < a + s {
      assert q * s == a;
      DivUnique(b, s, q);
    }
  }

  /** An exclusive or of one bit singles out the two halves of one network. */
  lemma SiblingsAreHalves(w: nat, a: Net, b: Net)
    requires ValidNet(w, a) && ValidNet(w, b)
    ensures Siblings(w, a, b) <==> Halves(w, a, b) || Halves(w, b, a)
  {
    if a.prefixLen == b.prefixLen && a.prefixLen > 0 {
      var k := w - a.prefixLen;
      var s := Pow2(k);
      XorIsOneBit(a.address, b.address, k);
      LowBitsZeroIsMultiple(a.address, k);
      LowBitsZeroIsMultiple(b.address, k);
      LowBitsZeroIsMultiple(a.address, k + 1);
      LowBitsZeroIsMultiple(b.address, k + 1);
      HalfBlocks(a.address, b.address, s);
      HalfBlocks(b.address, a.address, s);
    }
  }

  lemma MultiplesInOrder(s: nat, x: nat, y: nat)
    requires s > 0
    ensures s * x < s * y <==> x < y
    ensures s * y == s * x + s <==> y == x + 1
    ensures s * x == s * y <==> x == y
  {
    assert s * (x + 1) == s * x + s;
    if x < y {
      MulMonotone(s, x, y);
      MulMonotone(s, x + 1, y);
    } else {
      MulMonotone(s, y, x);
    }
  }

  lemma MultipleInDoubleBlocks(s: nat, x: nat)
    requires s > 0
    ensures (s * x) / (2 * s) == x / 2
    ensures (s * x) % (2 * s) == 0 <==> x % 2 == 0
  {
    var q := x / 2;
    assert s * x == q * (2 * s) + s * (x % 2);
    DivUnique(s * x, 2 * s, q);
    RemainderOf(s * x, 2 * s, q);
  }

  lemma RemainderOf(a: nat, d: nat, q: nat)
    requires d > 0 && a / d == q
    ensures a % d == a - q * d
  {}

  /** For multiples `a` and `b` of `s`: same block of size 2s, `a` below `b`. */
  lemma HalfBlocks(a: nat, b: nat, s: nat)
    requires s > 0 && a % s == 0 && b % s == 0
    ensures a % (2 * s) == 0 && b == a + s <==> a < b && a / (2 * s) == b / (2 * s)
    ensures a / s == b / s <==> a == b
  {
    var x := Quotient(a, s);
    var y := Quotient(b, s);
    MultipleOf(s, x);
    MultipleOf(s, y);
    MultiplesInOrder(s, x, y);
    MultipleInDoubleBlocks(s, x);
    MultipleInDoubleBlocks(s, y);
  }

  /** Lowering the prefix length of a lower half by one, without going through
      `new`, gives the valid network made of both halves. */
  lemma HalvesMerge(w: nat, lo: Net, hi: Net)
    requires ValidNet(w, lo) && ValidNet(w, hi) && Halves(w, lo, hi)
    ensures ValidNet(w, Parent(lo))
    ensures End(w, Parent(lo)) == End(w, hi)
  {
  }

  lemma HalvesAligned(a: nat, s: nat)
    requires s > 0 && a % (2 * s) == 0
    ensures a % s == 0 && (a + s) % s == 0
  {
    var q := Quotient(a, 2 * s);
    assert a == s * (2 * q);
    assert a + s == s * (2 * q + 1);
    MultipleOf(s, 2 * q);
    MultipleOf(s, 2 * q + 1);
  }

  lemma LowerHalfAligned(a: nat, k: nat)
    requires LowBitsZero(a, k + 1)
    ensures LowBitsZero(a, k) && LowBitsZero(a + Pow2(k), k)
  {
    hide LowBitsZero;
    LowBitsZeroIsMultiple(a, k + 1);
    LowBitsZeroIsMultiple(a, k);
    LowBitsZeroIsMultiple(a + Pow2(k), k);
    HalvesAligned(a, Pow2(k));
  }

  /** The two halves of a network of more than one address. */
  lemma Split(w: nat, n: Net) returns (lo: Net, hi: Net)
    requires ValidNet(w, n) && n.prefixLen < w
    ensures ValidNet(w, lo) && ValidNet(w, hi) && Halves(w, lo, hi)
    ensures n == Parent(lo) && End(w, n) == End(w, hi)
  {
    hide LowBitsZero;
    lo := Net(n.address, n.prefixLen + 1);
    hi := Net(n.address + Size(w, lo), n.prefixLen + 1);
    LowerHalfAligned(n.address, w - lo.prefixLen);
    EndsWithinWidth(w, n);
  }
}
