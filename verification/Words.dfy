/** Fixed-width machine words as natural numbers.

    A word is the number its bits stand for, and the bitwise operators are defined bit by bit
    from the low end.  Arithmetic that wraps is written out. */
module Words {

  /** 2^64, the modulus of `std::size_t` counters. */
  const WORD64: nat := 0x1_0000_0000_0000_0000
  /** 2^32, the modulus of `std::uint32_t`. */
  const WORD32: nat := 0x1_0000_0000

  type U8 = x: nat | x < 0x100
  type U32 = x: nat | x < 0x1_0000_0000
  type U64 = x: nat | x < 0x1_0000_0000_0000_0000

  type Bytes = seq<U8>

  function Pow2(k: nat): (p: nat)
    ensures p >= 1
  {
    if k == 0 then 1 else 2 * Pow2(k - 1)
  }

  // ---------------------------------------------------------------- bitwise operators

  function And(a: nat, b: nat): (r: nat)
    ensures r <= a && r <= b
  {
    if a == 0 || b == 0 then 0 else 2 * And(a / 2, b / 2) + (a % 2) * (b % 2)
  }

  function Or(a: nat, b: nat): nat {
    if a == 0 then b else 2 * Or(a / 2, b / 2) + (if a % 2 == 1 || b % 2 == 1 then 1 else 0)
  }

  function Xor(a: nat, b: nat): nat {
    if a == 0 then b else 2 * Xor(a / 2, b / 2) + (if a % 2 == b % 2 then 0 else 1)
  }

  /** `a >> k` */
  function Shr(a: nat, k: nat): nat
    decreases k, a
  {
    if k == 0 then a else Shr(a / 2, k - 1)
  }

  /** `a << k`, for a shift that loses nothing */
  function Shl(a: nat, k: nat): nat
    decreases k, a
  {
    if k == 0 then a else 2 * Shl(a, k - 1)
  }

  lemma {:induction false} ShlIsProduct(a: nat, k: nat)
    ensures Shl(a, k) == a * Pow2(k)
    decreases k
  {
    if k == 0 {
    } else {
      ShlIsProduct(a, k - 1);
      MulRotate(a, 2, Pow2(k - 1));
      MulRotate(2, a, Pow2(k - 1));
    }
  }

  lemma {:induction false} ShrAdd(a: nat, i: nat, j: nat)
    ensures Shr(a, i + j) == Shr(Shr(a, i), j)
    decreases i
  {
    if i == 0 {
    } else {
      ShrAdd(a / 2, i - 1, j);
    }
  }

  lemma ShrByte(a: nat)
    ensures Shr(a, 8) == a / 0x100
  {
    ShrAdd(a, 4, 4);
    ShrNibble(a);
    ShrNibble(a / 0x10);
  }

  lemma ShrNibble(a: nat)
    ensures Shr(a, 4) == a / 0x10
  {
    assert Shr(a, 4) == Shr(a / 2, 3) == Shr(a / 4, 2) == Shr(a / 8, 1) == Shr(a / 16, 0);
  }

  /** One level of `Xor`, stated symmetrically. */
  lemma XorUnfold(a: nat, b: nat)
    ensures Xor(a, b) / 2 == Xor(a / 2, b / 2)
    ensures Xor(a, b) % 2 == if a % 2 == b % 2 then 0 else 1
  {
  }

  /** A number is its half and its low bit. */
  lemma SameHalves(a: nat, b: nat)
    requires a / 2 == b / 2 && a % 2 == b % 2
    ensures a == b
  {
  }

  lemma {:induction false} XorComm(a: nat, b: nat)
    ensures Xor(a, b) == Xor(b, a)
    decreases a + b
  {
    XorUnfold(a, b);
    XorUnfold(b, a);
    if a != 0 && b != 0 {
      XorComm(a / 2, b / 2);
      SameHalves(Xor(a, b), Xor(b, a));
    } else if a == 0 {
      XorZero(b);
    } else {
      XorZero(a);
    }
  }

  lemma {:induction false} XorZero(a: nat)
    ensures Xor(a, 0) == a && Xor(0, a) == a
  {
    if a == 0 {
    } else {
      XorZero(a / 2);
    }
  }

  lemma {:induction false} XorSelf(a: nat)
    ensures Xor(a, a) == 0
  {
    if a == 0 {
    } else {
      XorSelf(a / 2);
    }
  }

  /** The two groupings agree on the low bit and halve to the same pair of groupings. */
  lemma XorAssocStep(a: nat, b: nat, c: nat)
    ensures Xor(Xor(a, b), c) / 2 == Xor(Xor(a / 2, b / 2), c / 2)
    ensures Xor(a, Xor(b, c)) / 2 == Xor(a / 2, Xor(b / 2, c / 2))
    ensures Xor(Xor(a, b), c) % 2 == Xor(a, Xor(b, c)) % 2
  {
    hide Xor;
    var ab, bc := Xor(a, b), Xor(b, c);
    XorUnfold(a, b);
    XorUnfold(b, c);
    XorUnfold(ab, c);
    XorUnfold(a, bc);
  }

  lemma {:induction false} XorAssoc(a: nat, b: nat, c: nat)
    ensures Xor(Xor(a, b), c) == Xor(a, Xor(b, c))
    decreases a
  {
    if a == 0 {
    } else {
      XorAssoc(a / 2, b / 2, c / 2);
      XorAssocStep(a, b, c);
      SameHalves(Xor(Xor(a, b), c), Xor(a, Xor(b, c)));
    }
  }

  /** Exclusive or with a fixed word is a bijection. */
  lemma XorCancel(a: nat, b: nat, c: nat)
    ensures Xor(a, b) == Xor(a, c) ==> b == c
  {
    XorAssoc(a, a, b);
    XorAssoc(a, a, c);
    XorSelf(a);
  }

  /** Four words may be paired up either way. */
  lemma XorSwapMiddle(a: nat, b: nat, c: nat, d: nat)
    ensures Xor(Xor(a, b), Xor(c, d)) == Xor(Xor(a, c), Xor(b, d))
  {
    XorAssoc(a, b, Xor(c, d));
    XorAssoc(b, c, d);
    XorComm(b, c);
    XorAssoc(c, b, d);
    XorAssoc(a, c, Xor(b, d));
  }

  lemma {:induction false} XorBound(a: nat, b: nat, k: nat)
    requires a < Pow2(k) && b < Pow2(k)
    ensures Xor(a, b) < Pow2(k)
    decreases k
  {
    if k == 0 {
      assert a == 0 && b == 0;
    } else {
      XorBound(a / 2, b / 2, k - 1);
      XorUnfold(a, b);
    }
  }

  /** The top bit of the longer operand survives. */
  lemma {:induction false} XorTop(a: nat, b: nat, k: nat)
    requires a < Pow2(k) <= b < Pow2(k + 1)
    ensures Pow2(k) <= Xor(a, b) < Pow2(k + 1)
    decreases k
  {
    XorUnfold(a, b);
    if k == 0 {
      assert a == 0 && b == 1;
    } else {
      XorTop(a / 2, b / 2, k - 1);
    }
  }

  /** Operands without a common bit: exclusive or and inclusive or are both the sum. */
  lemma {:induction false} DisjointBits(low: nat, high: nat, k: nat)
    requires low < Pow2(k)
    ensures Xor(low, high * Pow2(k)) == low + high * Pow2(k)
    ensures Or(low, high * Pow2(k)) == low + high * Pow2(k)
    decreases k
  {
    if low == 0 {
    } else {
      hide Xor, Or;
      DisjointBits(low / 2, high, k - 1);
      MulRotate(high, 2, Pow2(k - 1));
      MulRotate(2, high, Pow2(k - 1));
      DisjointStep(low, high * Pow2(k - 1), high * Pow2(k));
    }
  }

  lemma DisjointStep(low: nat, h: nat, h': nat)
    requires low != 0 && h' == 2 * h
    requires Xor(low / 2, h) == low / 2 + h && Or(low / 2, h) == low / 2 + h
    ensures Xor(low, h') == low + h' && Or(low, h') == low + h'
  {
    assert h' / 2 == h;
  }

  // ---------------------------------------------------------------- masks

  ghost predicate Masks(a: nat, m: nat) { m > 0 && And(a, m - 1) == a % m }

  /** Masking with 2^k - 1 keeps the remainder modulo 2^k. */
  lemma {:induction false} AndMask(a: nat, k: nat)
    ensures Masks(a, Pow2(k))
    decreases k
  {
    hide Masks;
    if k == 0 {
      MaskOne(a);
    } else {
      AndMask(a / 2, k - 1);
      MaskStep(a, Pow2(k - 1));
    }
  }

  lemma MaskOne(a: nat)
    ensures Masks(a, 1)
  {
    ModUnique(a, 1, a, 0);
  }

  lemma MaskStep(a: nat, m: nat)
    requires Masks(a / 2, m)
    ensures Masks(a, 2 * m)
  {
    hide And;
    ModDouble(a, m);
    AndLowBit(a, m);
  }

  lemma AndLowBit(a: nat, m: nat)
    requires m > 0
    ensures And(a, 2 * m - 1) == 2 * And(a / 2, m - 1) + a % 2
  {
    assert (2 * m - 1) / 2 == m - 1 && (2 * m - 1) % 2 == 1;
    assert And(a / 2, 0) == 0 && And(0, m - 1) == 0;
  }

  lemma ModDouble(a: nat, m: nat)
    requires m > 0
    ensures a % (2 * m) == 2 * ((a / 2) % m) + a % 2
  {
    var q, r := (a / 2) / m, (a / 2) % m;
    assert a / 2 == q * m + r;
    assert a == (2 * m) * q + (2 * r + a % 2) by {
      assert 2 * (q * m) == (2 * m) * q;
    }
    ModUnique(a, 2 * m, q, 2 * r + a % 2);
  }

  lemma MulMonotone(m: nat, d: nat)
    requires d >= 1
    ensures m * d >= m
  {
  }

  lemma MulDistribute(m: int, x: int, y: int)
    ensures m * (x - y) == m * x - m * y
    ensures m * (x + y) == m * x + m * y
  {
  }

  lemma MulNext(n: nat, size: nat)
    ensures (n + 1) * size == n * size + size
  {
  }

  /** Quotient and remainder are determined by the number they make up. */
  lemma EuclidUnique(m: nat, q: nat, r: nat, q': nat, r': nat)
    requires m * q + r == m * q' + r' && r < m && r' < m
    ensures q == q' && r == r'
  {
    MulDistribute(m, q, q');
    MulDistribute(m, q', q);
    if q < q' { MulMonotone(m, q' - q); } else if q' < q { MulMonotone(m, q - q'); }
  }

  lemma ModUnique(a: nat, m: nat, q: nat, r: nat)
    requires a == m * q + r && r < m
    ensures a / m == q && a % m == r
  {
    EuclidUnique(m, q, r, a / m, a % m);
  }

  lemma {:induction false} Pow2Add(i: nat, j: nat)
    ensures Pow2(i + j) == Pow2(i) * Pow2(j)
    decreases i
  {
    if i == 0 {
    } else {
      Pow2Add(i - 1, j);
      MulRotate(2, Pow2(i - 1), Pow2(j));
      MulRotate(Pow2(i - 1), 2, Pow2(j));
    }
  }

  /** What the queue's `static_assert` admits. */
  predicate IsCapacity(c: nat) {
    2 <= c < WORD64 && And(c, c - 1) == 0
  }

  /** Halving an even number keeps the test and keeps being a power of two. */
  lemma HalfTest(c: nat)
    requires c >= 2 && c % 2 == 0
    ensures And(c, c - 1) == 0 <==> And(c / 2, c / 2 - 1) == 0
  {
    assert (c - 1) / 2 == c / 2 - 1;
    assert And(c, c - 1) == 2 * And(c / 2, c / 2 - 1) + 0 * ((c - 1) % 2);
  }

  lemma OddFails(c: nat)
    requires c >= 2 && c % 2 == 1
    ensures And(c, c - 1) != 0
  {
    assert (c - 1) / 2 == c / 2;
    AndSelf(c / 2);
  }

  lemma PowerParity(k: nat)
    ensures k > 0 ==> Pow2(k) % 2 == 0 && Pow2(k) / 2 == Pow2(k - 1)
  {
  }

  /** `(c & (c - 1)) == 0` holds of the powers of two and of nothing else. */
  lemma {:induction false} PowerOfTwoTest(c: nat)
    requires c >= 1
    ensures And(c, c - 1) == 0 <==> exists k: nat :: c == Pow2(k)
  {
    if c == 1 {
      assert c == Pow2(0);
    } else if c % 2 == 1 {
      OddFails(c);
      forall k: nat ensures c != Pow2(k) { PowerParity(k); }
    } else {
      PowerOfTwoTest(c / 2);
      HalfTest(c);
      if k: nat :| c / 2 == Pow2(k) {
        PowerParity(k + 1);
        assert c == Pow2(k + 1);
      }
      if k: nat :| c == Pow2(k) {
        PowerParity(k);
        assert c / 2 == Pow2(k - 1);
      }
    }
  }

  lemma {:induction false} AndSelf(a: nat)
    ensures And(a, a) == a
  {
    if a == 0 {
    } else {
      AndSelf(a / 2);
      assert (a % 2) * (a % 2) == a % 2;
    }
  }

  /** A capacity divides the range of the 64-bit counters. */
  lemma CapacityDivides(c: nat) returns (n: nat)
    requires IsCapacity(c)
    ensures n >= 1 && WORD64 == n * c
    ensures exists k: nat :: c == Pow2(k)
  {
    PowerOfTwoTest(c);
    var k: nat :| c == Pow2(k);
    Pow2At64();
    if k >= 64 { Pow2Add(64, k - 64); assert false; }
    Pow2Add(64 - k, k);
    n := Pow2(64 - k);
  }

  lemma Pow2At32()
    ensures Pow2(8) == 0x100 && Pow2(24) == 0x100_0000 && Pow2(31) == 0x8000_0000 && Pow2(32) == WORD32
  {
    assert Pow2(8) == 0x100 by { assert Pow2(4) == 16; }
    Pow2Add(8, 8);
    Pow2Add(8, 16);
    Pow2Add(16, 16);
    assert Pow2(32) == 2 * Pow2(31);
  }

  lemma Pow2At64()
    ensures Pow2(64) == WORD64
  {
    Pow2At32();
    Pow2Add(32, 32);
  }

  // ---------------------------------------------------------------- wrapping counters

  /** `a - b` on `std::size_t`. */
  function Sub64(a: U64, b: U64): U64 { if b <= a then a - b else a + WORD64 - b }

  /** `a + 1` on `std::size_t`. */
  function Inc64(a: U64): U64 { if a == WORD64 - 1 then 0 else a + 1 }

  /** The 64-bit counter that has been incremented i times. */
  function Wrap(i: nat): U64
    decreases i
  {
    if i < WORD64 then i else Wrap(i - WORD64)
  }

  lemma {:induction false} WrapIsRemainder(i: nat)
    ensures Wrap(i) == i % WORD64
  {
    if i < WORD64 {
    } else {
      WrapIsRemainder(i - WORD64);
    }
  }

  /** Reducing first modulo a multiple changes nothing. */
  lemma ModOfMultiple(i: nat, n: nat, c: nat)
    requires n >= 1 && c >= 1
    ensures n * c >= 1
    ensures (i % (n * c)) % c == i % c
  {
    MulMonotone(c, n);
    ghost var r := i % (n * c);
    NestedQuotient(i, n, c, i / (n * c), r, r / c, r % c);
  }

  lemma NestedQuotient(i: nat, n: nat, c: nat, q: nat, r: nat, q': nat, r': nat)
    requires i == (n * c) * q + r && r == c * q' + r' && r' < c
    ensures i % c == r'
  {
    MulRotate(n, c, q);
    MulDistribute(c, n * q, q');
    ModUnique(i, c, n * q + q', r');
  }

  lemma MulRotate(n: nat, c: nat, q: nat)
    ensures (n * c) * q == c * (n * q)
  {
  }

  /** The slot that count i falls on: go back whole turns of the ring until inside the first. */
  function Position(i: nat, cap: nat): (j: nat)
    requires cap > 0
    ensures j < cap
    decreases i
  {
    if i < cap then i else Position(i - cap, cap)
  }

  lemma {:induction false} PositionIsRemainder(i: nat, cap: nat)
    requires cap > 0
    ensures Position(i, cap) == i % cap
  {
    if i < cap {
      ModUnique(i, cap, 0, i);
    } else {
      PositionIsRemainder(i - cap, cap);
      NextQuotient(i - cap, cap, (i - cap) / cap, (i - cap) % cap);
    }
  }

  lemma NextQuotient(i: nat, cap: nat, q: nat, r: nat)
    requires r < cap && i == cap * q + r
    ensures (i + cap) % cap == r
  {
    MulDistribute(cap, q, 1);
    ModUnique(i + cap, cap, q + 1, r);
  }

  /** The masked 64-bit counter addresses the slot of the unbounded count behind it. */
  lemma SlotOfCounter(i: nat, cap: nat)
    requires IsCapacity(cap)
    ensures And(Wrap(i), cap - 1) == Position(i, cap)
  {
    WrapIsRemainder(i);
    var n := CapacityDivides(cap);
    var k: nat :| cap == Pow2(k);
    AndMask(i % WORD64, k);
    ModOfMultiple(i, n, cap);
    PositionIsRemainder(i, cap);
  }

  /** Subtracting two wrapped counters gives the true distance when it is below 2^64. */
  lemma {:induction false} WrappingDistance(hi: nat, lo: nat)
    requires lo <= hi < lo + WORD64
    ensures Sub64(Wrap(hi), Wrap(lo)) == hi - lo
    ensures Wrap(hi) == Wrap(lo) <==> hi == lo
    decreases lo
  {
    if lo < WORD64 {
    } else {
      WrappingDistance(hi - WORD64, lo - WORD64);
    }
  }

  lemma {:induction false} WrappingSuccessor(i: nat)
    ensures Inc64(Wrap(i)) == Wrap(i + 1)
  {
    if i < WORD64 {
    } else {
      WrappingSuccessor(i - WORD64);
    }
  }

  lemma {:induction false} WrappingAdd(i: nat, k: nat)
    ensures Wrap(Wrap(i) + k) == Wrap(i + k)
  {
    if i < WORD64 {
    } else {
      WrappingAdd(i - WORD64, k);
    }
  }

  /** Two counts closer than the capacity occupy different slots. */
  lemma {:induction false} SlotsDistinct(i: nat, j: nat, cap: nat)
    requires cap > 0 && i < j < i + cap
    ensures Position(i, cap) != Position(j, cap)
    decreases i
  {
    if i < cap {
    } else {
      SlotsDistinct(i - cap, j - cap, cap);
    }
  }

  /** Every position is the slot of one of any `cap` consecutive counts. */
  lemma {:induction false} SlotCovered(t: nat, j: nat, cap: nat) returns (i: nat)
    requires j < cap
    ensures t <= i < t + cap && Position(i, cap) == j
    decreases t
  {
    if t < cap {
      i := if t <= j then j else j + cap;
    } else {
      i := SlotCovered(t - cap, j, cap);
      i := i + cap;
    }
  }

}
