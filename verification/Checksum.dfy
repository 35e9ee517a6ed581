/** The bitwise CRC-32 of the write-ahead log, and why it finds short bursts. */
module Checksum {
  import opened Words

  /** The reflected IEEE polynomial. */
  const POLYNOMIAL: U32 := 0xEDB8_8320

  const ONES: U32 := 0xFFFF_FFFF

  const BITS: nat := 8

  /** One turn of the inner loop. */
  function Shift(crc: U32): U32 {
    XorIsWord(crc / 2, if crc % 2 == 1 then POLYNOMIAL else 0);
    Xor(crc / 2, if crc % 2 == 1 then POLYNOMIAL else 0)
  }

  function Shifts(crc: U32, n: nat): U32
    decreases n
  {
    if n == 0 then crc else Shifts(Shift(crc), n - 1)
  }

  /** The register after one byte. */
  function FeedByte(crc: U32, b: U8): U32 {
    XorIsWord(crc, b);
    Shifts(Xor(crc, b), BITS)
  }

  /** The register after a run of bytes. */
  function Feed(crc: U32, bytes: Bytes): U32
    decreases |bytes|
  {
    if bytes == [] then crc else Feed(FeedByte(crc, bytes[0]), bytes[1..])
  }

  /** What `crc32` returns. */
  function Crc32(bytes: Bytes): U32 {
    XorIsWord(Feed(ONES, bytes), ONES);
    Xor(Feed(ONES, bytes), ONES)
  }

  lemma XorIsWord(a: U32, b: U32)
    ensures Xor(a, b) < WORD32
  {
    Pow2At32();
    XorBound(a, b, 32);
  }

  // ---------------------------------------------------------------- the loops of the source

  /** `0 - (crc & 1)` is all ones or zero, and so selects the polynomial or nothing. */
  lemma MaskSelects(crc: U32)
    ensures var mask := (WORD32 - And(crc, 1)) % WORD32;
            And(POLYNOMIAL, mask) == if crc % 2 == 1 then POLYNOMIAL else 0
  {
    hide And;
    LowBit(crc);
    OnesKeep(POLYNOMIAL);
    AndZero(POLYNOMIAL);
  }

  lemma LowBit(a: nat)
    ensures And(a, 1) == a % 2
  {
    hide And;
    AndLowBit(a, 1);
    AndZero(a / 2);
  }

  lemma OnesKeep(a: U32)
    ensures And(a, ONES) == a
  {
    hide And, Pow2;
    Pow2At32();
    AndMask(a, 32);
  }

  lemma AndZero(a: nat)
    ensures And(a, 0) == 0
  {
  }

  /** The inner loop. */
  method UpdateByte(entry: U32, b: U8) returns (crc: U32)
    ensures crc == FeedByte(entry, b)
  {
    XorIsWord(entry, b);
    crc := Xor(entry, b);
    for bit := 0 to BITS
      invariant Shifts(crc, BITS - bit) == FeedByte(entry, b)
    {
      var mask := (WORD32 - And(crc, 1)) % WORD32;
      MaskSelects(crc);
      XorIsWord(crc / 2, And(POLYNOMIAL, mask));
      crc := Xor(crc / 2, And(POLYNOMIAL, mask));
    }
  }

  /** The outer loop, which `crc32` and `compute_record_checksum` share. */
  method Update(start: U32, bytes: Bytes) returns (crc: U32)
    ensures crc == Feed(start, bytes)
  {
    crc := start;
    for i := 0 to |bytes|
      invariant Feed(crc, bytes[i..]) == Feed(start, bytes)
    {
      crc := UpdateByte(crc, bytes[i]);
      assert bytes[i..][1..] == bytes[i + 1..];
    }
  }

  method ComputeCrc32(bytes: Bytes) returns (r: U32)
    ensures r == Crc32(bytes)
  {
    var crc := Update(ONES, bytes);
    XorIsWord(crc, ONES);
    r := Xor(crc, ONES);
  }

  /** Feeding two chunks is feeding their concatenation. */
  lemma {:induction false} FeedConcat(crc: U32, a: Bytes, b: Bytes)
    ensures Feed(crc, a + b) == Feed(Feed(crc, a), b)
    decreases |a|
  {
    if a == [] {
      assert a + b == b;
    } else {
      assert (a + b)[1..] == a[1..] + b;
      FeedConcat(FeedByte(crc, a[0]), a[1..], b);
    }
  }

  // ---------------------------------------------------------------- linearity

  lemma ShiftLinear(a: U32, b: U32)
    ensures Xor(a, b) < WORD32
    ensures Shift(Xor(a, b)) == Xor(Shift(a), Shift(b))
  {
    XorIsWord(a, b);
    XorUnfold(a, b);
    var pa, pb := if a % 2 == 1 then POLYNOMIAL else 0, if b % 2 == 1 then POLYNOMIAL else 0;
    XorSwapMiddle(a / 2, pa, b / 2, pb);
    XorSelf(POLYNOMIAL);
    XorZero(POLYNOMIAL);
  }

  /** The polynomial's top bit shows whether a bit fell out, so the shift loses nothing. */
  lemma ShiftInjective(a: U32, b: U32)
    requires Shift(a) == Shift(b)
    ensures a == b
  {
    ShiftTop(a);
    ShiftTop(b);
    if a % 2 == 1 {
      XorComm(a / 2, POLYNOMIAL);
      XorComm(b / 2, POLYNOMIAL);
      XorCancel(POLYNOMIAL, a / 2, b / 2);
    } else {
      XorZero(a / 2);
      XorZero(b / 2);
    }
    SameHalves(a, b);
  }

  lemma ShiftTop(a: U32)
    ensures Shift(a) >= 0x8000_0000 <==> a % 2 == 1
  {
    Pow2At32();
    if a % 2 == 1 { XorTop(a / 2, POLYNOMIAL, 31); } else { XorZero(a / 2); }
  }

  lemma {:induction false} ShiftsInjective(a: U32, b: U32, n: nat)
    requires Shifts(a, n) == Shifts(b, n)
    ensures a == b
    decreases n
  {
    if n == 0 {
    } else {
      ShiftsInjective(Shift(a), Shift(b), n - 1);
      ShiftInjective(a, b);
    }
  }

  /** Different registers stay different whatever follows. */
  lemma {:induction false} FeedInjective(a: U32, b: U32, bytes: Bytes)
    requires Feed(a, bytes) == Feed(b, bytes)
    ensures a == b
    decreases |bytes|
  {
    if bytes == [] {
    } else {
      var x := bytes[0];
      FeedInjective(FeedByte(a, x), FeedByte(b, x), bytes[1..]);
      XorIsWord(a, x);
      XorIsWord(b, x);
      ShiftsInjective(Xor(a, x), Xor(b, x), BITS);
      XorComm(a, x);
      XorComm(b, x);
      XorCancel(x, a, b);
    }
  }

  // ---------------------------------------------------------------- bytes as numbers

  /** The number whose little-endian bytes these are. */
  function FromLE(bytes: Bytes): nat
    decreases |bytes|
  {
    if bytes == [] then 0 else bytes[0] + 0x100 * FromLE(bytes[1..])
  }

  lemma {:induction false} FromLEBound(bytes: Bytes)
    ensures FromLE(bytes) < Pow2(8 * |bytes|)
    decreases |bytes|
  {
    if bytes == [] {
    } else {
      FromLEBound(bytes[1..]);
      Pow2At32();
      Pow2Add(8, 8 * |bytes| - 8);
    }
  }

  lemma {:induction false} FromLEInjective(a: Bytes, b: Bytes)
    requires |a| == |b| && FromLE(a) == FromLE(b)
    ensures a == b
    decreases |a|
  {
    if a == [] {
    } else {
      FromLEInjective(a[1..], b[1..]);
      assert a == [a[0]] + a[1..] && b == [b[0]] + b[1..];
    }
  }

  // ---------------------------------------------------------------- one bit at a time

  /** The register after n bits of x, lowest first: the order in which octets are transmitted. */
  function Absorb(crc: U32, x: nat, n: nat): U32
    decreases n
  {
    XorIsWord(crc, x % 2);
    if n == 0 then crc else Absorb(Shift(Xor(crc, x % 2)), x / 2, n - 1)
  }

  /** First the low bits, then the others. */
  lemma {:induction false} AbsorbSplit(crc: U32, low: nat, high: nat, k: nat, m: nat)
    requires low < Pow2(k)
    ensures Absorb(crc, low + Pow2(k) * high, k + m) == Absorb(Absorb(crc, low, k), high, m)
    decreases k
  {
    hide Shift, Xor;
    if k == 0 {
      assert low == 0 && 1 * high == high;
    } else {
      MulRotate(2, Pow2(k - 1), high);
      MulRotate(Pow2(k - 1), 2, high);
      LowBitSplit(low, Pow2(k - 1) * high);
      XorIsWord(crc, low % 2);
      AbsorbSplit(Shift(Xor(crc, low % 2)), low / 2, high, k - 1, m);
    }
  }

  lemma LowBitSplit(low: nat, h: nat)
    ensures (low + 2 * h) % 2 == low % 2 && (low + 2 * h) / 2 == low / 2 + h
  {
  }

  /** A bit due later may as well enter the register now, further up. */
  lemma BitEnters(crc: U32, x: U32)
    ensures Xor(crc, x % 2) < WORD32 && Xor(crc, x) < WORD32
    ensures Xor(Shift(Xor(crc, x % 2)), x / 2) == Shift(Xor(crc, x))
  {
    hide Shift;
    XorIsWord(crc, x % 2);
    XorIsWord(crc, x);
    var y := x / 2;
    assert Xor(x % 2, 2 * y) == x by {
      assert Pow2(1) == 2;
      DisjointBits(x % 2, y, 1);
    }
    XorAssoc(crc, x % 2, 2 * y);
    ShiftLinear(Xor(crc, x % 2), 2 * y);
    ShiftEven(y);
  }

  lemma ShiftEven(y: nat)
    requires 2 * y < WORD32
    ensures Shift(2 * y) == y
  {
    XorZero(y);
  }

  /** A word's worth of bits may enter at once. */
  lemma {:induction false} AbsorbIsShifts(crc: U32, x: U32, n: nat)
    requires x < Pow2(n)
    ensures Xor(crc, x) < WORD32
    ensures Absorb(crc, x, n) == Shifts(Xor(crc, x), n)
    decreases n
  {
    hide Shift, Xor;
    XorIsWord(crc, x);
    if n == 0 {
      XorZero(crc);
    } else {
      BitEnters(crc, x);
      AbsorbIsShifts(Shift(Xor(crc, x % 2)), x / 2, n - 1);
    }
  }

  /** Byte by byte and bit by bit come to the same. */
  lemma {:induction false} FeedIsAbsorb(crc: U32, bytes: Bytes)
    ensures Feed(crc, bytes) == Absorb(crc, FromLE(bytes), 8 * |bytes|)
    decreases |bytes|
  {
    hide Shift, Shifts, Xor, Absorb;
    if bytes == [] {
      NothingAbsorbed(crc, 0);
    } else {
      var b, r := bytes[0], FromLE(bytes[1..]);
      assert Pow2(BITS) == 0x100 by { Pow2At32(); }
      AbsorbIsShifts(crc, b, BITS);
      AbsorbSplit(crc, b, r, BITS, 8 * |bytes[1..]|);
      FeedIsAbsorb(FeedByte(crc, b), bytes[1..]);
    }
  }

  lemma NothingAbsorbed(crc: U32, x: nat)
    ensures Absorb(crc, x, 0) == crc
  {
  }

  lemma {:induction false} AbsorbLinear(a: U32, b: U32, x: nat, y: nat, n: nat)
    ensures Xor(a, b) < WORD32
    ensures Absorb(Xor(a, b), Xor(x, y), n) == Xor(Absorb(a, x, n), Absorb(b, y, n))
    decreases n
  {
    hide Shift, Xor;
    XorIsWord(a, b);
    if n == 0 {
    } else {
      XorUnfold(x, y);
      XorIsWord(a, x % 2);
      XorIsWord(b, y % 2);
      LowBitsXor(a, b, x, y);
      ShiftLinear(Xor(a, x % 2), Xor(b, y % 2));
      AbsorbLinear(Shift(Xor(a, x % 2)), Shift(Xor(b, y % 2)), x / 2, y / 2, n - 1);
    }
  }

  lemma LowBitsXor(a: nat, b: nat, x: nat, y: nat)
    ensures Xor(Xor(a, b), Xor(x, y) % 2) == Xor(Xor(a, x % 2), Xor(b, y % 2))
  {
    XorUnfold(x, y);
    assert Xor(x % 2, y % 2) == Xor(x, y) % 2;
    hide Xor;
    XorSwapMiddle(a, b, x % 2, y % 2);
  }

  lemma {:induction false} ZeroAbsorbed(n: nat)
    ensures Absorb(0, 0, n) == 0 && Shifts(0, n) == 0
    decreases n
  {
    ShiftEven(0);
    if n == 0 {
    } else {
      ZeroAbsorbed(n - 1);
    }
  }

  /** Up to four bytes act as one word exclusive-ored into the register before the shifts; so do more, if
      they stand for a word. */
  lemma FeedIsShifts(crc: U32, w: Bytes)
    ensures |w| <= 4 ==> FromLE(w) < WORD32
    ensures FromLE(w) < WORD32 ==>
              Xor(crc, FromLE(w)) < WORD32 && Feed(crc, w) == Shifts(Xor(crc, FromLE(w)), 8 * |w|)
  {
    FromLEBound(w);
    if |w| <= 4 { ShortIsWord(w); }
    if FromLE(w) < WORD32 {
      FeedIsAbsorb(crc, w);
      AbsorbIsShifts(crc, FromLE(w), 8 * |w|);
    }
  }

  lemma ShortIsWord(w: Bytes)
    requires |w| <= 4
    ensures FromLE(w) < WORD32
  {
    FromLEBound(w);
    Pow2At32();
    Pow2Add(8 * |w|, 32 - 8 * |w|);
    MulMonotone(Pow2(8 * |w|), Pow2(32 - 8 * |w|));
  }

  // ---------------------------------------------------------------- bursts

  /** The two differ, and only in the 32 consecutive bits from bit i on; d says in which. */
  ghost predicate DifferAt(w: Bytes, w': Bytes, d: nat, i: nat) {
    |w| == |w'| && 0 < d < WORD32 && Xor(FromLE(w), FromLE(w')) == d * Pow2(i)
  }

  /** The two differ in a burst of at most 32 consecutive bits, wherever it begins. */
  ghost predicate IsBitBurst(w: Bytes, w': Bytes) { exists d, i :: DifferAt(w, w', d, i) }

  lemma BurstDiffers(w: Bytes, w': Bytes)
    requires IsBitBurst(w, w')
    ensures |w| == |w'| && w != w'
  {
    var d, i :| DifferAt(w, w', d, i);
    MulMonotone(d, Pow2(i));
    XorSelf(FromLE(w));
  }

  /** Every change of up to four bytes is one. */
  lemma ShortChangeIsBurst(w: Bytes, w': Bytes)
    requires |w| == |w'| <= 4 && w != w'
    ensures IsBitBurst(w, w')
  {
    var x, y := FromLE(w), FromLE(w');
    ShortIsWord(w);
    ShortIsWord(w');
    XorIsWord(x, y);
    if Xor(x, y) == 0 {
      XorSelf(x);
      XorCancel(x, x, y);
      FromLEInjective(w, w');
    }
    assert DifferAt(w, w', Xor(x, y), 0);
  }

  lemma BurstFits(d: nat, i: nat, n: nat)
    requires d > 0 && d * Pow2(i) < Pow2(n)
    ensures i <= n && d < Pow2(n - i)
  {
    if i > n {
      Pow2Add(n, i - n);
      MulMonotone(Pow2(n), Pow2(i - n));
      MulMonotone(Pow2(i), d);
      assert false;
    }
    Pow2Add(n - i, i);
    MulLess(d, Pow2(n - i), Pow2(i));
  }

  lemma MulLess(a: nat, b: nat, m: nat)
    requires a * m < b * m
    ensures a < b
  {
    if a >= b { MulDistribute(m, a, b); }
  }

  /** A burst behind any number of equal bits leaves itself in the register, shifted on. */
  lemma BurstShifted(d: nat, i: nat, n: nat)
    requires 0 < d < WORD32 && d * Pow2(i) < Pow2(n)
    ensures i <= n && Absorb(0, d * Pow2(i), n) == Shifts(d, n - i)
  {
    hide Shift, Shifts, Absorb, Xor, Pow2;
    BurstFits(d, i, n);
    PowerPositive(i);
    AbsorbSplit(0, 0, d, i, n - i);
    ZeroAbsorbed(i);
    AbsorbIsShifts(0, d, n - i);
    XorZero(d);
    assert 0 + Pow2(i) * d == d * Pow2(i);
  }

  lemma PowerPositive(i: nat)
    ensures 0 < Pow2(i)
  {
  }

  /** The difference of the registers is what the difference of the bytes leaves in an empty one. */
  lemma DifferenceAbsorbed(crc: U32, w: Bytes, w': Bytes)
    requires |w| == |w'|
    ensures var x := Xor(FromLE(w), FromLE(w'));
            x < Pow2(8 * |w|) && Xor(Feed(crc, w), Feed(crc, w')) == Absorb(0, x, 8 * |w|)
  {
    hide Shift, Shifts, Absorb, Feed, Xor, FromLE, Pow2;
    FeedIsAbsorb(crc, w);
    FeedIsAbsorb(crc, w');
    AbsorbLinear(crc, crc, FromLE(w), FromLE(w'), 8 * |w|);
    XorSelf(crc);
    FromLEBound(w);
    FromLEBound(w');
    XorBound(FromLE(w), FromLE(w'), 8 * |w|);
  }

  /** Any burst of at most 32 bits changes the checksum, wherever it lies, however it falls on the bytes
      and whatever surrounds it. */
  lemma BurstChangesCrc(before: Bytes, w: Bytes, w': Bytes, rest: Bytes)
    requires IsBitBurst(w, w')
    ensures Crc32(before + w + rest) != Crc32(before + w' + rest)
  {
    hide Feed, Shifts;
    var r, r' := Feed(ONES, before + w + rest), Feed(ONES, before + w' + rest);
    if Xor(r, ONES) == Xor(r', ONES) {
      XorComm(r, ONES);
      XorComm(r', ONES);
      XorCancel(ONES, r, r');
      FeedConcat(ONES, before + w, rest);
      FeedConcat(ONES, before + w', rest);
      FeedInjective(Feed(ONES, before + w), Feed(ONES, before + w'), rest);
      FeedConcat(ONES, before, w);
      FeedConcat(ONES, before, w');
      BurstChangesRegister(Feed(ONES, before), w, w');
    }
  }

  lemma BurstChangesRegister(crc: U32, w: Bytes, w': Bytes)
    requires IsBitBurst(w, w')
    ensures Feed(crc, w) != Feed(crc, w')
  {
    hide Feed, Shifts, Absorb, Pow2, Xor, FromLE;
    var d, i :| DifferAt(w, w', d, i);
    DifferenceAbsorbed(crc, w, w');
    BurstShifted(d, i, 8 * |w|);
    if Feed(crc, w) == Feed(crc, w') {
      XorSelf(Feed(crc, w));
      ZeroAbsorbed(8 * |w| - i);
      ShiftsInjective(d, 0, 8 * |w| - i);
    }
  }

}
