/** What the checksum means: the remainder of a polynomial division over GF(2), as section 3.2.9 of
    IEEE 802.3 defines it.

    A polynomial is the set of the exponents that occur in it, so addition is symmetric difference.
    Nothing here mentions shifts of machine words until the theorem at the end. */
module Polynomial {
  import opened Words
  import opened Checksum

  type Poly = set<nat>

  /** x^32 + x^26 + x^23 + x^22 + x^16 + x^12 + x^11 + x^10 + x^8 + x^7 + x^5 + x^4 + x^2 + x + 1 */
  const GENERATOR: Poly := {32, 26, 23, 22, 16, 12, 11, 10, 8, 7, 5, 4, 2, 1, 0}

  function Add(p: Poly, q: Poly): Poly { (p - q) + (q - p) }

  /** p * x^k */
  function TimesX(p: Poly, k: nat): Poly { set d | d in p :: d + k }

  /** p or zero. */
  function Times(b: bool, p: Poly): Poly { if b then p else {} }

  /** q * g, for a quotient given by its coefficients from the highest degree down. */
  function Multiply(q: seq<bool>, g: Poly): Poly {
    if q == [] then {} else Add(TimesX(Times(q[0], g), |q| - 1), Multiply(q[1..], g))
  }

  ghost predicate DegreeBelow(p: Poly, n: nat) { forall d :: d in p ==> d < n }

  /** p = q * g + r for some q, and r has degree below 32. */
  ghost predicate IsRemainder(p: Poly, g: Poly, r: Poly) {
    DegreeBelow(r, 32) && exists q :: p == Add(Multiply(q, g), r)
  }

  // ---------------------------------------------------------------- algebra

  lemma AddSwapMiddle(a: Poly, b: Poly, c: Poly, d: Poly)
    ensures Add(Add(a, b), Add(c, d)) == Add(Add(a, c), Add(b, d))
  {
  }

  lemma TimesXOfSum(p: Poly, q: Poly, k: nat)
    ensures TimesX(Add(p, q), k) == Add(TimesX(p, k), TimesX(q, k))
  {
    forall e ensures e in TimesX(Add(p, q), k) <==> e in Add(TimesX(p, k), TimesX(q, k)) {
      InTimesX(Add(p, q), k, e);
      InTimesX(p, k, e);
      InTimesX(q, k, e);
    }
  }

  lemma InTimesX(p: Poly, k: nat, e: int)
    ensures e in TimesX(p, k) <==> e >= k && e - k in p
  {
    if e >= k && e - k in p { assert (e - k) + k in TimesX(p, k); }
  }

  lemma TimesXTwice(p: Poly, i: nat, j: nat)
    ensures TimesX(TimesX(p, i), j) == TimesX(p, i + j)
  {
    forall e ensures e in TimesX(TimesX(p, i), j) <==> e in TimesX(p, i + j) {
      InTimesX(TimesX(p, i), j, e);
      InTimesX(p, i, e - j);
      InTimesX(p, i + j, e);
    }
  }

  lemma AddAssoc(a: Poly, b: Poly, c: Poly)
    ensures Add(Add(a, b), c) == Add(a, Add(b, c))
  {
  }

  /** Adding the same polynomial on both sides of a sum changes nothing. */
  lemma AddTwice(a: Poly, b: Poly, c: Poly)
    ensures Add(Add(a, c), Add(b, c)) == Add(a, b)
  {
  }

  lemma TimesXZero(p: Poly)
    ensures TimesX(p, 0) == p
  {
    forall e ensures e in TimesX(p, 0) <==> e in p { InTimesX(p, 0, e); }
  }

  /** Bringing down one more digit of the quotient. */
  lemma {:induction false} NextDigit(q: seq<bool>, b: bool, g: Poly)
    ensures Multiply(q + [b], g) == Add(TimesX(Multiply(q, g), 1), Times(b, g))
    decreases |q|
  {
    if q == [] {
      assert q + [b] == [b] && [b][1..] == [];
      TimesXZero(Times(b, g));
      assert TimesX({}, 1) == {};
    } else {
      assert (q + [b])[1..] == q[1..] + [b];
      NextDigit(q[1..], b, g);
      var top, n, rest := Times(q[0], g), |q| - 1, Multiply(q[1..], g);
      TimesXOfSum(TimesX(top, n), rest, 1);
      TimesXTwice(top, n, 1);
      AddAssoc(TimesX(top, n + 1), TimesX(rest, 1), Times(b, g));
    }
  }

  // ---------------------------------------------------------------- remainders are unique

  /** The generator has degree exactly 32. */
  ghost predicate Degree32(g: Poly) { 32 in g && DegreeBelow(g, 33) }

  lemma TermDegrees(b: bool, g: Poly, n: nat)
    requires Degree32(g)
    ensures DegreeBelow(TimesX(Times(b, g), n), n + 33)
    ensures n + 32 in TimesX(Times(b, g), n) <==> b
  {
    forall d | d in TimesX(Times(b, g), n) ensures d < n + 33 { InTimesX(Times(b, g), n, d); }
    InTimesX(Times(b, g), n, n + 32);
  }

  lemma {:induction false} MultipleDegrees(q: seq<bool>, g: Poly)
    requires Degree32(g)
    ensures DegreeBelow(Multiply(q, g), |q| + 32)
    ensures q != [] && q[0] ==> |q| + 31 in Multiply(q, g)
    decreases |q|
  {
    if q == [] {
    } else {
      MultipleDegrees(q[1..], g);
      TermDegrees(q[0], g, |q| - 1);
    }
  }

  /** A multiple of the generator of degree below 32 is zero. */
  lemma {:induction false} SmallMultipleIsZero(q: seq<bool>, g: Poly)
    requires Degree32(g) && DegreeBelow(Multiply(q, g), 32)
    ensures Multiply(q, g) == {}
    decreases |q|
  {
    if q == [] {
    } else {
      MultipleDegrees(q, g);
      assert !q[0];
      assert TimesX({}, |q| - 1) == {};
      SmallMultipleIsZero(q[1..], g);
    }
  }

  lemma {:induction false} PadQuotient(q: seq<bool>, n: nat, g: Poly) returns (p: seq<bool>)
    ensures |p| == n + |q| && Multiply(p, g) == Multiply(q, g)
    decreases n
  {
    p := q;
    if n == 0 {
    } else {
      p := PadQuotient(q, n - 1, g);
      assert ([false] + p)[1..] == p;
      assert TimesX({}, |p|) == {};
      p := [false] + p;
    }
  }

  lemma TimesOfSum(b: bool, b': bool, g: Poly, n: nat)
    ensures TimesX(Times(b != b', g), n) == Add(TimesX(Times(b, g), n), TimesX(Times(b', g), n))
  {
    assert TimesX({}, n) == {};
  }

  lemma {:induction false} SumOfMultiples(q: seq<bool>, q': seq<bool>, g: Poly) returns (s: seq<bool>)
    requires |q| == |q'|
    ensures |s| == |q| && Multiply(s, g) == Add(Multiply(q, g), Multiply(q', g))
    decreases |q|
  {
    s := [];
    if q == [] {
    } else {
      var s' := SumOfMultiples(q[1..], q'[1..], g);
      s := [q[0] != q'[0]] + s';
      assert s[1..] == s';
      TimesOfSum(q[0], q'[0], g, |q| - 1);
      AddSwapMiddle(TimesX(Times(q[0], g), |q| - 1), Multiply(q[1..], g),
                    TimesX(Times(q'[0], g), |q| - 1), Multiply(q'[1..], g));
    }
  }

  /** Division by a polynomial of degree 32 leaves one remainder only. */
  lemma RemainderIsUnique(p: Poly, g: Poly, r: Poly, r': Poly)
    requires Degree32(g) && IsRemainder(p, g, r) && IsRemainder(p, g, r')
    ensures r == r'
  {
    var q :| p == Add(Multiply(q, g), r);
    var q' :| p == Add(Multiply(q', g), r');
    var a := PadQuotient(q, |q'|, g);
    var b := PadQuotient(q', |q|, g);
    var s := SumOfMultiples(a, b, g);
    SumsEqual(p, Multiply(q, g), r, Multiply(q', g), r');
    SmallMultipleIsZero(s, g);
    forall d ensures d in r <==> d in r' { assert d !in Add(r, r'); }
  }

  lemma SumsEqual(p: Poly, m: Poly, r: Poly, m': Poly, r': Poly)
    requires p == Add(m, r) && p == Add(m', r')
    ensures Add(m, m') == Add(r, r')
  {
  }

  // ---------------------------------------------------------------- words as polynomials

  /** The low n bits of a word, least significant bit first as the highest degree: the bit order in
      which IEEE 802.3 transmits octets. */
  function Reflect(w: nat, n: nat): Poly
    decreases n, w
  {
    if n == 0 then {} else (if w % 2 == 1 then {n - 1} else {}) + Reflect(w / 2, n - 1)
  }

  lemma {:induction false} ReflectDegrees(w: nat, n: nat)
    ensures forall d :: d in Reflect(w, n) ==> d < n
    decreases n
  {
    if n == 0 {
    } else {
      ReflectDegrees(w / 2, n - 1);
    }
  }

  lemma {:induction false} ReflectXor(a: nat, b: nat, n: nat)
    ensures Reflect(Xor(a, b), n) == Add(Reflect(a, n), Reflect(b, n))
    decreases n
  {
    if n == 0 {
    } else {
      XorUnfold(a, b);
      ReflectXor(a / 2, b / 2, n - 1);
      ReflectDegrees(a / 2, n - 1);
      ReflectDegrees(b / 2, n - 1);
    }
  }

  /** A word that leaves its top bit clear, read in one more bit, is multiplied by x. */
  lemma {:induction false} ReflectWider(w: nat, n: nat)
    requires w < Pow2(n)
    ensures Reflect(w, n + 1) == TimesX(Reflect(w, n), 1)
    decreases n
  {
    if n == 0 {
      assert Reflect(0, 1) == {} by { assert Reflect(0, 0) == {}; }
      assert TimesX({}, 1) == {};
    } else {
      ReflectWider(w / 2, n - 1);
      var low: Poly := if w % 2 == 1 then {n - 1} else {};
      var rest := Reflect(w / 2, n - 1);
      forall e ensures e in TimesX(low + rest, 1) <==> e in TimesX(low, 1) + TimesX(rest, 1) {
        InTimesX(low + rest, 1, e);
        InTimesX(low, 1, e);
        InTimesX(rest, 1, e);
      }
      forall e ensures e in TimesX(low, 1) <==> e == n && w % 2 == 1 { InTimesX(low, 1, e); }
    }
  }

  /** A word that leaves its k top bits clear. */
  lemma {:induction false} ReflectMuchWider(w: nat, n: nat, k: nat)
    requires w < Pow2(n)
    ensures Reflect(w, n + k) == TimesX(Reflect(w, n), k)
    decreases k
  {
    if k == 0 {
      TimesXZero(Reflect(w, n));
    } else {
      ReflectMuchWider(w, n, k - 1);
      Pow2Grows(n, k - 1);
      ReflectWider(w, n + k - 1);
      TimesXTwice(Reflect(w, n), k - 1, 1);
    }
  }

  lemma Pow2Grows(n: nat, k: nat)
    ensures Pow2(n) <= Pow2(n + k)
  {
    Pow2Add(n, k);
    MulMonotone(Pow2(n), Pow2(k));
  }

  /** The high part of a word contributes the low degrees. */
  lemma {:induction false} ReflectHighPart(w: nat, n: nat, k: nat)
    ensures Reflect(w * Pow2(k), n + k) == Reflect(w, n)
    decreases k
  {
    if k == 0 {
      assert w * 1 == w;
    } else {
      MulRotate(w, 2, Pow2(k - 1));
      MulRotate(2, w, Pow2(k - 1));
      ReflectHighPart(w, n, k - 1);
    }
  }

  /** A word with one more byte at its low end. */
  lemma ReflectLowByte(w: nat, n: nat, b: U8)
    ensures Reflect(b + 0x100 * w, n + 8) == Add(TimesX(Reflect(b, 8), n), Reflect(w, n))
  {
    hide Reflect, TimesX, Xor;
    assert Pow2(BITS) == 0x100 by { Pow2At32(); }
    assert Xor(b, 0x100 * w) == b + 0x100 * w by { DisjointBits(b, w, BITS); }
    assert Reflect(b, n + 8) == TimesX(Reflect(b, 8), n) by { ReflectMuchWider(b, BITS, n); }
    assert Reflect(0x100 * w, n + 8) == Reflect(w, n) by { ReflectHighPart(w, n, BITS); }
    ReflectXor(b, 0x100 * w, n + 8);
  }

  /** 0xED, 0xB8, 0x83 and 0x20, the bytes of the constant in the code. */
  lemma GeneratorByte3()
    ensures Reflect(0xED, 8) == {7, 5, 4, 2, 1, 0}
  {
  }

  lemma GeneratorByte2()
    ensures TimesX(Reflect(0xB8, 8), 8) == {12, 11, 10, 8}
  {
    var p := {4, 3, 2, 0};
    assert Reflect(0xB8, 8) == p;
    forall e ensures e in TimesX(p, 8) <==> e in {12, 11, 10, 8} { InTimesX(p, 8, e); }
  }

  lemma GeneratorByte1()
    ensures TimesX(Reflect(0x83, 8), 16) == {23, 22, 16}
  {
    hide Reflect, TimesX;
    GeneratorByte1Bits();
    ThreeTimesX(7, 6, 0, 16);
  }

  lemma GeneratorByte1Bits()
    ensures Reflect(0x83, 8) == {7, 6, 0}
  {
  }

  lemma ThreeTimesX(i: nat, j: nat, k: nat, n: nat)
    ensures TimesX({i, j, k}, n) == {i + n, j + n, k + n}
  {
    hide TimesX;
    forall e ensures e in TimesX({i, j, k}, n) <==> e in {i + n, j + n, k + n} { InTimesX({i, j, k}, n, e); }
  }

  lemma GeneratorByte0()
    ensures TimesX(Reflect(0x20, 8), 24) == {26}
  {
    var p := {2};
    assert Reflect(0x20, 8) == p;
    forall e ensures e in TimesX(p, 24) <==> e in {26} { InTimesX(p, 24, e); }
  }

  lemma AppendByte(w: nat, n: nat, b: U8, p: Poly, q: Poly)
    requires TimesX(Reflect(b, 8), n) == p && Reflect(w, n) == q && p !! q
    ensures Reflect(b + 0x100 * w, n + 8) == p + q
  {
    ReflectLowByte(w, n, b);
    assert Add(p, q) == p + q;
  }

  lemma GeneratorHalf(w: nat)
    requires w == 0xED
    ensures Reflect(0xB8 + 0x100 * w, 16) == {12, 11, 10, 8, 7, 5, 4, 2, 1, 0}
  {
    GeneratorByte3();
    GeneratorByte2();
    AppendByte(w, 8, 0xB8, {12, 11, 10, 8}, {7, 5, 4, 2, 1, 0});
  }

  lemma GeneratorThreeBytes(w: nat)
    requires Reflect(w, 16) == {12, 11, 10, 8, 7, 5, 4, 2, 1, 0}
    ensures Reflect(0x83 + 0x100 * w, 24) == {23, 22, 16, 12, 11, 10, 8, 7, 5, 4, 2, 1, 0}
  {
    GeneratorByte1();
    AppendByte(w, 16, 0x83, {23, 22, 16}, {12, 11, 10, 8, 7, 5, 4, 2, 1, 0});
  }

  lemma GeneratorFourBytes(w: nat)
    requires Reflect(w, 24) == {23, 22, 16, 12, 11, 10, 8, 7, 5, 4, 2, 1, 0}
    ensures Reflect(0x20 + 0x100 * w, 32) == GENERATOR - {32}
  {
    GeneratorByte0();
    AppendByte(w, 24, 0x20, {26}, {23, 22, 16, 12, 11, 10, 8, 7, 5, 4, 2, 1, 0});
  }

  /** The constant in the code is the IEEE generator without its leading term. */
  lemma GeneratorBits(w: nat)
    requires w == POLYNOMIAL
    ensures Reflect(w, 32) == GENERATOR - {32}
  {
    hide Reflect;
    GeneratorHalf(0xED);
    GeneratorThreeBytes(0xEDB8);
    GeneratorFourBytes(0xEDB883);
  }

  // ---------------------------------------------------------------- one bit, one byte, one message

  /** The generator that the constant in the code stands for. */
  ghost predicate IsGenerator(g: Poly) { g == Add({32}, Reflect(POLYNOMIAL, 32)) }

  lemma GeneratorIsGenerator()
    ensures IsGenerator(GENERATOR) && Degree32(GENERATOR)
  {
    GeneratorBits(POLYNOMIAL);
  }

  /** The register holds the remainder of p. */
  ghost predicate Represents(p: Poly, g: Poly, crc: U32) { IsRemainder(p, g, Reflect(crc, 32)) }

  lemma RepresentsBy(p: Poly, g: Poly, q: seq<bool>, crc: U32)
    requires p == Add(Multiply(q, g), Reflect(crc, 32))
    ensures Represents(p, g, crc)
  {
    ReflectDegrees(crc, 32);
  }

  /** One shift multiplies by x and reduces. */
  lemma ShiftMultiplies(p: Poly, g: Poly, crc: U32)
    requires IsGenerator(g) && Represents(p, g, crc)
    ensures Represents(TimesX(p, 1), g, Shift(crc))
  {
    var c := Reflect(crc, 32);
    var q :| p == Add(Multiply(q, g), c);
    var m, odd := Multiply(q, g), crc % 2 == 1;
    NextDigit(q, odd, g);
    ShiftReflected(crc, g);
    TimesXOfSum(m, c, 1);
    AddTwice(TimesX(m, 1), TimesX(c, 1), Times(odd, g));
    RepresentsBy(TimesX(p, 1), g, q + [odd], Shift(crc));
  }

  /** A word is its low bit, at the highest degree, and the rest of its bits. */
  lemma ReflectSplit(w: nat, n: nat)
    requires w / 2 < Pow2(n)
    ensures TimesX(Reflect(w, n + 1), 1) == Add(Times(w % 2 == 1, {n + 1}), Reflect(w / 2, n + 1))
  {
    var rest, low := Reflect(w / 2, n), Times(w % 2 == 1, {n});
    ReflectWider(w / 2, n);
    ReflectDegrees(w / 2, n);
    assert Reflect(w, n + 1) == Add(low, rest);
    TimesXOfSum(low, rest, 1);
    forall e ensures e in TimesX(low, 1) <==> e in Times(w % 2 == 1, {n + 1}) { InTimesX(low, 1, e); }
    assert TimesX(low, 1) == Times(w % 2 == 1, {n + 1});
  }

  lemma ShiftReflected(crc: U32, g: Poly)
    requires IsGenerator(g)
    ensures Reflect(Shift(crc), 32) == Add(TimesX(Reflect(crc, 32), 1), Times(crc % 2 == 1, g))
  {
    var half := Reflect(crc / 2, 32);
    assert crc / 2 < Pow2(31) by { Pow2At32(); }
    ReflectSplit(crc, 31);
    if crc % 2 == 1 {
      ReflectXor(crc / 2, POLYNOMIAL, 32);
      CancelTop(half, Reflect(POLYNOMIAL, 32));
    } else {
      XorZero(crc / 2);
      AddNothing(half);
    }
  }

  lemma CancelTop(a: Poly, b: Poly)
    ensures Add(Add({32}, a), Add({32}, b)) == Add(a, b)
  {
  }

  lemma AddNothing(a: Poly)
    ensures Add({}, a) == a && Add(a, {}) == a
  {
  }

  lemma {:induction false} ShiftsMultiply(p: Poly, g: Poly, crc: U32, n: nat)
    requires IsGenerator(g) && Represents(p, g, crc)
    ensures Represents(TimesX(p, n), g, Shifts(crc, n))
    decreases n
  {
    hide Represents, IsGenerator, TimesX, Shift;
    if n == 0 {
      TimesXZero(p);
    } else {
      ShiftMultiplies(p, g, crc);
      ShiftsMultiply(TimesX(p, 1), g, Shift(crc), n - 1);
      TimesXTwice(p, 1, n - 1);
    }
  }

  /** The message as a polynomial, first byte and least significant bit first. */
  function Message(bytes: Bytes): Poly
    decreases |bytes|
  {
    if bytes == [] then {}
    else Add(TimesX(Message(bytes[..|bytes| - 1]), 8), Reflect(bytes[|bytes| - 1], 8))
  }

  /** The dividend: the message times x^32, with the initial register added in front. */
  function Dividend(start: U32, bytes: Bytes): Poly {
    Add(TimesX(Reflect(start, 32), 8 * |bytes|), TimesX(Message(bytes), 32))
  }

  lemma ByteEnters(p: Poly, g: Poly, crc: U32, b: U8)
    requires Represents(p, g, crc)
    ensures Xor(crc, b) < WORD32
    ensures Represents(Add(p, TimesX(Reflect(b, 8), 24)), g, Xor(crc, b))
  {
    XorIsWord(crc, b);
    var c := Reflect(crc, 32);
    var q :| p == Add(Multiply(q, g), c);
    ReflectXor(crc, b, 32);
    assert Pow2(BITS) == 0x100 by { Pow2At32(); }
    ReflectMuchWider(b, BITS, 24);
    AddAssoc(Multiply(q, g), c, TimesX(Reflect(b, 8), 24));
    RepresentsBy(Add(p, TimesX(Reflect(b, 8), 24)), g, q, Xor(crc, b));
  }

  lemma ByteMultiplies(p: Poly, g: Poly, crc: U32, b: U8)
    requires IsGenerator(g) && Represents(p, g, crc)
    ensures Represents(Add(TimesX(p, 8), TimesX(Reflect(b, 8), 32)), g, FeedByte(crc, b))
  {
    var byte := TimesX(Reflect(b, 8), 24);
    ByteEnters(p, g, crc, b);
    ShiftsMultiply(Add(p, byte), g, Xor(crc, b), BITS);
    TimesXOfSum(p, byte, 8);
    TimesXTwice(Reflect(b, 8), 24, 8);
  }

  lemma NothingFed(start: U32, g: Poly)
    ensures Represents(Dividend(start, []), g, start)
  {
    var r := Reflect(start, 32);
    TimesXZero(r);
    assert TimesX({}, 32) == {};
    AddNothing(r);
    RepresentsBy(Dividend(start, []), g, [], start);
  }

  lemma OneMoreByte(start: U32, front: Bytes, b: U8, g: Poly)
    requires IsGenerator(g) && Represents(Dividend(start, front), g, Feed(start, front))
    ensures Represents(Dividend(start, front + [b]), g, Feed(start, front + [b]))
  {
    DividendStep(start, front, b);
    FeedLast(start, front, b);
    ByteMultiplies(Dividend(start, front), g, Feed(start, front), b);
  }

  lemma {:induction false} FeedDivides(start: U32, bytes: Bytes, g: Poly)
    requires IsGenerator(g)
    ensures Represents(Dividend(start, bytes), g, Feed(start, bytes))
    decreases |bytes|
  {
    if bytes == [] {
      NothingFed(start, g);
    } else {
      var front, b := bytes[..|bytes| - 1], bytes[|bytes| - 1];
      FeedDivides(start, front, g);
      OneMoreByte(start, front, b, g);
      assert bytes == front + [b];
    }
  }

  lemma FeedLast(start: U32, front: Bytes, b: U8)
    ensures Feed(start, front + [b]) == FeedByte(Feed(start, front), b)
  {
    FeedConcat(start, front, [b]);
    assert [b][1..] == [];
  }

  lemma DividendStep(start: U32, front: Bytes, b: U8)
    ensures Dividend(start, front + [b]) == Add(TimesX(Dividend(start, front), 8), TimesX(Reflect(b, 8), 32))
  {
    var s, m, r, n := Reflect(start, 32), Message(front), Reflect(b, 8), 8 * |front|;
    assert (front + [b])[..|front|] == front;
    assert Message(front + [b]) == Add(TimesX(m, 8), r);
    DividendAlgebra(s, m, r, n);
  }

  lemma DividendAlgebra(s: Poly, m: Poly, r: Poly, n: nat)
    ensures Add(TimesX(s, n + 8), TimesX(Add(TimesX(m, 8), r), 32))
            == Add(TimesX(Add(TimesX(s, n), TimesX(m, 32)), 8), TimesX(r, 32))
  {
    TimesXOfSum(TimesX(m, 8), r, 32);
    TimesXTwice(m, 8, 32);
    TimesXTwice(m, 32, 8);
    TimesXTwice(s, n, 8);
    TimesXOfSum(TimesX(s, n), TimesX(m, 32), 8);
    AddAssoc(TimesX(s, n + 8), TimesX(m, 40), TimesX(r, 32));
  }

  /** `crc32` is the complement of the one remainder that the message, extended by 32 zero bits and
      with its first 32 bits complemented, leaves on division by the IEEE generator. */
  lemma CrcIsRemainder(bytes: Bytes, r: Poly)
    requires IsRemainder(Dividend(ONES, bytes), GENERATOR, r)
    ensures Reflect(Crc32(bytes), 32) == Add(r, Reflect(ONES, 32))
  {
    GeneratorIsGenerator();
    CrcComplementsRemainder(bytes, GENERATOR, r);
  }

  /** And that fixes the number: no other word stands for that polynomial. */
  lemma CrcIsDetermined(bytes: Bytes, r: Poly, c: U32)
    requires IsRemainder(Dividend(ONES, bytes), GENERATOR, r)
    ensures c == Crc32(bytes) <==> Reflect(c, 32) == Add(r, Reflect(ONES, 32))
  {
    CrcIsRemainder(bytes, r);
    assert Pow2(32) == WORD32 by { Pow2At32(); }
    if Reflect(c, 32) == Reflect(Crc32(bytes), 32) { ReflectInjective(c, Crc32(bytes), 32); }
  }

  /** A word is determined by its polynomial. */
  lemma {:induction false} ReflectInjective(a: nat, b: nat, n: nat)
    requires a < Pow2(n) && b < Pow2(n) && Reflect(a, n) == Reflect(b, n)
    ensures a == b
    decreases n
  {
    if n == 0 {
    } else {
      TopAndRest(a, n);
      TopAndRest(b, n);
      ReflectInjective(a / 2, b / 2, n - 1);
      SameHalves(a, b);
    }
  }

  lemma TopAndRest(a: nat, n: nat)
    requires n > 0
    ensures a % 2 == 1 <==> n - 1 in Reflect(a, n)
    ensures Reflect(a / 2, n - 1) == Reflect(a, n) - {n - 1}
  {
    ReflectDegrees(a / 2, n - 1);
  }

  lemma CrcComplementsRemainder(bytes: Bytes, g: Poly, r: Poly)
    requires IsGenerator(g) && Degree32(g) && IsRemainder(Dividend(ONES, bytes), g, r)
    ensures Reflect(Crc32(bytes), 32) == Add(r, Reflect(ONES, 32))
  {
    FeedDivides(ONES, bytes, g);
    RemainderIsUnique(Dividend(ONES, bytes), g, r, Reflect(Feed(ONES, bytes), 32));
    ReflectXor(Feed(ONES, bytes), ONES, 32);
  }

  /** Such a remainder always exists, so the theorem above is about every message. */
  lemma RemainderExists(bytes: Bytes)
    ensures exists r :: IsRemainder(Dividend(ONES, bytes), GENERATOR, r)
  {
    GeneratorIsGenerator();
    FeedDivides(ONES, bytes, GENERATOR);
    assert IsRemainder(Dividend(ONES, bytes), GENERATOR, Reflect(Feed(ONES, bytes), 32));
  }

}
