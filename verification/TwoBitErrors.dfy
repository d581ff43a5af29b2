/** Errors of two bits: the CRC misses them exactly when the two are a multiple of 32767 places apart, the
    order of its polynomial; so that in frames of up to 4095 bytes it misses no error of one to three bits. */
module TwoBitErrors {
  import opened Bytes
  import opened Crc16
  import opened CrcErrors

  /** The polynomial 1, in the register's bit order: the highest bit is the constant term, and a shift is a
      multiplication by x. */
  const ONE: bv16 := 0x8000

  /** One step of Horner's rule: times x, and `p` if the term at hand is there. */
  function Step(p: bv16, r: bv16, acc: bv16): bv16 {
    Xor(ShiftBit(acc), if Odd(r) then p else 0)
  }

  /** `n` steps of that rule, from the highest term on. */
  function Terms(p: bv16, r: bv16, acc: bv16, n: nat): bv16
    decreases n
  {
    if n == 0 then acc else Terms(p, Half(r), Step(p, r, acc), n - 1)
  }

  function FourSteps(p: bv16, r: bv16, acc: bv16): bv16 {
    var r1, a1 := Half(r), Step(p, r, acc);
    var r2, a2 := Half(r1), Step(p, r1, a1);
    var r3, a3 := Half(r2), Step(p, r2, a2);
    Step(p, r3, a3)
  }

  /** The product of two polynomials. */
  function Times(p: bv16, r: bv16): bv16 {
    FourSteps(p, r >> 12, FourSteps(p, r >> 8, FourSteps(p, r >> 4, FourSteps(p, r, 0))))
  }

  lemma FourTerms(p: bv16, r: bv16, acc: bv16, n: nat)
    ensures Terms(p, r, acc, n + 4) == Terms(p, r >> 4, FourSteps(p, r, acc), n)
  {
    hide Step, Half, Terms;
    var r1, a1 := Half(r), Step(p, r, acc);
    var r2, a2 := Half(r1), Step(p, r1, a1);
    var r3, a3 := Half(r2), Step(p, r2, a2);
    OneTerm(p, r, acc, n + 3);
    OneTerm(p, r1, a1, n + 2);
    OneTerm(p, r2, a2, n + 1);
    OneTerm(p, r3, a3, n);
    HalfFour(r);
  }

  lemma OneTerm(p: bv16, r: bv16, acc: bv16, n: nat)
    ensures Terms(p, r, acc, n + 1) == Terms(p, Half(r), Step(p, r, acc), n)
  {
    hide Step, Half;
  }

  lemma HalfFour(r: bv16)
    ensures Half(Half(Half(Half(r)))) == r >> 4
    ensures (r >> 4) >> 4 == r >> 8 && (r >> 8) >> 4 == r >> 12
  {
  }

  lemma TimesIsTerms(p: bv16, r: bv16)
    ensures Times(p, r) == Terms(p, r, 0, 16)
  {
    hide Terms, FourSteps;
    HalfFour(r);
    FourTerms(p, r, 0, 12);
    var a4 := FourSteps(p, r, 0);
    FourTerms(p, r >> 4, a4, 8);
    var a8 := FourSteps(p, r >> 4, a4);
    FourTerms(p, r >> 8, a8, 4);
    var a12 := FourSteps(p, r >> 8, a8);
    FourTerms(p, r >> 12, a12, 0);
    NoTerms(p, (r >> 12) >> 4, FourSteps(p, r >> 12, a12));
  }

  lemma NoTerms(p: bv16, r: bv16, acc: bv16)
    ensures Terms(p, r, acc, 0) == acc
  {
  }

  // ---- Shifting is multiplying by a power of x ----

  lemma {:induction false} ShiftedLater(x: bv16, a: nat)
    ensures ShiftBits(ShiftBit(x), a) == ShiftBit(ShiftBits(x, a))
    decreases a
  {
    hide ShiftBit;
    if a > 0 {
      ShiftedLater(ShiftBit(x), a - 1);
    }
  }

  lemma {:induction false} ShiftBitsAdd(x: bv16, a: nat, b: nat)
    ensures ShiftBits(x, a + b) == ShiftBits(ShiftBits(x, a), b)
    decreases a
  {
    hide ShiftBit;
    if a > 0 {
      ShiftBitsAdd(ShiftBit(x), a - 1, b);
    }
  }

  lemma StepShifted(p: bv16, r: bv16, acc: bv16, a: nat)
    ensures Step(ShiftBits(p, a), r, ShiftBits(acc, a)) == ShiftBits(Step(p, r, acc), a)
  {
    hide ShiftBit, ShiftBits, Xor, Odd;
    BitsKernel(0, a);
    ShiftedLater(acc, a);
    ShiftBitsLinear(ShiftBit(acc), if Odd(r) then p else 0, a);
  }

  /** Shifts pass through a product. */
  lemma {:induction false} TermsShifted(p: bv16, r: bv16, acc: bv16, n: nat, a: nat)
    ensures Terms(ShiftBits(p, a), r, ShiftBits(acc, a), n) == ShiftBits(Terms(p, r, acc, n), a)
    decreases n
  {
    hide ShiftBits, Step, Half;
    if n > 0 {
      StepShifted(p, r, acc, a);
      TermsShifted(p, Half(r), Step(p, r, acc), n - 1, a);
    }
  }

  function Right(r: bv16, i: nat): bv16
    requires i <= 16
  {
    r >> i
  }

  function Left(r: bv16, i: nat): bv16
    requires i <= 16
  {
    r << i
  }

  /** Multiplying 1 by `r` collects the terms of `r`. */
  lemma {:induction false} TermsOfOne(r: bv16, i: nat)
    requires i <= 16
    ensures Terms(ONE, Right(r, i), Left(r, 16 - i), 16 - i) == r
    decreases 16 - i
  {
    hide Step, Half, Left, Right;
    if i == 16 {
      Unshifted(r);
    } else {
      NextTerm(r, i);
      HalfRight(r, i);
      TermsOfOne(r, i + 1);
    }
  }

  lemma Unshifted(r: bv16)
    ensures Right(r, 0) == r == Left(r, 0) && Left(r, 16) == 0
  {
  }

  lemma HalfRight(r: bv16, i: nat)
    requires i < 16
    ensures Half(Right(r, i)) == Right(r, i + 1)
  {
    RightAgain(r, i);
  }

  lemma RightAgain(r: bv16, i: nat)
    requires i < 16
    ensures (r >> i) >> 1 == r >> (i + 1)
  {
    if i == 0 {} else if i == 1 {} else if i == 2 {} else if i == 3 {} else if i == 4 {} else if i == 5 {}
    else if i == 6 {} else if i == 7 {} else if i == 8 {} else if i == 9 {} else if i == 10 {}
    else if i == 11 {} else if i == 12 {} else if i == 13 {} else if i == 14 {}
  }

  lemma NextTerm(r: bv16, i: nat)
    requires i < 16
    ensures Step(ONE, Right(r, i), Left(r, 16 - i)) == Left(r, 15 - i)
  {
    hide Odd, Half, ShiftBit, Left, Right, Xor;
    LeftIsEven(r, i);
    ShiftByHalf(Left(r, 16 - i));
    LeftHalved(r, i);
    TopTerm(r, i);
    TopAndRest(Left(r, 15 - i));
  }

  lemma LeftIsEven(r: bv16, i: nat)
    requires i < 16
    ensures !Odd(Left(r, 16 - i))
  {
    if i == 0 {} else if i == 1 {} else if i == 2 {} else if i == 3 {} else if i == 4 {} else if i == 5 {}
    else if i == 6 {} else if i == 7 {} else if i == 8 {} else if i == 9 {} else if i == 10 {}
    else if i == 11 {} else if i == 12 {} else if i == 13 {} else if i == 14 {}
  }

  lemma LeftHalved(r: bv16, i: nat)
    requires i < 16
    ensures Half(Left(r, 16 - i)) == Left(r, 15 - i) & 0x7FFF
  {
    LeftBack(r, i);
  }

  lemma LeftBack(r: bv16, i: nat)
    requires i < 16
    ensures (r << (16 - i)) >> 1 == (r << (15 - i)) & 0x7FFF
  {
    if i == 0 {} else if i == 1 {} else if i == 2 {} else if i == 3 {} else if i == 4 {} else if i == 5 {}
    else if i == 6 {} else if i == 7 {} else if i == 8 {} else if i == 9 {} else if i == 10 {}
    else if i == 11 {} else if i == 12 {} else if i == 13 {} else if i == 14 {}
  }

  lemma TopTerm(r: bv16, i: nat)
    requires i < 16
    ensures Left(r, 15 - i) & 0x8000 == if Odd(Right(r, i)) then ONE else 0
  {
    if i == 0 {} else if i == 1 {} else if i == 2 {} else if i == 3 {} else if i == 4 {} else if i == 5 {}
    else if i == 6 {} else if i == 7 {} else if i == 8 {} else if i == 9 {} else if i == 10 {}
    else if i == 11 {} else if i == 12 {} else if i == 13 {} else if i == 14 {}
  }

  lemma TopAndRest(x: bv16)
    ensures Xor(x & 0x7FFF, x & 0x8000) == x
  {
  }

  /** Shifting `r` is multiplying it by that power of x. */
  lemma ShiftIsTimes(r: bv16, a: nat)
    ensures ShiftBits(r, a) == Times(ShiftBits(ONE, a), r)
  {
    hide ShiftBits, Terms, Times, Left, Right;
    Unshifted(r);
    TermsOfOne(r, 0);
    TermsShifted(ONE, r, 0, 16, a);
    BitsKernel(0, a);
    TimesIsTerms(ShiftBits(ONE, a), r);
  }

  // ---- Powers of x, by repeated squaring ----

  lemma Doubled(a: nat, p: bv16, q: bv16)
    requires ShiftBits(ONE, a) == p && Times(p, p) == q
    ensures ShiftBits(ONE, 2 * a) == q
  {
    hide ShiftBits, Times;
    ShiftBitsAdd(ONE, a, a);
    ShiftIsTimes(p, a);
  }

  lemma DoubledAndOne(a: nat, p: bv16, q: bv16)
    requires ShiftBits(ONE, a) == p && ShiftBit(Times(p, p)) == q
    ensures ShiftBits(ONE, 2 * a + 1) == q
  {
    hide ShiftBits, Times, ShiftBit;
    var s := Times(p, p);
    Doubled(a, p, s);
    ShiftBitsAdd(ONE, 2 * a, 1);
    ShiftBitsUnroll(s, 1);
    ShiftBitsUnroll(ShiftBit(s), 0);
  }

  lemma FirstPowers()
    ensures ShiftBits(ONE, 8) == 0x0080 && ShiftBits(ONE, 9) == 0x0040
    ensures ShiftBits(ONE, 13) == 0x0004 && ShiftBits(ONE, 15) == 0x0001
  {
    assert ShiftBits(ONE, 8) == ShiftBits(0x4000, 7) == ShiftBits(0x1000, 5) == ShiftBits(0x0400, 3);
    ShiftBitsAdd(ONE, 8, 1);
    ShiftBitsAdd(ONE, 9, 4);
    ShiftBitsAdd(ONE, 13, 2);
  }

  lemma Power217()
    ensures ShiftBits(ONE, 217) == 0x3E55
  {
    hide ShiftBits;
    FirstPowers();
    DoubledAndOne(13, 0x0004, 0xC00D);
    Doubled(27, 0xC00D, 0xC079);
    Doubled(54, 0xC079, 0xDFE1);
    DoubledAndOne(108, 0xDFE1, 0x3E55);
  }

  lemma Power1057()
    ensures ShiftBits(ONE, 1057) == 0xCE41
  {
    hide ShiftBits;
    FirstPowers();
    Doubled(8, 0x0080, 0xA001);
    DoubledAndOne(16, 0xA001, 0xD401);
    Doubled(33, 0xD401, 0xC221);
    Doubled(66, 0xC221, 0x0608);
    Doubled(132, 0x0608, 0xC049);
    Doubled(264, 0xC049, 0xD861);
    DoubledAndOne(528, 0xD861, 0xCE41);
  }

  lemma Power4681()
    ensures ShiftBits(ONE, 4681) == 0x8C69
  {
    hide ShiftBits;
    FirstPowers();
    Doubled(9, 0x0040, 0xD801);
    Doubled(18, 0xD801, 0xC281);
    DoubledAndOne(36, 0xC281, 0x3004);
    Doubled(73, 0x3004, 0xCA19);
    Doubled(146, 0xCA19, 0xC169);
    DoubledAndOne(292, 0xC169, 0x0F31);
    Doubled(585, 0x0F31, 0x672B);
    Doubled(1170, 0x672B, 0x8E4C);
    DoubledAndOne(2340, 0x8E4C, 0x8C69);
  }

  lemma Power32767()
    ensures ShiftBits(ONE, 32767) == 0x8000
  {
    hide ShiftBits;
    FirstPowers();
    DoubledAndOne(15, 0x0001, 0x9001);
    DoubledAndOne(31, 0x9001, 0xD101);
    DoubledAndOne(63, 0xD101, 0xC100);
    DoubledAndOne(127, 0xC100, 0x5001);
    DoubledAndOne(255, 0x5001, 0x8101);
    DoubledAndOne(511, 0x8101, 0xD000);
    DoubledAndOne(1023, 0xD000, 0x5100);
    DoubledAndOne(2047, 0x5100, 0x1101);
    DoubledAndOne(4095, 0x1101, 0x9100);
    DoubledAndOne(8191, 0x9100, 0x4101);
    DoubledAndOne(16383, 0x4101, 0x8000);
  }

  // ---- The order of x ----

  /** `n` shifts leave the polynomial 1 as it is. */
  predicate Period(n: nat) {
    ShiftBits(ONE, n) == ONE
  }

  lemma {:induction false} PeriodTimes(n: nat, k: nat)
    requires Period(n)
    ensures Period(k * n)
    decreases k
  {
    hide ShiftBits;
    if k == 0 {
      ShiftBitsUnroll(ONE, 0);
    } else {
      PeriodTimes(n, k - 1);
      assert k * n == (k - 1) * n + n;
      ShiftBitsAdd(ONE, (k - 1) * n, n);
    }
  }

  lemma PeriodRest(n: nat, k: nat, rest: nat)
    requires Period(n) && Period(k * n + rest)
    ensures Period(rest)
  {
    hide ShiftBits;
    PeriodTimes(n, k);
    ShiftBitsAdd(ONE, k * n, rest);
  }

  predicate SmallPrime(p: nat) {
    p == 7 || p == 31 || p == 151
  }

  lemma PrimeLeavesRest(p: nat, r: nat)
    requires SmallPrime(p) && 1 < r < p
    ensures p % r != 0
  {
    var k := p / r;
    if p % r == 0 {
      assert p == k * r;
      if r < 13 {
        SmallFactor(p, r, k);
      } else {
        assert 13 * k <= r * k;
        SmallFactor(p, k, r);
      }
    }
  }

  lemma SmallFactor(p: nat, r: nat, k: nat)
    requires SmallPrime(p) && r < 13 && p == k * r
    ensures r == 1 || k == 1
  {
    if r == 0 {} else if r == 2 {} else if r == 3 {} else if r == 4 {} else if r == 5 {} else if r == 6 {}
    else if r == 7 {} else if r == 8 {} else if r == 9 {} else if r == 10 {} else if r == 11 {}
  }

  /** `k` times `m` shifts leave it as it is. */
  predicate PeriodIn(m: nat, k: nat) {
    Period(m * k)
  }

  lemma PeriodRemains(m: nat, p: nat, r: nat)
    requires 0 < r && PeriodIn(m, p) && PeriodIn(m, r)
    ensures PeriodIn(m, p % r)
  {
    hide Period;
    Regroup(m, p / r, r, p % r);
    PeriodRest(m * r, p / r, m * (p % r));
  }

  lemma Regroup(m: int, k: int, r: int, rest: int)
    ensures m * (k * r + rest) == k * (m * r) + m * rest
  {
    assert m * (k * r + rest) == m * (k * r) + m * rest;
    assert m * (k * r) == k * (m * r);
  }

  /** Periods of `p`, a prime, and of fewer times `m` leave `m` by the remainders of Euclid. */
  lemma {:induction false} PeriodDescends(m: nat, p: nat, r: nat)
    requires SmallPrime(p) && 0 < r < p && PeriodIn(m, p) && PeriodIn(m, r)
    ensures PeriodIn(m, 1)
    decreases r
  {
    hide PeriodIn;
    if r > 1 {
      PrimeLeavesRest(p, r);
      PeriodRemains(m, p, r);
      PeriodDescends(m, p, p % r);
    }
  }

  /** A number that 7, 31 and 151 divide is a multiple of their product. */
  lemma AllThreeDivide(d: nat)
    requires d % 7 == 0 && d % 31 == 0 && d % 151 == 0
    ensures d % 32767 == 0
  {
    var a, b, c := d / 7, d / 31, d / 151;
    assert d == 7 * a && d == 31 * b && d == 151 * c;
    Combine(a, b, c, d);
  }

  lemma Combine(a: int, b: int, c: int, d: int)
    requires d == 7 * a == 31 * b == 151 * c
    ensures d % 32767 == 0
  {
    var e := 9 * b - 2 * a;
    assert d == 217 * e;
    var f := 23 * e - 16 * c;
    assert d == 32767 * f;
  }

  lemma NoShorterPeriod(p: nat)
    requires SmallPrime(p)
    ensures !Period(32767 / p)
  {
    hide ShiftBits;
    Power217();
    Power1057();
    Power4681();
  }

  /** The number of shifts that return 1 to itself are exactly the multiples of 32767. */
  lemma OrderIs32767(d: nat)
    ensures Period(d) <==> d % 32767 == 0
  {
    hide ShiftBits, Period;
    FullPeriod();
    if d % 32767 == 0 {
      PeriodTimes(32767, d / 32767);
    } else if d % 7 != 0 {
      NoPeriod(d, 7);
    } else if d % 31 != 0 {
      NoPeriod(d, 31);
    } else {
      if d % 151 == 0 {
        AllThreeDivide(d);
      }
      NoPeriod(d, 151);
    }
  }

  lemma FullPeriod()
    ensures Period(32767)
  {
    hide ShiftBits;
    Power32767();
  }

  lemma NoPeriod(d: nat, p: nat)
    requires SmallPrime(p) && d % p != 0
    ensures !Period(d)
  {
    hide Period;
    var m, k, r := 32767 / p, d / p, d % p;
    FullPeriod();
    NoShorterPeriod(p);
    assert m * p == 32767;
    assert m * d == k * 32767 + m * r by {
      assert d == k * p + r;
      Regroup(m, k, p, r);
    }
    if Period(d) {
      PeriodTimes(d, m);
      PeriodRest(32767, k, m * r);
      PeriodDescends(m, p, r);
    }
  }

  /** Shifts return the last term, 1 as a number, to itself exactly when they return every polynomial. */
  lemma LastTermReturns(d: nat)
    ensures ShiftBits(1, d) == 1 <==> d % 32767 == 0
  {
    hide ShiftBits, Xor;
    FirstPowers();
    ShiftBitsAdd(ONE, 15, d);
    ShiftBitsAdd(ONE, d, 15);
    OrderIs32767(d);
    SameAfterShifts(ShiftBits(ONE, d), ONE, 15);
  }

  lemma SameAfterShifts(x: bv16, y: bv16, n: nat)
    ensures ShiftBits(x, n) == ShiftBits(y, n) <==> x == y
  {
    hide ShiftBits, Xor;
    ShiftBitsLinear(x, y, n);
    BitsKernel(Xor(x, y), n);
    XorIsZero(x, y);
    XorIsZero(ShiftBits(x, n), ShiftBits(y, n));
  }

  lemma XorIsZero(x: bv16, y: bv16)
    ensures Xor(x, y) == 0 <==> x == y
  {
    hide Xor;
    SelfXor(x);
    XorBack(x, y);
    XorNone(x);
  }

  lemma XorBack(x: bv16, y: bv16)
    ensures Xor(x, Xor(x, y)) == y
  {
  }

  // ---- Two flipped bits ----

  /** The messages differ in bits `i` and `j`, and in no other. */
  ghost predicate DifferAt(a: seq<Byte>, b: seq<Byte>, i: nat, j: nat)
    requires |a| == |b|
  {
    && i < j < 8 * |a|
    && forall k: nat :: k < 8 * |a| ==> (BitAt(a, k) != BitAt(b, k) <==> k == i || k == j)
  }

  lemma {:induction false} DeltaBetween(a: seq<Byte>, b: seq<Byte>, i: nat, j: nat, k: nat)
    requires |a| == |b| && DifferAt(a, b, i, j) && i < k <= j
    ensures Delta(a, b, k) == ShiftBits(1, k - i)
    decreases k
  {
    hide Delta, SerialStep, ShiftBits, ShiftBit, BitAt;
    DeltaStep(a, b, k - 1);
    if k == i + 1 {
      NoDeltaBefore(a, b, i);
      FirstShift();
    } else {
      DeltaBetween(a, b, i, j, k - 1);
      QuietStep(ShiftBits(1, k - 1 - i));
      ShiftBitsAdd(1, k - 1 - i, 1);
      ShiftBitsUnroll(ShiftBits(1, k - 1 - i), 1);
      ShiftBitsUnroll(ShiftBit(ShiftBits(1, k - 1 - i)), 0);
    }
  }

  lemma FirstShift()
    ensures SerialStep(0, true) == ShiftBits(1, 1)
  {
  }

  lemma QuietStep(d: bv16)
    ensures SerialStep(d, false) == ShiftBit(d)
  {
  }

  /** Without further differences a zero difference stays zero, and no other becomes zero. */
  lemma {:induction false} DeltaSettled(a: seq<Byte>, b: seq<Byte>, from: nat, k: nat)
    requires |a| == |b| && from <= k <= 8 * |a|
    requires forall i | from <= i < k :: BitAt(a, i) == BitAt(b, i)
    ensures Delta(a, b, k) == 0 <==> Delta(a, b, from) == 0
    decreases k - from
  {
    hide Delta, SerialStep, ShiftBit, BitAt;
    if from < k {
      DeltaStep(a, b, from);
      QuietStep(Delta(a, b, from));
      BitKernel(Delta(a, b, from));
      DeltaSettled(a, b, from + 1, k);
    }
  }

  lemma SecondStep(d: bv16)
    ensures SerialStep(d, true) == 0 <==> d == 1
  {
    hide ShiftBit;
    BitKernel(Xor(d, 1));
    XorIsZero(d, 1);
  }

  lemma CrcDelta(a: seq<Byte>, b: seq<Byte>)
    requires |a| == |b|
    ensures Crc(a) == Crc(b) <==> Delta(a, b, 8 * |a|) == 0
  {
    hide Serial, Register, Xor;
    SerialIsRegister(a, |a|);
    SerialIsRegister(b, |b|);
    assert a[..|a|] == a && b[..|b|] == b;
    XorIsZero(Register(a), Register(b));
    EqualAsInts(Register(a), Register(b));
  }

  /** Two flipped bits go undetected exactly when they are a multiple of 32767 places apart. */
  lemma TwoBitsDetected(a: seq<Byte>, b: seq<Byte>, i: nat, j: nat)
    requires |a| == |b| && DifferAt(a, b, i, j)
    ensures Crc(a) == Crc(b) <==> (j - i) % 32767 == 0
  {
    hide Crc, Delta, SerialStep, ShiftBits, BitAt;
    DeltaBetween(a, b, i, j, j);
    DeltaStep(a, b, j);
    SecondStep(ShiftBits(1, j - i));
    LastTermReturns(j - i);
    DeltaSettled(a, b, j + 1, 8 * |a|);
    CrcDelta(a, b);
  }

  // ---- One to three flipped bits ----

  lemma {:induction false} NoneDiffer(a: seq<Byte>, b: seq<Byte>, k: nat)
    requires |a| == |b| && k <= 8 * |a| && Differences(a, b, k) == 0
    ensures forall i: nat :: i < k ==> BitAt(a, i) == BitAt(b, i)
  {
    hide BitAt;
    if k > 0 {
      NoneDiffer(a, b, k - 1);
    }
  }

  lemma {:induction false} OneDiffers(a: seq<Byte>, b: seq<Byte>, k: nat) returns (i: nat)
    requires |a| == |b| && k <= 8 * |a| && Differences(a, b, k) == 1
    ensures i < k && forall n: nat :: n < k ==> (BitAt(a, n) != BitAt(b, n) <==> n == i)
  {
    hide BitAt;
    if BitAt(a, k - 1) != BitAt(b, k - 1) {
      NoneDiffer(a, b, k - 1);
      i := k - 1;
    } else {
      i := OneDiffers(a, b, k - 1);
    }
  }

  lemma {:induction false} TwoDiffer(a: seq<Byte>, b: seq<Byte>, k: nat) returns (i: nat, j: nat)
    requires |a| == |b| && k <= 8 * |a| && Differences(a, b, k) == 2
    ensures i < j < k && forall n: nat :: n < k ==> (BitAt(a, n) != BitAt(b, n) <==> n == i || n == j)
  {
    hide BitAt;
    if BitAt(a, k - 1) != BitAt(b, k - 1) {
      i := OneDiffers(a, b, k - 1);
      j := k - 1;
    } else {
      i, j := TwoDiffer(a, b, k - 1);
    }
  }

  /** In messages of up to 32767 bits, one to three flipped bits, wherever they are, always change the CRC. */
  lemma ThreeBitsDetected(a: seq<Byte>, b: seq<Byte>)
    requires |a| == |b| && 8 * |a| <= 32767
    requires 1 <= Differences(a, b, 8 * |a|) <= 3
    ensures Crc(a) != Crc(b)
  {
    hide Crc, Differences, Register, OddParity, Xor;
    if Differences(a, b, 8 * |a|) == 2 {
      var i, j := TwoDiffer(a, b, 8 * |a|);
      TwoBitsDetected(a, b, i, j);
    } else {
      OddErrorsDetected(a, b);
    }
  }
}
