/** What the CRC detects whatever the length of the message: every burst of at most sixteen bits, and every
    odd number of flipped bits. */
module CrcErrors {
  import opened Bytes
  import opened Bits
  import opened Crc16

  /** Bit `k` of a message in transmission order: least significant bit of each byte first. */
  predicate BitAt(m: seq<Byte>, k: nat)
    requires k < 8 * |m|
  {
    BitOf(m[k / 8], k % 8)
  }

  /** All the bits in which the two messages differ lie in `p..p + 16`. */
  ghost predicate DifferWithin(a: seq<Byte>, b: seq<Byte>, p: nat)
    requires |a| == |b|
  {
    forall k: nat :: k < 8 * |a| && BitAt(a, k) != BitAt(b, k) ==> p <= k < p + 16
  }

  /** The shift register fed one bit. */
  function SerialStep(r: bv16, bit: bool): bv16 {
    ShiftBit(Xor(r, if bit then 1 else 0))
  }

  function Serial(m: seq<Byte>, k: nat): bv16
    requires k <= 8 * |m|
  {
    if k == 0 then 0xFFFF else SerialStep(Serial(m, k - 1), BitAt(m, k - 1))
  }

  function SerialBits(r: bv16, b: Byte, from: nat): bv16
    requires from <= 8
    decreases 8 - from
  {
    if from == 8 then r else SerialBits(SerialStep(r, BitOf(b, from)), b, from + 1)
  }

  /** The bits of a byte from bit `from` on. */
  function Remaining(b: Byte, from: nat): bv16
    requires from <= 8
  {
    (b as bv16) >> from
  }

  function Half(x: bv16): bv16 {
    x >> 1
  }

  predicate Odd(x: bv16) {
    x & 1 == 1
  }

  /** XORing the rest of a byte in first and shifting after is feeding its bits one at a time. */
  lemma {:induction false} ByteSerially(r: bv16, b: Byte, from: nat)
    requires from <= 8
    ensures ShiftBits(Xor(r, Remaining(b, from)), 8 - from) == SerialBits(r, b, from)
    decreases 8 - from
  {
    hide Xor, SerialStep, ShiftBit, Remaining, Half, Odd, BitOf;
    if from == 8 {
      NothingLeft(r, b);
    } else {
      OneBitLess(b, from);
      FeedBit(r, Remaining(b, from));
      ByteSerially(SerialStep(r, BitOf(b, from)), b, from + 1);
    }
  }

  lemma NothingLeft(r: bv16, b: Byte)
    ensures Xor(r, Remaining(b, 8)) == r
  {
    SmallVanishes(r, b as bv16);
  }

  lemma SmallVanishes(r: bv16, x: bv16)
    requires x < 0x100
    ensures r ^ (x >> 8) == r
  {
  }

  lemma OneBitLess(b: Byte, from: nat)
    requires from < 8
    ensures Half(Remaining(b, from)) == Remaining(b, from + 1)
    ensures Odd(Remaining(b, from)) == BitOf(b, from)
  {
    hide BitOf;
    ShiftedBit(b, from);
    ShiftAgain(b as bv16, from);
  }

  lemma ShiftAgain(x: bv16, n: nat)
    requires n < 8
    ensures (x >> n) >> 1 == x >> (n + 1)
  {
    if n == 0 {} else if n == 1 {} else if n == 2 {} else if n == 3 {}
    else if n == 4 {} else if n == 5 {} else if n == 6 {}
  }

  lemma FeedBit(r: bv16, x: bv16)
    ensures ShiftBit(Xor(r, x)) == Xor(SerialStep(r, Odd(x)), Half(x))
  {
    hide ShiftBit;
    ShiftBitLinear(Xor(r, x & 1), x & 0xFFFE);
    EvenShift(x);
    LowBit(r, x);
  }

  lemma EvenShift(x: bv16)
    ensures ShiftBit(x & 0xFFFE) == x >> 1
  {
  }

  lemma LowBit(r: bv16, x: bv16)
    ensures Xor(r, x) == Xor(Xor(r, x & 1), x & 0xFFFE)
    ensures x & 1 == if x & 1 == 1 then 1 else 0
  {
  }

  /** Eight bits at a time, the serial register is the register of `Crc16`. */
  lemma {:induction false} SerialIsRegister(m: seq<Byte>, n: nat)
    requires n <= |m|
    ensures Serial(m, 8 * n) == Register(m[..n])
  {
    hide ShiftByte, Xor, SerialBits, Serial, Register;
    if n == 0 {
      SerialStart(m, m);
      EmptyRegister();
      assert m[..0] == [];
    } else {
      SerialIsRegister(m, n - 1);
      SerialFromByte(m, n - 1, 0);
      WholeByteSerially(Serial(m, 8 * (n - 1)), m[n - 1]);
      RegisterSnoc(m[..n]);
      assert m[..n][..n - 1] == m[..n - 1];
    }
  }

  lemma WholeByteSerially(r: bv16, b: Byte)
    ensures ShiftByte(Xor(r, b as bv16)) == SerialBits(r, b, 0)
  {
    hide ShiftBits, Xor, SerialBits, Remaining;
    ByteSerially(r, b, 0);
    UnshiftedByte(b);
  }

  lemma UnshiftedByte(b: Byte)
    ensures Remaining(b, 0) == b as bv16
  {
  }

  lemma {:induction false} SerialFromByte(m: seq<Byte>, i: nat, from: nat)
    requires i < |m| && from <= 8
    ensures SerialBits(Serial(m, 8 * i + from), m[i], from) == Serial(m, 8 * i + 8)
    decreases 8 - from
  {
    hide SerialStep, BitAt, Serial;
    if from < 8 {
      SerialFromByte(m, i, from + 1);
      SerialNext(m, 8 * i + from);
      BitOfByteAt(m, i, from);
    }
  }

  lemma SerialNext(m: seq<Byte>, k: nat)
    requires k < 8 * |m|
    ensures Serial(m, k + 1) == SerialStep(Serial(m, k), BitAt(m, k))
  {
  }

  lemma BitOfByteAt(m: seq<Byte>, i: nat, j: nat)
    requires i < |m| && j < 8
    ensures BitAt(m, 8 * i + j) == BitOf(m[i], j)
  {
    assert (8 * i + j) / 8 == i && (8 * i + j) % 8 == j;
  }

  /** The difference of two registers evolves as a register fed the difference of the bits. */
  lemma SerialXor(x: bv16, a: bool, y: bv16, b: bool)
    ensures Xor(SerialStep(x, a), SerialStep(y, b)) == SerialStep(Xor(x, y), a != b)
  {
    hide ShiftBit;
    var p, q: bv16 := if a then 1 else 0, if b then 1 else 0;
    ShiftBitLinear(Xor(x, p), Xor(y, q));
    XorPairs(x, y, p, q);
  }

  lemma XorPairs(x: bv16, y: bv16, p: bv16, q: bv16)
    ensures Xor(Xor(x, p), Xor(y, q)) == Xor(Xor(x, y), Xor(p, q))
    ensures Xor(1, 1) == 0 == Xor(0, 0) && Xor(1, 0) == 1 == Xor(0, 1)
  {
  }

  function Delta(a: seq<Byte>, b: seq<Byte>, k: nat): bv16
    requires |a| == |b| && k <= 8 * |a|
  {
    Xor(Serial(a, k), Serial(b, k))
  }

  lemma DeltaStep(a: seq<Byte>, b: seq<Byte>, k: nat)
    requires |a| == |b| && k < 8 * |a|
    ensures Delta(a, b, k + 1) == SerialStep(Delta(a, b, k), BitAt(a, k) != BitAt(b, k))
  {
    hide SerialStep, Xor;
    SerialXor(Serial(a, k), BitAt(a, k), Serial(b, k), BitAt(b, k));
  }

  lemma {:induction false} NoDeltaBefore(a: seq<Byte>, b: seq<Byte>, k: nat)
    requires |a| == |b| && k <= 8 * |a|
    requires forall i | 0 <= i < k :: BitAt(a, i) == BitAt(b, i)
    ensures Delta(a, b, k) == 0
  {
    hide Serial;
    if k == 0 {
      assert Serial(a, 0) == Serial(b, 0) by { SerialStart(a, b); }
    } else {
      NoDeltaBefore(a, b, k - 1);
      DeltaStep(a, b, k - 1);
    }
  }

  lemma SerialStart(a: seq<Byte>, b: seq<Byte>)
    ensures Serial(a, 0) == 0xFFFF == Serial(b, 0)
  {
  }

  /** A first differing bit sets the top bit of the difference; each later step lowers its
      highest set bit by at most one place, whatever the other bits are. */
  lemma {:induction false} DeltaDuring(a: seq<Byte>, b: seq<Byte>, q: nat, j: nat)
    requires |a| == |b| && j < 16 && q + 1 + j <= 8 * |a|
    requires BitAt(a, q) != BitAt(b, q) && forall i | 0 <= i < q :: BitAt(a, i) == BitAt(b, i)
    ensures Delta(a, b, q + 1 + j) >= 0x8000 >> j
  {
    hide Delta, SerialStep;
    if j == 0 {
      NoDeltaBefore(a, b, q);
      DeltaStep(a, b, q);
      FirstDelta();
    } else {
      DeltaDuring(a, b, q, j - 1);
      DeltaStep(a, b, q + j);
      HighBit(Delta(a, b, q + j), BitAt(a, q + j) != BitAt(b, q + j), j);
    }
  }

  lemma FirstDelta()
    ensures SerialStep(0, true) == 0xA001 && 0x8000 as bv16 >> 0 == 0x8000
  {
  }

  lemma HighBit(d: bv16, bit: bool, j: nat)
    requires 0 < j < 16 && d >= 0x8000 >> (j - 1)
    ensures SerialStep(d, bit) >= 0x8000 >> j
  {
    hide SerialStep;
    HalvesAtMost(d, bit);
    var least: bv16 := 0x8000 >> (j - 1);
    ShiftMonotone(d, least);
    TopBitDown(j);
  }

  lemma HalvesAtMost(d: bv16, bit: bool)
    ensures SerialStep(d, bit) >= d >> 1
  {
  }

  lemma ShiftMonotone(d: bv16, e: bv16)
    requires d >= e
    ensures d >> 1 >= e >> 1
  {
  }

  lemma TopBitDown(j: nat)
    requires 0 < j < 16
    ensures (0x8000 as bv16 >> (j - 1)) >> 1 == 0x8000 >> j
  {
    if j == 1 {} else if j == 2 {} else if j == 3 {} else if j == 4 {} else if j == 5 {} else if j == 6 {}
    else if j == 7 {} else if j == 8 {} else if j == 9 {} else if j == 10 {} else if j == 11 {}
    else if j == 12 {} else if j == 13 {} else if j == 14 {}
  }

  /** Without further differences a nonzero difference stays nonzero. */
  lemma {:induction false} DeltaAfter(a: seq<Byte>, b: seq<Byte>, from: nat, k: nat)
    requires |a| == |b| && from <= k <= 8 * |a|
    requires Delta(a, b, from) != 0
    requires forall i | from <= i < k :: BitAt(a, i) == BitAt(b, i)
    ensures Delta(a, b, k) != 0
    decreases k - from
  {
    hide Delta, SerialStep;
    if from < k {
      DeltaStep(a, b, from);
      StaysNonzero(Delta(a, b, from));
      DeltaAfter(a, b, from + 1, k);
    }
  }

  lemma StaysNonzero(d: bv16)
    requires d != 0
    ensures SerialStep(d, false) != 0
  {
  }

  lemma FirstDifference(a: seq<Byte>, b: seq<Byte>) returns (q: nat)
    requires |a| == |b| && a != b
    ensures q < 8 * |a| && BitAt(a, q) != BitAt(b, q)
    ensures forall i | 0 <= i < q :: BitAt(a, i) == BitAt(b, i)
  {
    var n: nat :| n < |a| && a[n] != b[n];
    hide BitOf;
    if forall j: nat :: j < 8 ==> BitOf(a[n], j) == BitOf(b[n], j) {
      SameBits(a[n], b[n]);
    }
    var j: nat :| j < 8 && BitOf(a[n], j) != BitOf(b[n], j);
    BitOfByteAt(a, n, j);
    BitOfByteAt(b, n, j);
    q := 0;
    while BitAt(a, q) == BitAt(b, q)
      invariant q <= 8 * n + j
      invariant forall i | 0 <= i < q :: BitAt(a, i) == BitAt(b, i)
      decreases 8 * n + j - q
    {
      q := q + 1;
    }
  }

  /** Two different messages of equal length whose differing bits lie within sixteen consecutive
      bits never have the same CRC. */
  lemma BurstDetected(a: seq<Byte>, b: seq<Byte>, p: nat)
    requires |a| == |b| && a != b
    requires DifferWithin(a, b, p)
    ensures Crc(a) != Crc(b)
  {
    hide Serial, Register, Xor;
    var n := 8 * |a|;
    var q := FirstDifference(a, b);
    var j := if n - q - 1 < 15 then n - q - 1 else 15;
    DeltaDuring(a, b, q, j);
    NotZero(Delta(a, b, q + 1 + j), j);
    DeltaAfter(a, b, q + 1 + j, n);
    SerialIsRegister(a, |a|);
    SerialIsRegister(b, |b|);
    assert a[..|a|] == a && b[..|b|] == b;
    UnequalAsInts(Register(a), Register(b));
  }

  lemma NotZero(d: bv16, j: nat)
    requires j < 16 && d >= 0x8000 >> j
    ensures d != 0
  {
    if j == 0 {} else if j == 1 {} else if j == 2 {} else if j == 3 {} else if j == 4 {} else if j == 5 {}
    else if j == 6 {} else if j == 7 {} else if j == 8 {} else if j == 9 {} else if j == 10 {}
    else if j == 11 {} else if j == 12 {} else if j == 13 {} else if j == 14 {}
  }

  lemma UnequalAsInts(x: bv16, y: bv16)
    requires Xor(x, y) != 0
    ensures x as int != y as int
  {
    hide Xor;
    FromInt(x);
    FromInt(y);
    SelfXor(x);
  }

  lemma FromInt(x: bv16)
    ensures (x as int) as bv16 == x
  {
  }

  lemma SelfXor(x: bv16)
    ensures Xor(x, x) == 0
  {
  }

  /** How many of the first `k` bits differ. */
  function Differences(a: seq<Byte>, b: seq<Byte>, k: nat): nat
    requires |a| == |b| && k <= 8 * |a|
  {
    if k == 0 then 0 else Differences(a, b, k - 1) + if BitAt(a, k - 1) != BitAt(b, k - 1) then 1 else 0
  }

  /** Whether an odd number of the low `n` bits is set. */
  predicate OddOnes(x: bv16, n: nat) {
    n > 0 && Odd(x) != OddOnes(Half(x), n - 1)
  }

  predicate OddParity(x: bv16) {
    OddOnes(x, 16)
  }

  lemma {:induction false} OddOnesLinear(x: bv16, y: bv16, n: nat)
    ensures OddOnes(Xor(x, y), n) <==> OddOnes(x, n) != OddOnes(y, n)
    decreases n
  {
    hide Xor, Odd, Half;
    if n > 0 {
      HalvesXor(x, y);
      OddOnesLinear(Half(x), Half(y), n - 1);
    }
  }

  lemma HalvesXor(x: bv16, y: bv16)
    ensures Half(Xor(x, y)) == Xor(Half(x), Half(y))
    ensures Odd(Xor(x, y)) <==> Odd(x) != Odd(y)
  {
    ShiftRightXor(x, y);
    LowBitXor(x, y);
  }

  /** Bits above the highest set one do not count. */
  lemma {:induction false} NoOnesAbove(x: bv16, n: nat, least: bv16)
    requires n < 16 && least == 0x8000 >> (15 - n) && x < least
    ensures OddOnes(x, n + 1) <==> OddOnes(x, n)
    decreases n
  {
    hide Odd, Half;
    if n == 0 {
      OnlyZero(x);
    } else {
      HalfBelow(x, n, least);
      NoOnesAbove(Half(x), n - 1, 0x8000 >> (16 - n));
    }
  }

  lemma OnlyZero(x: bv16)
    requires x < (0x8000 as bv16 >> 15)
    ensures !Odd(x)
  {
  }

  lemma HalfBelow(x: bv16, n: nat, least: bv16)
    requires 0 < n < 16 && least == 0x8000 >> (15 - n) && x < least
    ensures Half(x) < 0x8000 >> (16 - n)
  {
    if n == 1 {} else if n == 2 {} else if n == 3 {} else if n == 4 {} else if n == 5 {} else if n == 6 {}
    else if n == 7 {} else if n == 8 {} else if n == 9 {} else if n == 10 {} else if n == 11 {}
    else if n == 12 {} else if n == 13 {} else if n == 14 {}
  }

  /** The polynomial has three low terms and drops the highest, so a step of the register keeps the parity of
      all bits fed to it. */
  lemma StepParity(r: bv16, bit: bool)
    ensures OddParity(SerialStep(r, bit)) <==> OddParity(r) != bit
  {
    hide OddParity, ShiftBit;
    ShiftParity(Xor(r, if bit then 1 else 0));
    ParityXor(r, 1);
    ParityOfOne();
    XorNone(r);
  }

  lemma ParityXor(x: bv16, y: bv16)
    ensures OddParity(Xor(x, y)) <==> OddParity(x) != OddParity(y)
  {
    hide OddOnes, Xor;
    OddOnesLinear(x, y, 16);
  }

  lemma ShiftParity(r: bv16)
    ensures OddParity(ShiftBit(r)) <==> OddParity(r)
  {
    hide Odd, Half, Xor, ShiftBit;
    HalfFits(r);
    NoOnesAbove(Half(r), 15, 0x8000);
    ShiftByHalf(r);
    ParityXor(Half(r), 0xA001);
    ParityOfPolynomial();
  }

  lemma HalfFits(r: bv16)
    ensures Half(r) < 0x8000 && (0x8000 as bv16) >> 0 == 0x8000
  {
  }

  lemma ShiftByHalf(r: bv16)
    ensures ShiftBit(r) == if Odd(r) then Xor(Half(r), 0xA001) else Half(r)
  {
  }

  lemma {:induction false} NoOnes(n: nat)
    ensures !OddOnes(0, n)
  {
    if n > 0 {
      NoOnes(n - 1);
    }
  }

  lemma ParityOfOne()
    ensures OddParity(1)
  {
    NoOnes(15);
  }

  lemma ParityOfPolynomial()
    ensures OddParity(0xA001)
  {
    assert OddOnes(0x0001, 1);
    assert OddOnes(0x0002, 2);
    assert !OddOnes(0x0005, 3);
    assert !OddOnes(0x000A, 4);
    assert !OddOnes(0x0014, 5);
    assert !OddOnes(0x0028, 6);
    assert !OddOnes(0x0050, 7);
    assert !OddOnes(0x00A0, 8);
    assert !OddOnes(0x0140, 9);
    assert !OddOnes(0x0280, 10);
    assert !OddOnes(0x0500, 11);
    assert !OddOnes(0x0A00, 12);
    assert !OddOnes(0x1400, 13);
    assert !OddOnes(0x2800, 14);
    assert !OddOnes(0x5000, 15);
  }

  lemma XorNone(r: bv16)
    ensures Xor(r, 0) == r
  {
  }

  /** The parity of the difference of the two registers is that of the number of differing bits. */
  lemma {:induction false} DeltaParity(a: seq<Byte>, b: seq<Byte>, k: nat)
    requires |a| == |b| && k <= 8 * |a|
    ensures OddParity(Delta(a, b, k)) <==> Differences(a, b, k) % 2 == 1
  {
    hide Delta, SerialStep, OddParity, BitAt, Differences;
    if k == 0 {
      NoDeltaBefore(a, b, 0);
      EvenZero();
      NoDifferences(a, b);
    } else {
      DeltaParity(a, b, k - 1);
      DeltaStep(a, b, k - 1);
      StepParity(Delta(a, b, k - 1), BitAt(a, k - 1) != BitAt(b, k - 1));
      OneMoreDifference(a, b, k);
    }
  }

  lemma OneMoreDifference(a: seq<Byte>, b: seq<Byte>, k: nat)
    requires |a| == |b| && 0 < k <= 8 * |a|
    ensures var before := Differences(a, b, k - 1);
      Differences(a, b, k) % 2 == 1 <==> (before % 2 == 1) != (BitAt(a, k - 1) != BitAt(b, k - 1))
  {
    hide BitAt;
  }

  lemma NoDifferences(a: seq<Byte>, b: seq<Byte>)
    requires |a| == |b|
    ensures Differences(a, b, 0) == 0
  {
  }

  lemma EvenZero()
    ensures !OddParity(0)
  {
    NoOnes(16);
  }

  /** Two messages of equal length that differ in an odd number of bits, wherever they are, never have the
      same CRC: the parity of the difference of the registers is that of the number of flipped bits. */
  lemma OddErrorsDetected(a: seq<Byte>, b: seq<Byte>)
    requires |a| == |b|
    ensures OddParity(Xor(Register(a), Register(b))) <==> Differences(a, b, 8 * |a|) % 2 == 1
    ensures Differences(a, b, 8 * |a|) % 2 == 1 ==> Crc(a) != Crc(b)
  {
    hide Serial, Register, Xor, OddParity;
    DeltaParity(a, b, 8 * |a|);
    SerialIsRegister(a, |a|);
    SerialIsRegister(b, |b|);
    assert a[..|a|] == a && b[..|b|] == b;
    EvenZero();
    if Differences(a, b, 8 * |a|) % 2 == 1 {
      UnequalAsInts(Register(a), Register(b));
    }
  }

  /** The trailer matches exactly when the CRC of the whole frame, trailer included, is zero. */
  lemma ZeroResidue(f: seq<Byte>)
    requires |f| >= 2
    ensures TrailerMatches(f) <==> Crc(f) == 0
  {
    hide ShiftByte, Xor, Register;
    var n := |f|;
    LastTwoBytes(f);
    TwoByteKernelInts(Register(f[..n - 2]), f[n - 2], f[n - 1]);
    ZeroAsInt(Register(f));
  }

  lemma LastTwoBytes(f: seq<Byte>)
    requires |f| >= 2
    ensures Register(f)
         == ShiftByte(Xor(ShiftByte(Xor(Register(f[..|f| - 2]), f[|f| - 2] as bv16)), f[|f| - 1] as bv16))
  {
    hide ShiftByte, Xor;
    assert f[..|f| - 1][..|f| - 2] == f[..|f| - 2];
    RegisterSnoc(f);
    RegisterSnoc(f[..|f| - 1]);
  }

  lemma RegisterSnoc(f: seq<Byte>)
    requires |f| >= 1
    ensures Register(f) == ShiftByte(Xor(Register(f[..|f| - 1]), f[|f| - 1] as bv16))
  {
  }

  lemma ZeroAsInt(x: bv16)
    ensures x as int == 0 <==> x == 0
  {
    FromInt(x);
  }

  lemma TwoByteKernel(r: bv16, l: bv16, h: bv16)
    requires l < 0x100 && h < 0x100
    ensures ShiftByte(Xor(ShiftByte(Xor(r, l)), h)) == 0 <==> r == Join(h, l)
  {
    hide ShiftByte, Xor, Join;
    var i := Xor(r, l) & 0xFF;
    SplitRegister(r, l);
    TableStep(r, l);
    ByteKernel(Xor(Xor(r >> 8, ShiftByte(i)), h));
    XorBalance(r >> 8, ShiftByte(i), h, i);
    LowCleared(r, l);
    JoinSplits(r, h, l);
  }

  lemma TwoByteKernelInts(r: bv16, lo: Byte, hi: Byte)
    ensures ShiftByte(Xor(ShiftByte(Xor(r, lo as bv16)), hi as bv16)) == 0 <==> r as int == lo + 0x100 * (hi as int)
  {
    hide ShiftByte, Xor, Join;
    ByteFromInt(lo);
    ByteFromInt(hi);
    TwoByteKernel(r, lo as bv16, hi as bv16);
    WordOfBytes(r, lo, hi);
  }

  lemma ByteKernel(x: bv16)
    ensures ShiftByte(x) == 0 <==> x == 0
  {
    hide ShiftBit;
    BitsKernel(x, 8);
  }

  lemma {:induction false} BitsKernel(x: bv16, n: nat)
    ensures ShiftBits(x, n) == 0 <==> x == 0
    decreases n
  {
    hide ShiftBit;
    if n > 0 {
      BitKernel(x);
      BitsKernel(ShiftBit(x), n - 1);
    }
  }

  lemma BitKernel(x: bv16)
    ensures ShiftBit(x) == 0 <==> x == 0
  {
  }

  lemma XorBalance(a: bv16, t: bv16, h: bv16, i: bv16)
    requires a < 0x100 && h < 0x100 && i < 0x100 && t == ShiftByte(i)
    ensures Xor(Xor(a, t), h) == 0 <==> a == h && i == 0
  {
    hide ShiftByte;
    ByteKernel(i);
    if t < 0x100 {
      OnlyZeroFits(i);
    }
    XorZero(a, t, h);
  }

  lemma XorZero(a: bv16, t: bv16, h: bv16)
    requires a < 0x100 && h < 0x100
    ensures Xor(Xor(a, t), h) == 0 ==> t < 0x100
    ensures t == 0 ==> (Xor(Xor(a, t), h) == 0 <==> a == h)
  {
  }

  /** No table entry but the first has a zero high byte. */
  lemma OnlyZeroFits(i: bv16)
    requires i < 0x100 && ShiftByte(i) < 0x100
    ensures i == 0
  {
    ShiftByteUnrolled(i);
  }

  lemma LowCleared(r: bv16, l: bv16)
    requires l < 0x100
    ensures Xor(r, l) & 0xFF == 0 <==> r & 0xFF == l
    ensures r >> 8 < 0x100
  {
  }

  function Join(h: bv16, l: bv16): bv16 {
    (h << 8) | l
  }

  lemma JoinSplits(r: bv16, h: bv16, l: bv16)
    requires l < 0x100 && h < 0x100
    ensures r == Join(h, l) <==> r >> 8 == h && r & 0xFF == l
  {
    hide Join;
    Rejoin(r);
    Halves(h, l);
  }

  lemma Rejoin(r: bv16)
    ensures r == Join(r >> 8, r & 0xFF)
  {
  }

  lemma Halves(h: bv16, l: bv16)
    requires l < 0x100 && h < 0x100
    ensures Join(h, l) >> 8 == h && Join(h, l) & 0xFF == l
  {
  }

  lemma WordOfBytes(r: bv16, lo: Byte, hi: Byte)
    ensures r == Join(hi as bv16, lo as bv16) <==> r as int == lo + 0x100 * (hi as int)
  {
    hide Join;
    var w := Join(hi as bv16, lo as bv16);
    assert w as int == lo + 0x100 * (hi as int) by {
      ByteFromInt(lo);
      ByteFromInt(hi);
      ShiftedWord(lo as bv16, hi as bv16);
    }
    EqualAsInts(r, w);
  }

  lemma EqualAsInts(x: bv16, y: bv16)
    ensures x == y <==> x as int == y as int
  {
    FromInt(x);
    FromInt(y);
  }

  lemma ByteFromInt(b: Byte)
    ensures (b as bv16) as int == b && b as bv16 < 0x100
  {
  }

  lemma ShiftedWord(lo: bv16, hi: bv16)
    requires lo < 0x100 && hi < 0x100
    ensures Join(hi, lo) as int == lo as int + 0x100 * (hi as int)
  {
    ShiftedBits(lo, hi);
  }

  lemma ShiftedBits(lo: bv16, hi: bv16)
    requires lo < 0x100 && hi < 0x100
    ensures ((hi << 8) | lo) as int == lo as int + 0x100 * (hi as int)
  {
  }

  /** The values the library's own checks expect: of nothing, of one byte, and of two read requests. */
  lemma KnownValues()
    ensures Crc([]) == 0xFFFF && Crc([0x00]) == 0x40BF && Crc([0xFF]) == 0x00FF
    ensures Crc([0x01, 0x03, 0x00, 0x00, 0x00, 0x01]) == 0x0A84
    ensures Crc([0x11, 0x03, 0x00, 0x6B, 0x00, 0x03]) == 0x8776
  {
    hide Crc, Register;
    EmptyRegister();
    CrcIsRegister([]);
    Fed([], 0x00, 0xFFFF, 0x40BF);
    assert [] + [0x00] == [0x00];
    CrcIsRegister([0x00]);
    Fed([], 0xFF, 0xFFFF, 0x00FF);
    assert [] + [0xFF] == [0xFF];
    CrcIsRegister([0xFF]);
    KnownRequest();
    OtherKnownRequest();
  }

  lemma Fed(s: seq<Byte>, b: Byte, was: bv16, now: bv16)
    requires Register(s) == was && EightShifts(Xor(was, b as bv16)) == now
    ensures Register(s + [b]) == now
  {
    hide Register, ShiftByte, ShiftBit, Xor;
    RegisterAppend(s, b);
    ShiftByteUnrolled(Xor(was, b as bv16));
  }

  function EightShifts(r: bv16): bv16 {
    ShiftBit(ShiftBit(ShiftBit(ShiftBit(ShiftBit(ShiftBit(ShiftBit(ShiftBit(r))))))))
  }

  lemma KnownRequest()
    ensures Crc([0x01, 0x03, 0x00, 0x00, 0x00, 0x01]) == 0x0A84
  {
    hide Crc, Register;
    EmptyRegister();
    Fed([], 0x01, 0xFFFF, 0x807E);
    assert [] + [0x01] == [0x01];
    Fed([0x01], 0x03, 0x807E, 0x2140);
    assert [0x01] + [0x03] == [0x01, 0x03];
    Fed([0x01, 0x03], 0x00, 0x2140, 0xF020);
    assert [0x01, 0x03] + [0x00] == [0x01, 0x03, 0x00];
    Fed([0x01, 0x03, 0x00], 0x00, 0xF020, 0xD8F1);
    assert [0x01, 0x03, 0x00] + [0x00] == [0x01, 0x03, 0x00, 0x00];
    Fed([0x01, 0x03, 0x00, 0x00], 0x00, 0xD8F1, 0x8419);
    assert [0x01, 0x03, 0x00, 0x00] + [0x00] == [0x01, 0x03, 0x00, 0x00, 0x00];
    Fed([0x01, 0x03, 0x00, 0x00, 0x00], 0x01, 0x8419, 0x0A84);
    assert [0x01, 0x03, 0x00, 0x00, 0x00] + [0x01] == [0x01, 0x03, 0x00, 0x00, 0x00, 0x01];
    CrcIsRegister([0x01, 0x03, 0x00, 0x00, 0x00, 0x01]);
  }

  lemma OtherKnownRequest()
    ensures Crc([0x11, 0x03, 0x00, 0x6B, 0x00, 0x03]) == 0x8776
  {
    hide Crc, Register;
    EmptyRegister();
    Fed([], 0x11, 0xFFFF, 0x4C7F);
    assert [] + [0x11] == [0x11];
    Fed([0x11], 0x03, 0x4C7F, 0xE14D);
    assert [0x11] + [0x03] == [0x11, 0x03];
    Fed([0x11, 0x03], 0x00, 0xE14D, 0x3521);
    assert [0x11, 0x03] + [0x00] == [0x11, 0x03, 0x00];
    Fed([0x11, 0x03, 0x00], 0x6B, 0x3521, 0xF7B4);
    assert [0x11, 0x03, 0x00] + [0x6B] == [0x11, 0x03, 0x00, 0x6B];
    Fed([0x11, 0x03, 0x00, 0x6B], 0x00, 0xF7B4, 0x77F7);
    assert [0x11, 0x03, 0x00, 0x6B] + [0x00] == [0x11, 0x03, 0x00, 0x6B, 0x00];
    Fed([0x11, 0x03, 0x00, 0x6B, 0x00], 0x03, 0x77F7, 0x8776);
    assert [0x11, 0x03, 0x00, 0x6B, 0x00] + [0x03] == [0x11, 0x03, 0x00, 0x6B, 0x00, 0x03];
    CrcIsRegister([0x11, 0x03, 0x00, 0x6B, 0x00, 0x03]);
  }

  /** Sixteen bits is sharp: these two messages differ only within seventeen bits and share their CRC. */
  lemma SeventeenBitsMissed()
    ensures var a, b: seq<Byte> := [0x00, 0x00, 0x00], [0x03, 0x40, 0x01];
      && a != b && Crc(a) == Crc(b)
      && forall k: nat :: 17 <= k < 24 ==> BitAt(a, k) == BitAt(b, k)
  {
    hide Crc, BitAt;
    var a, b: seq<Byte> := [0x00, 0x00, 0x00], [0x03, 0x40, 0x01];
    CrcOfThree(0x00, 0x00, 0x00, 0x40BF, 0xB001, 0xC071);
    CrcOfThree(0x03, 0x40, 0x01, 0x41FF, 0xB000, 0xC071);
    forall k: nat | 17 <= k < 24
      ensures BitAt(a, k) == BitAt(b, k)
    {
      BitOfByteAt(a, 2, k - 16);
      BitOfByteAt(b, 2, k - 16);
    }
  }

  lemma CrcOfThree(x: Byte, y: Byte, z: Byte, r1: bv16, r2: bv16, r3: bv16)
    requires ShiftByte(Xor(0xFFFF, x as bv16)) == r1
    requires ShiftByte(Xor(r1, y as bv16)) == r2
    requires ShiftByte(Xor(r2, z as bv16)) == r3
    ensures Crc([x, y, z]) == r3 as int
  {
    hide ShiftByte, Xor, Register;
    EmptyRegister();
    RegisterAppend([], x);
    assert [] + [x] == [x];
    RegisterAppend([x], y);
    assert [x] + [y] == [x, y];
    RegisterAppend([x, y], z);
    assert [x, y] + [z] == [x, y, z];
  }
}
