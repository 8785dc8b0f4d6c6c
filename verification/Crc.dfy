/** Bitwise exclusive or on naturals, one bit at a time. */
module Bitwise {

  function BitXor(a: nat, b: nat): nat {
    if a % 2 == b % 2 then 0 else 1
  }

  function Xor(a: nat, b: nat): nat
    decreases a + b
  {
    if a == 0 && b == 0 then 0 else 2 * Xor(a / 2, b / 2) + BitXor(a, b)
  }

  /** Two masks have a bit in common: `a & b` is not zero. */
  predicate SharesBit(a: nat, b: nat)
    decreases a
  {
    a != 0 && ((a % 2 == 1 && b % 2 == 1) || SharesBit(a / 2, b / 2))
  }

  function Pow2(n: nat): (p: nat)
    ensures p >= 1
  {
    if n == 0 then 1 else 2 * Pow2(n - 1)
  }

  /** a shifted down by n places. */
  function Shift(a: nat, n: nat): nat
    decreases n
  {
    if n == 0 then a else Shift(a / 2, n - 1)
  }

  /** That is, at some place both have a one. */
  lemma SharesBitIff(a: nat, b: nat)
    ensures SharesBit(a, b) <==> exists k: nat :: Shift(a, k) % 2 == 1 && Shift(b, k) % 2 == 1
  {
    if SharesBit(a, b) {
      var k := SharedPlace(a, b);
    }
    if k: nat :| Shift(a, k) % 2 == 1 && Shift(b, k) % 2 == 1 {
      PlaceIsShared(a, b, k);
    }
  }

  lemma {:induction false} SharedPlace(a: nat, b: nat) returns (k: nat)
    requires SharesBit(a, b)
    ensures Shift(a, k) % 2 == 1 && Shift(b, k) % 2 == 1
    decreases a
  {
    if a % 2 == 1 && b % 2 == 1 {
      k := 0;
    } else {
      k := SharedPlace(a / 2, b / 2);
      k := k + 1;
    }
  }

  lemma {:induction false} PlaceIsShared(a: nat, b: nat, k: nat)
    requires Shift(a, k) % 2 == 1 && Shift(b, k) % 2 == 1
    ensures SharesBit(a, b)
    decreases k
  {
    if a == 0 {
      ShiftNothing(k);
    } else if k > 0 {
      PlaceIsShared(a / 2, b / 2, k - 1);
    }
  }

  lemma {:induction false} ShiftNothing(n: nat)
    ensures Shift(0, n) == 0
    decreases n
  {
    if n > 0 {
      ShiftNothing(n - 1);
    }
  }

  /** Shifting down by n places is dividing by the n-th power of two. */
  lemma {:induction false} ShiftDivides(a: nat, n: nat)
    ensures Shift(a, n) == a / Pow2(n)
    decreases n
  {
    if n > 0 {
      ShiftDivides(a / 2, n - 1);
      HalvesDivide(a, Pow2(n - 1));
    }
  }

  lemma HalvesDivide(a: nat, p: nat)
    requires p >= 1
    ensures a / 2 / p == a / (2 * p)
  {
    var q, r := a / (2 * p), a % (2 * p);
    assert a == (2 * p) * q + r;
    assert a / 2 == p * q + r / 2 && r / 2 < p;
    assert (p * q + r / 2) / p == q by {
      QuotientIs(p * q + r / 2, p, q, r / 2);
    }
  }

  lemma QuotientIs(n: nat, p: nat, q: nat, r: nat)
    requires p >= 1 && n == p * q + r && r < p
    ensures n / p == q
  {
    if n / p > q {
      ProductGrows(p, q + 1, n / p);
    } else if n / p < q {
      ProductGrows(p, n / p + 1, q);
    }
  }

  lemma ProductGrows(p: nat, x: int, y: int)
    requires x <= y
    ensures p * x <= p * y
  {}

  lemma XorBit(a: nat, b: nat)
    ensures Xor(a, b) / 2 == Xor(a / 2, b / 2)
    ensures Xor(a, b) % 2 == BitXor(a, b)
  {}

  lemma {:induction false} XorNothing(a: nat)
    ensures Xor(a, 0) == a && Xor(0, a) == a
  {
    if a != 0 {
      XorNothing(a / 2);
    }
  }

  lemma {:induction false} XorCommutes(a: nat, b: nat)
    ensures Xor(a, b) == Xor(b, a)
    decreases a + b
  {
    if a != 0 || b != 0 {
      XorCommutes(a / 2, b / 2);
    }
  }

  lemma {:induction false} XorAssociates(a: nat, b: nat, c: nat)
    ensures Xor(Xor(a, b), c) == Xor(a, Xor(b, c))
    decreases a + b + c
  {
    if a == 0 {
      XorNothing(b);
      XorNothing(Xor(b, c));
    } else {
      XorAssociates(a / 2, b / 2, c / 2);
      var left, right := Xor(Xor(a, b), c), Xor(a, Xor(b, c));
      XorBit(a, b);
      XorBit(Xor(a, b), c);
      XorBit(b, c);
      XorBit(a, Xor(b, c));
      SameHalves(left, right);
    }
  }

  lemma SameHalves(x: nat, y: nat)
    requires x / 2 == y / 2 && x % 2 == y % 2
    ensures x == y
  {}

  lemma {:induction false} XorSelf(a: nat)
    ensures Xor(a, a) == 0
  {
    if a != 0 {
      XorSelf(a / 2);
    }
  }

  lemma {:induction false} XorTwice(x: nat, w: nat)
    ensures Xor(Xor(x, w), w) == x
    ensures Xor(w, Xor(w, x)) == x
  {
    XorAssociates(x, w, w);
    XorAssociates(w, w, x);
    XorSelf(w);
    XorNothing(x);
  }

  lemma XorZero(x: nat, y: nat)
    ensures Xor(x, y) == 0 <==> x == y
  {
    XorTwice(x, y);
    XorNothing(y);
    XorSelf(x);
  }

  /** The high part of an exclusive or is the exclusive or of the high parts. */
  lemma {:induction false} XorHigh(a: nat, b: nat, n: nat)
    ensures Shift(Xor(a, b), n) == Xor(Shift(a, n), Shift(b, n))
    decreases n
  {
    if n > 0 {
      XorBit(a, b);
      XorHigh(a / 2, b / 2, n - 1);
    }
  }

  /** Exclusive or, place by place. */
  lemma XorPlaces(a: nat, b: nat, k: nat)
    ensures Shift(Xor(a, b), k) % 2 == 1 <==> Shift(a, k) % 2 != Shift(b, k) % 2
  {
    XorHigh(a, b, k);
    XorBit(Shift(a, k), Shift(b, k));
  }

  lemma {:induction false} ShiftBounds(a: nat, n: nat)
    ensures Shift(a, n) == 0 <==> a < Pow2(n)
    ensures Shift(a, n) <= 1 <==> a < 2 * Pow2(n)
    decreases n
  {
    if n > 0 {
      ShiftBounds(a / 2, n - 1);
    }
  }

  lemma TwiceProduct(p: nat, b: nat)
    ensures (2 * p) * b == 2 * (p * b)
  {}

  lemma XorDoubled(a: nat, high: nat)
    requires Xor(a / 2, high) == a / 2 + high
    ensures Xor(a, 2 * high) == a + 2 * high
  {
    hide Xor;
    XorBit(a, 2 * high);
    assert (2 * high) / 2 == high && (2 * high) % 2 == 0;
    SameHalves(Xor(a, 2 * high), a + 2 * high);
  }

  lemma HalfBelow(a: nat, n: nat)
    requires n > 0 && a < Pow2(n)
    ensures a / 2 < Pow2(n - 1)
  {}

  /** Numbers whose bits do not meet are joined by exclusive or as by addition. */
  lemma {:induction false} XorDisjoint(a: nat, b: nat, n: nat)
    requires a < Pow2(n)
    ensures Xor(a, Pow2(n) * b) == a + Pow2(n) * b
  {
    hide Xor;
    if n == 0 {
      XorNothing(b);
    } else {
      TwiceProduct(Pow2(n - 1), b);
      HalfBelow(a, n);
      XorDisjoint(a / 2, b, n - 1);
      XorDoubled(a, Pow2(n - 1) * b);
    }
  }
}

/** The Modbus CRC-16 of a byte string, used by the STM32 frames and by Modbus RTU. */
module Crc {
  import opened Bytes
  import opened Bitwise

  const POLYNOMIAL: u16 := 0xA001
  const INITIAL: u16 := 0xFFFF
  const BITS_PER_BYTE: nat := 8

  /** One shift of the register: the inner loop body. */
  function BitStep(crc: nat): nat {
    if crc % 2 == 1 then Xor(crc / 2, POLYNOMIAL) else crc / 2
  }

  function BitSteps(crc: nat, n: nat): nat {
    if n == 0 then crc else BitStep(BitSteps(crc, n - 1))
  }

  /** The register after one more byte: the outer loop body. */
  function ByteStep(crc: nat, b: byte): nat {
    BitSteps(Xor(crc, b), BITS_PER_BYTE)
  }

  function CrcFrom(crc: nat, bytes: seq<byte>): nat
    decreases bytes
  {
    if bytes == [] then crc else CrcFrom(ByteStep(crc, bytes[0]), bytes[1..])
  }

  function CrcOf(bytes: seq<byte>): (crc: u16)
  {
    CrcFromFits(INITIAL, bytes);
    CrcFrom(INITIAL, bytes)
  }

  /** The two bytes a sender appends, in wire order. */
  function LowByte(crc: u16): byte { crc % 0x100 }

  function HighByte(crc: u16): byte { crc / 0x100 }

  /** The receiver's reading of the two appended bytes. */
  function FromBytes(low: byte, high: byte): u16 { low + 0x100 * high }

  method ModbusCrc(bytes: seq<byte>) returns (crc: u16)
    ensures crc == CrcOf(bytes)
  {
    var register: nat := INITIAL;
    for i := 0 to |bytes|
      invariant CrcFrom(register, bytes[i..]) == CrcFrom(INITIAL, bytes)
    {
      ghost var before := register;
      register := Xor(register, bytes[i]);
      for bit := 0 to BITS_PER_BYTE
        invariant register == BitSteps(Xor(before, bytes[i]), bit)
      {
        register := if register % 2 == 1 then Xor(register / 2, POLYNOMIAL) else register / 2;
      }
      assert bytes[i..][1..] == bytes[i + 1..];
    }
    assert bytes[|bytes|..] == [];
    CrcFromFits(INITIAL, bytes);
    crc := register;
  }

  // ---------------------------------------------------------------- the register stays 16 bits wide

  lemma {:induction false} Pow2Values()
    ensures Pow2(8) == 0x100 && Pow2(15) == 0x8000 && Pow2(16) == 0x1_0000
  {
    assert Pow2(4) == 16;
    assert Pow2(8) == 16 * Pow2(4);
    assert Pow2(12) == 16 * Pow2(8);
    assert Pow2(16) == 16 * Pow2(12);
  }

  lemma {:induction false} XorFits(a: u16, b: u16)
    ensures Xor(a, b) < 0x1_0000
  {
    Pow2Values();
    XorHigh(a, b, 16);
    ShiftBounds(a, 16);
    ShiftBounds(b, 16);
    ShiftBounds(Xor(a, b), 16);
  }

  lemma {:induction false} BitStepsFit(crc: u16, n: nat)
    ensures BitSteps(crc, n) < 0x1_0000
  {
    if n > 0 {
      BitStepsFit(crc, n - 1);
      XorFits(BitSteps(crc, n - 1) / 2, POLYNOMIAL);
    }
  }

  lemma {:induction false} ByteStepFits(crc: u16, b: byte)
    ensures ByteStep(crc, b) < 0x1_0000
  {
    XorFits(crc, b);
    BitStepsFit(Xor(crc, b), BITS_PER_BYTE);
  }

  lemma {:induction false} CrcFromFits(crc: u16, bytes: seq<byte>)
    ensures CrcFrom(crc, bytes) < 0x1_0000
    decreases bytes
  {
    if bytes != [] {
      ByteStepFits(crc, bytes[0]);
      CrcFromFits(ByteStep(crc, bytes[0]), bytes[1..]);
    }
  }

  // ---------------------------------------------------------------- which CRC it is

  /**
   * One shift, place by place: every place takes the one above it, and a one
   * that falls out is fed back into places 0, 13 and 15.
   */
  lemma BitStepPlaces(crc: u16, k: nat)
    ensures Shift(BitStep(crc), k) % 2 == 1 <==>
            (Shift(crc, k + 1) % 2 == 1) != (crc % 2 == 1 && (k == 0 || k == 13 || k == 15))
  {
    assert Shift(crc, k + 1) == Shift(crc / 2, k);
    XorPlaces(crc / 2, POLYNOMIAL, k);
    PolynomialPlaces(k);
  }

  lemma PolynomialPlaces(k: nat)
    ensures Shift(POLYNOMIAL, k) % 2 == 1 <==> k == 0 || k == 13 || k == 15
  {
    if k >= 16 {
      Pow2Grows(16, k);
      Pow2Values();
      ShiftBounds(POLYNOMIAL, k);
    } else {
      LowPlaces();
    }
  }

  lemma LowPlaces()
    ensures forall k: nat :: k < 16 ==> (Shift(POLYNOMIAL, k) % 2 == 1 <==> k == 0 || k == 13 || k == 15)
  {
    ShiftNext(POLYNOMIAL, 0);
    ShiftNext(POLYNOMIAL, 1);
    ShiftNext(POLYNOMIAL, 2);
    ShiftNext(POLYNOMIAL, 3);
    ShiftNext(POLYNOMIAL, 4);
    ShiftNext(POLYNOMIAL, 5);
    ShiftNext(POLYNOMIAL, 6);
    ShiftNext(POLYNOMIAL, 7);
    ShiftNext(POLYNOMIAL, 8);
    ShiftNext(POLYNOMIAL, 9);
    ShiftNext(POLYNOMIAL, 10);
    ShiftNext(POLYNOMIAL, 11);
    ShiftNext(POLYNOMIAL, 12);
    ShiftNext(POLYNOMIAL, 13);
    ShiftNext(POLYNOMIAL, 14);
  }

  lemma {:induction false} ShiftNext(a: nat, n: nat)
    ensures Shift(a, n + 1) == Shift(a, n) / 2
    decreases n
  {
    if n > 0 {
      ShiftNext(a / 2, n - 1);
    }
  }

  lemma {:induction false} Pow2Grows(m: nat, n: nat)
    requires m <= n
    ensures Pow2(m) <= Pow2(n)
    decreases n
  {
    if m < n {
      Pow2Grows(m, n - 1);
    }
  }

  /** The register starts with all ones. */
  lemma CrcOfNothing()
    ensures CrcOf([]) == 0xFFFF
  {}

  /** Each byte enters at the low end and takes eight shifts. */
  lemma {:induction false} ByteTakesEight(crc: u16, b: byte)
    ensures ByteStep(crc, b) ==
      BitStep(BitStep(BitStep(BitStep(BitStep(BitStep(BitStep(BitStep(Xor(crc, b)))))))))
  {
    hide BitStep, Xor;
    var x := Xor(crc, b);
    BitStepsNext(x, 0);
    BitStepsNext(x, 1);
    BitStepsNext(x, 2);
    BitStepsNext(x, 3);
    BitStepsNext(x, 4);
    BitStepsNext(x, 5);
    BitStepsNext(x, 6);
    BitStepsNext(x, 7);
  }

  lemma BitStepsNext(x: nat, n: nat)
    ensures BitSteps(x, n + 1) == BitStep(BitSteps(x, n)) && BitSteps(x, 0) == x
  {}

  // ---------------------------------------------------------------- the step is a bijection

  /** Undoes BitStep: the polynomial's top bit records which branch was taken. */
  function UndoBitStep(crc: nat): nat {
    if crc >= 0x8000 then 2 * Xor(crc, POLYNOMIAL) + 1 else 2 * crc
  }

  function UndoBitSteps(crc: nat, n: nat): nat
    decreases n
  {
    if n == 0 then crc else UndoBitSteps(UndoBitStep(crc), n - 1)
  }

  lemma {:induction false} TopBit(crc: u16)
    ensures Xor(crc, POLYNOMIAL) >= 0x8000 <==> crc < 0x8000
  {
    Pow2Values();
    XorHigh(crc, POLYNOMIAL, 15);
    ShiftBounds(crc, 15);
    ShiftBounds(POLYNOMIAL, 15);
    ShiftBounds(Xor(crc, POLYNOMIAL), 15);
    assert Xor(0, 1) == 1 && Xor(1, 1) == 0;
  }

  lemma {:induction false} UndoAfterStep(crc: u16)
    ensures UndoBitStep(BitStep(crc)) == crc
  {
    TopBit(crc / 2);
    XorTwice(crc / 2, POLYNOMIAL);
  }

  lemma {:induction false} StepAfterUndo(crc: u16)
    ensures BitStep(UndoBitStep(crc)) == crc && UndoBitStep(crc) < 0x1_0000
  {
    TopBit(crc);
    XorTwice(crc, POLYNOMIAL);
  }

  lemma {:induction false} BitStepsInjective(a: u16, b: u16, n: nat)
    requires BitSteps(a, n) == BitSteps(b, n)
    ensures a == b
    decreases n
  {
    if n > 0 {
      BitStepsFit(a, n - 1);
      BitStepsFit(b, n - 1);
      UndoAfterStep(BitSteps(a, n - 1));
      UndoAfterStep(BitSteps(b, n - 1));
      BitStepsInjective(a, b, n - 1);
    }
  }

  lemma {:induction false} BitStepsSurjective(crc: u16, n: nat)
    ensures UndoBitSteps(crc, n) < 0x1_0000 && BitSteps(UndoBitSteps(crc, n), n) == crc
    decreases n
  {
    if n > 0 {
      StepAfterUndo(crc);
      BitStepsSurjective(UndoBitStep(crc), n - 1);
    }
  }

  /** The register before a byte, recovered from the register after it. */
  function UndoByteStep(crc: u16, b: byte): nat {
    Xor(UndoBitSteps(crc, BITS_PER_BYTE), b)
  }

  /** For each byte, the step is a one-to-one map of the 16-bit states onto the 16-bit states. */
  lemma {:induction false} ByteStepBijective(a: u16, b: u16, x: byte)
    ensures ByteStep(a, x) == ByteStep(b, x) <==> a == b
    ensures UndoByteStep(a, x) < 0x1_0000 && ByteStep(UndoByteStep(a, x), x) == a
  {
    XorFits(a, x);
    XorFits(b, x);
    XorTwice(a, x);
    XorTwice(b, x);
    if ByteStep(a, x) == ByteStep(b, x) {
      BitStepsInjective(Xor(a, x), Xor(b, x), BITS_PER_BYTE);
    }
    BitStepsSurjective(a, BITS_PER_BYTE);
    XorFits(UndoBitSteps(a, BITS_PER_BYTE), x);
    XorTwice(UndoBitSteps(a, BITS_PER_BYTE), x);
  }

  lemma {:induction false} CrcFromInjective(a: u16, b: u16, bytes: seq<byte>)
    ensures CrcFrom(a, bytes) == CrcFrom(b, bytes) <==> a == b
    decreases bytes
  {
    if bytes != [] {
      ByteStepFits(a, bytes[0]);
      ByteStepFits(b, bytes[0]);
      CrcFromInjective(ByteStep(a, bytes[0]), ByteStep(b, bytes[0]), bytes[1..]);
      ByteStepBijective(a, b, bytes[0]);
    }
  }

  lemma {:induction false} CrcFromConcat(crc: nat, head: seq<byte>, tail: seq<byte>)
    ensures CrcFrom(crc, head + tail) == CrcFrom(CrcFrom(crc, head), tail)
    decreases head
  {
    if head == [] {
      assert head + tail == tail;
    } else {
      assert (head + tail)[1..] == head[1..] + tail;
      CrcFromConcat(ByteStep(crc, head[0]), head[1..], tail);
    }
  }

  lemma {:induction false} CrcOfParts(head: seq<byte>, middle: seq<byte>, tail: seq<byte>)
    ensures CrcOf(head + middle + tail) == CrcFrom(CrcFrom(CrcOf(head), middle), tail)
  {
    CrcFromConcat(INITIAL, head + middle, tail);
    CrcFromConcat(INITIAL, head, middle);
  }

  // ---------------------------------------------------------------- what the CRC detects

  /** Bits above the lowest pass through a shift without steering it. */
  lemma {:induction false} BitStepShifts(x: nat, y: nat)
    ensures BitStep(Xor(x, 2 * y)) == Xor(BitStep(x), y)
  {
    XorBit(x, 2 * y);
    assert (2 * y) / 2 == y;
    if x % 2 == 1 {
      XorCommutes(x / 2, y);
      XorAssociates(y, x / 2, POLYNOMIAL);
      XorCommutes(y, Xor(x / 2, POLYNOMIAL));
    }
  }

  lemma {:induction false} HighBitsShift(x: nat, y: nat, n: nat)
    ensures BitSteps(Xor(x, Pow2(n) * y), n) == Xor(BitSteps(x, n), y)
    decreases n
  {
    if n > 0 {
      assert Pow2(n) * y == Pow2(n - 1) * (2 * y);
      HighBitsShift(x, 2 * y, n - 1);
      BitStepShifts(BitSteps(x, n - 1), y);
    }
  }

  /** Feeding two bytes is feeding one 16-bit word through sixteen shifts. */
  lemma {:induction false} TwoBytesAreOneWord(crc: u16, low: byte, high: byte)
    ensures CrcFrom(crc, [low, high]) ==
            BitSteps(BitSteps(Xor(crc, FromBytes(low, high)), BITS_PER_BYTE), BITS_PER_BYTE)
  {
    Pow2Values();
    HighBitsShift(Xor(crc, low), high, BITS_PER_BYTE);
    XorAssociates(crc, low, 0x100 * high);
    XorDisjoint(low, high, BITS_PER_BYTE);
    assert [low, high][1..] == [high] && [high][1..] == [];
    assert CrcFrom(crc, [low, high]) == CrcFrom(ByteStep(crc, low), [high]);
    assert CrcFrom(ByteStep(crc, low), [high]) == CrcFrom(ByteStep(ByteStep(crc, low), high), []);
  }

  lemma {:induction false} WordStepsInjective(p: u16, q: u16)
    requires BitSteps(BitSteps(p, BITS_PER_BYTE), BITS_PER_BYTE) == BitSteps(BitSteps(q, BITS_PER_BYTE), BITS_PER_BYTE)
    ensures p == q
  {
    BitStepsFit(p, BITS_PER_BYTE);
    BitStepsFit(q, BITS_PER_BYTE);
    BitStepsInjective(BitSteps(p, BITS_PER_BYTE), BitSteps(q, BITS_PER_BYTE), BITS_PER_BYTE);
    BitStepsInjective(p, q, BITS_PER_BYTE);
  }

  lemma {:induction false} TwoBytesDistinguish(crc: u16, a: byte, b: byte, a': byte, b': byte)
    ensures CrcFrom(crc, [a, b]) == CrcFrom(crc, [a', b']) <==> a == a' && b == b'
  {
    if CrcFrom(crc, [a, b]) == CrcFrom(crc, [a', b']) {
      var w, w' := FromBytes(a, b), FromBytes(a', b');
      TwoBytesAreOneWord(crc, a, b);
      TwoBytesAreOneWord(crc, a', b');
      XorFits(crc, w);
      XorFits(crc, w');
      WordStepsInjective(Xor(crc, w), Xor(crc, w'));
      XorTwice(w, crc);
      XorTwice(w', crc);
    }
  }

  /** Altering any two adjacent bytes of a message, or only one of them, always changes the CRC. */
  lemma {:induction false} AdjacentBytesDetected(head: seq<byte>, a: byte, b: byte, a': byte, b': byte, tail: seq<byte>)
    ensures CrcOf(head + [a, b] + tail) == CrcOf(head + [a', b'] + tail) <==> a == a' && b == b'
  {
    var crc := CrcOf(head);
    CrcOfParts(head, [a, b], tail);
    CrcOfParts(head, [a', b'], tail);
    CrcFromFits(crc, [a, b]);
    CrcFromFits(crc, [a', b']);
    CrcFromInjective(CrcFrom(crc, [a, b]), CrcFrom(crc, [a', b']), tail);
    TwoBytesDistinguish(crc, a, b, a', b');
  }

  lemma {:induction false} OneByteDistinguishes(crc: u16, a: byte, b: byte)
    ensures CrcFrom(crc, [a]) == CrcFrom(crc, [b]) <==> a == b
  {
    CrcFromConcat(crc, [a], [0]);
    CrcFromConcat(crc, [b], [0]);
    assert [a] + [0] == [a, 0] && [b] + [0] == [b, 0];
    TwoBytesDistinguish(crc, a, 0, b, 0);
  }

  /** Altering one byte of a message of any length always changes the CRC. */
  lemma {:induction false} SingleByteDetected(bytes: seq<byte>, i: nat, b: byte)
    requires i < |bytes|
    ensures CrcOf(bytes[i := b]) == CrcOf(bytes) <==> bytes[i] == b
  {
    var head, tail := bytes[..i], bytes[i + 1..];
    var crc := CrcOf(head);
    assert bytes == head + [bytes[i]] + tail;
    assert bytes[i := b] == head + [b] + tail;
    CrcOfParts(head, [bytes[i]], tail);
    CrcOfParts(head, [b], tail);
    CrcFromFits(crc, [b]);
    CrcFromFits(crc, [bytes[i]]);
    CrcFromInjective(CrcFrom(crc, [b]), CrcFrom(crc, [bytes[i]]), tail);
    OneByteDistinguishes(crc, b, bytes[i]);
  }

  lemma {:induction false} ZeroStays(n: nat)
    ensures BitSteps(0, n) == 0
  {
    if n > 0 {
      ZeroStays(n - 1);
    }
  }

  /** A message followed by two bytes leaves residue zero exactly when they are its CRC, low byte first. */
  lemma {:induction false} ResidueIsZero(bytes: seq<byte>, low: byte, high: byte)
    ensures CrcOf(bytes + [low, high]) == 0 <==>
            low == LowByte(CrcOf(bytes)) && high == HighByte(CrcOf(bytes))
  {
    var crc := CrcOf(bytes);
    var w := FromBytes(low, high);
    CrcFromConcat(INITIAL, bytes, [low, high]);
    TwoBytesAreOneWord(crc, low, high);
    XorFits(crc, w);
    XorZero(crc, w);
    ZeroStays(BITS_PER_BYTE);
    if CrcFrom(crc, [low, high]) == 0 {
      WordStepsInjective(Xor(crc, w), 0);
    }
    FromBytesSplits(crc, low, high);
  }

  lemma {:induction false} FromBytesSplits(crc: u16, low: byte, high: byte)
    ensures FromBytes(low, high) == crc <==> low == LowByte(crc) && high == HighByte(crc)
    ensures FromBytes(LowByte(crc), HighByte(crc)) == crc
  {}
}
