/** The check value of CRC-32, computed on 32-bit vectors that stand for the register. */
module CrcCheck {
  import opened Bits
  import opened Crc32

  // The operations on vectors, by name: the proofs about numbers do not look at their bits.
  function Half(x: bv32): bv32 { x >> 1 }

  predicate Odd(x: bv32) { x & 1 != 0 }

  function Sum(x: bv32, y: bv32): bv32 { x ^ y }

  // The number the low n bits of a vector stand for.
  function Number(x: bv32, n: nat): nat
  {
    if n == 0 then 0 else (if Odd(x) then 1 else 0) + 2 * Number(Half(x), n - 1)
  }

  lemma SumHalf(x: bv32, y: bv32)
    ensures Half(Sum(x, y)) == Sum(Half(x), Half(y))
    ensures Odd(Sum(x, y)) == (Odd(x) != Odd(y))
  {
  }

  /** Exclusive or of the numbers is exclusive or of the vectors. */
  lemma {:induction false} NumberXor(x: bv32, y: bv32, n: nat)
    ensures Xor(Number(x, n), Number(y, n)) == Number(Sum(x, y), n)
    decreases n
  {
    hide Half, Odd, Sum, Xor;
    if n == 0 {
      XorZero(0);
    } else {
      SumHalf(x, y);
      NumberXor(Half(x), Half(y), n - 1);
      XorHalves(Number(x, n), Number(y, n));
    }
  }

  // ---------------------------------------------------------------- four bits at a time

  function Drop(x: bv32): bv32 { Half(Half(Half(Half(x)))) }

  function Digit(x: bv32): nat
  {
    (if Odd(x) then 1 else 0) + (if Odd(Half(x)) then 2 else 0) + (if Odd(Half(Half(x))) then 4 else 0)
    + if Odd(Half(Half(Half(x)))) then 8 else 0
  }

  lemma NumberDrop(x: bv32, n: nat)
    ensures Number(x, n + 4) == Digit(x) + 16 * Number(Drop(x), n)
  {
    hide Half, Odd;
    assert Number(x, n + 4) == (if Odd(x) then 1 else 0) + 2 * Number(Half(x), n + 3);
    assert Number(Half(x), n + 3) == (if Odd(Half(x)) then 1 else 0) + 2 * Number(Half(Half(x)), n + 2);
    var y := Half(Half(x));
    assert Number(y, n + 2) == (if Odd(y) then 1 else 0) + 2 * Number(Half(y), n + 1);
    assert Number(Half(y), n + 1) == (if Odd(Half(y)) then 1 else 0) + 2 * Number(Half(Half(y)), n);
  }

  lemma SmallNumber(x: bv32)
    requires x <= 7
    ensures Number(x, 3) == Number(x, 4)
  {
    var a := Half(x);
    var b := Half(a);
    var c := Half(b);
    assert !Odd(c);
    assert Number(b, 2) == (if Odd(b) then 1 else 0) + 2 * Number(c, 1);
    assert Number(a, 3) == (if Odd(a) then 1 else 0) + 2 * Number(b, 2);
    assert Number(x, 4) == (if Odd(x) then 1 else 0) + 2 * Number(Half(x), 3);
    assert Number(x, 3) == (if Odd(x) then 1 else 0) + 2 * Number(Half(x), 2);
  }

  // Seven digits, and what the bits above them stand for.
  function Seven(x: bv32, top: nat): nat
  {
    var a := Drop(x);
    var b := Drop(a);
    var c := Drop(b);
    var d := Drop(c);
    var e := Drop(d);
    var f := Drop(e);
    Digit(x) + 16 * (Digit(a) + 16 * (Digit(b) + 16 * (Digit(c) + 16 * (Digit(d) + 16 * (Digit(e)
    + 16 * (Digit(f) + 16 * top))))))
  }

  function Last(x: bv32): bv32 { Drop(Drop(Drop(Drop(Drop(Drop(Drop(x))))))) }

  lemma NumberSeven(x: bv32, n: nat)
    ensures Number(x, n + 28) == Seven(x, Number(Last(x), n))
  {
    hide Drop, Digit, Number;
    var a := Drop(x);
    var b := Drop(a);
    var c := Drop(b);
    var d := Drop(c);
    var e := Drop(d);
    var f := Drop(e);
    NumberDrop(x, n + 24);
    NumberDrop(a, n + 20);
    NumberDrop(b, n + 16);
    NumberDrop(c, n + 12);
    NumberDrop(d, n + 8);
    NumberDrop(e, n + 4);
    NumberDrop(f, n);
  }

  // The bit shifted in at the top is zero.
  lemma NumberHalf(x: bv32)
    ensures Number(x, 32) / 2 == Number(Half(x), 32) && (Number(x, 32) % 2 == 1) == Odd(x)
  {
    hide Half, Odd, Digit, Drop, Seven, Last;
    assert Number(x, 32) == (if Odd(x) then 1 else 0) + 2 * Number(Half(x), 31);
    NumberSeven(Half(x), 3);
    NumberSeven(Half(x), 4);
    LastOfHalf(x);
    SmallNumber(Last(Half(x)));
  }

  lemma LastOfHalf(x: bv32)
    ensures Last(Half(x)) <= 7
  {
  }

  // ---------------------------------------------------------------- the register

  function StepVector(x: bv32): bv32
  {
    if Odd(x) then Sum(Half(x), 0xEDB88320) else Half(x)
  }

  lemma NumberEight(x: bv32)
    ensures Number(x, 32) == Seven(x, Digit(Last(x)))
  {
    hide Drop, Digit, Seven, Last;
    NumberSeven(x, 4);
    NumberDrop(Last(x), 0);
  }

  lemma PolynomialNumber()
    ensures Number(0xEDB88320, 32) == POLYNOMIAL && Number(0, 32) == 0
  {
    hide Number;
    NumberEight(0xEDB88320);
    NumberEight(0);
  }

  lemma StepNumber(x: bv32)
    ensures Step(Number(x, 32)) == Number(StepVector(x), 32)
  {
    hide Half, Odd, Sum, Number, Xor, Step;
    StepIs(Number(x, 32));
    NumberHalf(x);
    PolynomialNumber();
    NumberXor(Half(x), 0xEDB88320, 32);
    XorZero(Number(Half(x), 32));
    XorSym(0, Number(Half(x), 32));
  }

  lemma {:induction false} StepsNumber(x: bv32, n: nat)
    ensures Steps(Number(x, 32), n) == Number(StepsVector(x, n), 32)
    decreases n
  {
    hide Number, Step, StepVector;
    if n == 0 {
    } else {
      StepNumber(x);
      StepsNumber(StepVector(x), n - 1);
    }
  }

  function StepsVector(x: bv32, n: nat): bv32
    decreases n
  {
    if n == 0 then x else StepsVector(StepVector(x), n - 1)
  }

  lemma ByteNumber(x: bv32, data: byte, b: bv32)
    requires Number(b, 32) == data
    ensures StepByte(Number(x, 32), data) == Number(StepsVector(Sum(x, b), 8), 32)
  {
    hide Number, Steps, StepsVector, Sum, Xor;
    NumberXor(x, b, 32);
    StepsNumber(Sum(x, b), 8);
  }

  // One byte of a message, b standing for it.
  lemma NextByte(x: bv32, data: byte, b: bv32, rest: seq<byte>)
    requires Number(b, 32) == data
    ensures Run(Number(x, 32), [data] + rest) == Run(Number(StepsVector(Sum(x, b), 8), 32), rest)
  {
    hide Number, StepsVector, Sum, StepByte;
    ByteNumber(x, data, b);
    assert ([data] + rest)[1..] == rest;
  }

  // The digits '1' to '9'.
  lemma DigitNumber(k: nat, b: bv32)
    requires 1 <= k <= 9
    requires b == match k
                  case 1 => 0x31 case 2 => 0x32 case 3 => 0x33 case 4 => 0x34 case 5 => 0x35
                  case 6 => 0x36 case 7 => 0x37 case 8 => 0x38 case _ => 0x39
    ensures Number(b, 32) == 0x30 + k
  {
    hide Number;
    NumberEight(b);
  }

  // "123456789" from its k-th character on.
  function CheckText(k: nat): seq<byte>
    requires 1 <= k <= 10
    decreases 10 - k
  {
    if k == 10 then [] else [0x30 + k] + CheckText(k + 1)
  }

  lemma Byte1()
    ensures StepsVector(Sum(0xFFFFFFFF, 0x31), 8) == 0x7C231048
  {
  }

  lemma Byte2()
    ensures StepsVector(Sum(0x7C231048, 0x32), 8) == 0xB0ACBB32
  {
  }

  lemma Byte3()
    ensures StepsVector(Sum(0xB0ACBB32, 0x33), 8) == 0x77B79C2D
  {
  }

  lemma Byte4()
    ensures StepsVector(Sum(0x77B79C2D, 0x34), 8) == 0x641C1F5C
  {
  }

  lemma Byte5()
    ensures StepsVector(Sum(0x641C1F5C, 0x35), 8) == 0x340AC5E3
  {
  }

  lemma Byte6()
    ensures StepsVector(Sum(0x340AC5E3, 0x36), 8) == 0xF68D2C9E
  {
  }

  lemma Byte7()
    ensures StepsVector(Sum(0xF68D2C9E, 0x37), 8) == 0xAFFC9660
  {
  }

  lemma Byte8()
    ensures StepsVector(Sum(0xAFFC9660, 0x38), 8) == 0x651F2550
  {
  }

  lemma Byte9()
    ensures StepsVector(Sum(0x651F2550, 0x39), 8) == 0x340BC6D9
  {
  }

  /** The check value: the CRC of the nine bytes "123456789". */
  lemma CheckValue()
    ensures CheckText(1) == [0x31, 0x32, 0x33, 0x34, 0x35, 0x36, 0x37, 0x38, 0x39]
    ensures Crc(0xFFFF_FFFF, CheckText(1)) == 0xCBF4_3926
  {
    hide Number, StepsVector, Sum, Run, Xor;
    Byte1();
    DigitNumber(1, 0x31);
    NextByte(0xFFFFFFFF, 0x31, 0x31, CheckText(2));
    Byte2();
    DigitNumber(2, 0x32);
    NextByte(0x7C231048, 0x32, 0x32, CheckText(3));
    Byte3();
    DigitNumber(3, 0x33);
    NextByte(0xB0ACBB32, 0x33, 0x33, CheckText(4));
    Byte4();
    DigitNumber(4, 0x34);
    NextByte(0x77B79C2D, 0x34, 0x34, CheckText(5));
    Byte5();
    DigitNumber(5, 0x35);
    NextByte(0x641C1F5C, 0x35, 0x35, CheckText(6));
    Byte6();
    DigitNumber(6, 0x36);
    NextByte(0x340AC5E3, 0x36, 0x36, CheckText(7));
    Byte7();
    DigitNumber(7, 0x37);
    NextByte(0xF68D2C9E, 0x37, 0x37, CheckText(8));
    Byte8();
    DigitNumber(8, 0x38);
    NextByte(0xAFFC9660, 0x38, 0x38, CheckText(9));
    Byte9();
    DigitNumber(9, 0x39);
    NextByte(0x651F2550, 0x39, 0x39, CheckText(10));
    Ends();
    NumberXor(0x340BC6D9, 0xFFFFFFFF, 32);
  }

  lemma Ends()
    ensures Number(0xFFFFFFFF, 32) == ONES == 0xFFFF_FFFF && Number(0xCBF43926, 32) == 0xCBF4_3926
    ensures Sum(0x340BC6D9, 0xFFFFFFFF) == 0xCBF43926
    ensures forall c: nat :: Run(c, []) == c
  {
    hide Number;
    NumberEight(0xFFFFFFFF);
    NumberEight(0xCBF43926);
  }
}
