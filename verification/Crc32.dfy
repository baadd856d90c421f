/** The bitwise CRC-32 of utils.py and rom_v2.py (section 8 of RFC 1952).  Python integers
    have no width, so the state is a natural number; the facts about the 32-bit register
    ask for a state below 2^32. */
module Crc32 {
  import opened Bits

  const POLYNOMIAL: nat := 0xEDB88320
  const ONES: nat := 0xffff_ffff

  // One turn of the inner loop.
  function Step(c: nat): nat
  {
    Xor(Shr(c, 1), And(POLYNOMIAL, if And(c, 1) == 1 then ONES else 0))
  }

  function Steps(c: nat, n: nat): nat
    decreases n, c
  {
    if n == 0 then c else Steps(Step(c), n - 1)
  }

  function StepByte(c: nat, data: byte): nat
  {
    Steps(Xor(c, data), 8)
  }

  // The state after a message, before the final complement.
  function Run(c: nat, message: seq<byte>): nat
    decreases |message|
  {
    if |message| == 0 then c else Run(StepByte(c, message[0]), message[1..])
  }

  function Crc(init: nat, message: seq<byte>): nat
  {
    Xor(Run(init, message), ONES)
  }

  method ComputeCrc(init: nat, buff: seq<byte>) returns (crc: nat)
    ensures crc == Crc(init, buff)
  {
    crc := init;
    for i := 0 to |buff|
      invariant Run(crc, buff[i..]) == Run(init, buff)
    {
      ghost var before := crc;
      crc := Xor(crc, buff[i]);
      var k := 7;
      while k > -1
        invariant -1 <= k <= 7
        invariant Steps(crc, k + 1) == StepByte(before, buff[i])
      {
        var mask := if And(crc, 1) == 1 then ONES else 0;
        crc := Xor(Shr(crc, 1), And(POLYNOMIAL, mask));
        k := k - 1;
      }
      assert buff[i..][1..] == buff[i + 1..];
    }
    crc := Xor(crc, ONES);
  }

  /** The CRC of a ROM segment is the same function, started from all ones. */
  method SegmentCrc(data: seq<byte>) returns (crc: nat)
    ensures crc == Crc(ONES, data)
  {
    crc := ONES;
    for i := 0 to |data|
      invariant Run(crc, data[i..]) == Run(ONES, data)
    {
      ghost var before := crc;
      crc := Xor(crc, data[i]);
      var k := 7;
      while k > -1
        invariant -1 <= k <= 7
        invariant Steps(crc, k + 1) == StepByte(before, data[i])
      {
        var mask := if And(crc, 1) == 1 then ONES else 0;
        crc := Xor(Shr(crc, 1), And(POLYNOMIAL, mask));
        k := k - 1;
      }
      assert data[i..][1..] == data[i + 1..];
    }
    crc := Xor(crc, ONES);
  }

  // ---------------------------------------------------------------- one step

  function Feedback(odd: bool): nat { if odd then POLYNOMIAL else 0 }

  lemma StepIs(c: nat)
    ensures Step(c) == Xor(c / 2, Feedback(c % 2 == 1))
  {
    assert Shr(c, 1) == c / 2;
    AndMask(c, 1);
    assert Pow2(1) == 2;
    Pow2Words();
    AndMask(POLYNOMIAL, 32);
    AndWithZero(POLYNOMIAL);
    assert POLYNOMIAL % WORD32 == POLYNOMIAL;
  }

  lemma AndWithZero(a: nat)
    ensures And(a, 0) == 0
  {
  }

  /** One step is linear over exclusive or. */
  lemma StepXor(c: nat, d: nat)
    ensures Step(Xor(c, d)) == Xor(Step(c), Step(d))
  {
    StepIs(c);
    StepIs(d);
    StepIs(Xor(c, d));
    XorHalves(c, d);
    var p, q := Feedback(c % 2 == 1), Feedback(d % 2 == 1);
    XorSwap(c / 2, p, d / 2, q);
    XorSelf(POLYNOMIAL);
    XorZero(POLYNOMIAL);
    XorZero(0);
  }

  lemma StepShift(y: nat)
    ensures Step(2 * y) == y
  {
    StepIs(2 * y);
    XorZero(y);
  }

  // The polynomial's top bit is set, so the top bit of the result tells which branch was taken.
  function Unstep(c: nat): nat
  {
    if c >= 0x8000_0000 then 2 * Xor(c, POLYNOMIAL) + 1 else 2 * c
  }

  lemma StepInverse(c: nat)
    requires c < WORD32
    ensures Step(c) < WORD32 && Unstep(c) < WORD32
    ensures Unstep(Step(c)) == c && Step(Unstep(c)) == c
  {
    UnstepAfterStep(c);
    StepAfterUnstep(c);
  }

  lemma TopBit()
    ensures Pow2(31) == 0x8000_0000
  {
    Pow2Words();
  }

  lemma UnstepAfterStep(c: nat)
    requires c < WORD32
    ensures Step(c) < WORD32 && Unstep(Step(c)) == c
  {
    TopBit();
    StepIs(c);
    XorZero(c / 2);
    XorTwice(c / 2, POLYNOMIAL);
    XorTop(c / 2, POLYNOMIAL, 31);
  }

  lemma StepAfterUnstep(c: nat)
    requires c < WORD32
    ensures Unstep(c) < WORD32 && Step(Unstep(c)) == c
  {
    hide Xor, Pow2, Step;
    TopBit();
    StepIs(Unstep(c));
    XorZero(c);
    XorTwice(c, POLYNOMIAL);
    if c >= 0x8000_0000 {
      XorClearsTop(c, POLYNOMIAL, 31);
    }
  }

  // Two numbers with the same top bit differ below it.
  lemma {:induction false} XorClearsTop(a: nat, b: nat, k: nat)
    requires Pow2(k) <= a < 2 * Pow2(k) && Pow2(k) <= b < 2 * Pow2(k)
    ensures Xor(a, b) < Pow2(k)
    decreases k
  {
    if k == 0 {
      XorSelf(1);
    } else {
      XorClearsTop(a / 2, b / 2, k - 1);
    }
  }

  lemma {:induction false} StepsXor(c: nat, d: nat, n: nat)
    ensures Steps(Xor(c, d), n) == Xor(Steps(c, n), Steps(d, n))
    decreases n
  {
    if n == 0 {
    } else {
      StepXor(c, d);
      StepsXor(Step(c), Step(d), n - 1);
    }
  }

  lemma {:induction false} StepsShift(y: nat, n: nat)
    ensures Steps(y * Pow2(n), n) == y
    decreases n
  {
    if n == 0 {
    } else {
      assert y * Pow2(n) == 2 * (y * Pow2(n - 1));
      StepShift(y * Pow2(n - 1));
      StepsShift(y, n - 1);
    }
  }

  // ---------------------------------------------------------------- permutation of the state

  function Unsteps(c: nat, n: nat): nat
  {
    if n == 0 then c else Unstep(Unsteps(c, n - 1))
  }

  lemma {:induction false} StepsInverse(c: nat, n: nat)
    requires c < WORD32
    ensures Steps(c, n) < WORD32 && Unsteps(c, n) < WORD32
    ensures Unsteps(Steps(c, n), n) == c && Steps(Unsteps(c, n), n) == c
    decreases n
  {
    hide Step, Unstep;
    if n == 0 {
    } else {
      StepInverse(c);
      StepsInverse(Step(c), n - 1);
      StepsInverse(c, n - 1);
      StepInverse(Unsteps(c, n - 1));
    }
  }

  // The state before a message, from the state after it.
  function Rewind(c: nat, message: seq<byte>): nat
  {
    if |message| == 0 then c else Xor(Unsteps(Rewind(c, message[1..]), 8), message[0])
  }

  lemma XorByteBound(c: nat, data: byte)
    requires c < WORD32
    ensures Xor(c, data) < WORD32
  {
    Pow2Words();
    XorBound(c, data, 32);
  }

  /** For a fixed message, the loop is a permutation of the 32-bit states. */
  lemma {:induction false} RunInverse(c: nat, message: seq<byte>)
    requires c < WORD32
    ensures Run(c, message) < WORD32 && Rewind(c, message) < WORD32
    ensures Rewind(Run(c, message), message) == c
    ensures Run(Rewind(c, message), message) == c
    decreases |message|
  {
    if |message| == 0 {
    } else {
      RunForward(c, message);
      RunBackward(c, message);
    }
  }

  lemma {:induction false} RunForward(c: nat, message: seq<byte>)
    requires c < WORD32 && |message| > 0
    ensures Run(c, message) < WORD32 && Rewind(Run(c, message), message) == c
    decreases |message|, 0
  {
    XorByteBound(c, message[0]);
    StepsInverse(Xor(c, message[0]), 8);
    RunInverse(StepByte(c, message[0]), message[1..]);
    XorTwice(c, message[0]);
  }

  lemma {:induction false} RunBackward(c: nat, message: seq<byte>)
    requires c < WORD32 && |message| > 0
    ensures Rewind(c, message) < WORD32 && Run(Rewind(c, message), message) == c
    decreases |message|, 0
  {
    var back := Rewind(c, message[1..]);
    RunInverse(c, message[1..]);
    StepsInverse(back, 8);
    XorByteBound(Unsteps(back, 8), message[0]);
    XorTwice(Unsteps(back, 8), message[0]);
  }

  // ---------------------------------------------------------------- concatenation, linearity

  lemma {:induction false} RunConcat(c: nat, a: seq<byte>, b: seq<byte>)
    ensures Run(c, a + b) == Run(Run(c, a), b)
    decreases |a|
  {
    if |a| == 0 {
      assert a + b == b;
    } else {
      RunConcat(StepByte(c, a[0]), a[1..], b);
      assert (a + b)[1..] == a[1..] + b;
    }
  }

  /** A CRC can be continued: complement the first result and go on with the second half. */
  lemma CrcConcat(init: nat, a: seq<byte>, b: seq<byte>)
    ensures Crc(init, a + b) == Crc(Xor(Crc(init, a), ONES), b)
  {
    RunConcat(init, a, b);
    XorTwice(Run(init, a), ONES);
  }

  function XorBytes(a: seq<byte>, b: seq<byte>): (r: seq<byte>)
    requires |a| == |b|
    ensures |r| == |a|
  {
    if |a| == 0 then [] else XorIsByte(a[0], b[0]); [Xor(a[0], b[0])] + XorBytes(a[1..], b[1..])
  }

  lemma XorIsByte(a: byte, b: byte)
    ensures Xor(a, b) < 256
  {
    Pow2Small();
    XorBound(a, b, 8);
  }

  /** The loop is linear: the difference of two runs is the run of the difference. */
  lemma {:induction false} RunXor(c: nat, d: nat, a: seq<byte>, b: seq<byte>)
    requires |a| == |b|
    ensures Run(Xor(c, d), XorBytes(a, b)) == Xor(Run(c, a), Run(d, b))
    decreases |a|
  {
    if |a| == 0 {
    } else {
      XorSwap(c, d, a[0], b[0]);
      StepsXor(Xor(c, a[0]), Xor(d, b[0]), 8);
      RunXor(StepByte(c, a[0]), StepByte(d, b[0]), a[1..], b[1..]);
      assert XorBytes(a, b)[1..] == XorBytes(a[1..], b[1..]);
    }
  }

  // ---------------------------------------------------------------- the table form of RFC 1952

  // crc_table[n]
  function TableEntry(n: nat): nat { Steps(n, 8) }

  // c = crc_table[(c ^ buf[n]) & 0xff] ^ (c >> 8)
  function TableStep(c: nat, data: byte): nat
  {
    Xor(TableEntry(And(Xor(c, data), 0xff)), Shr(c, 8))
  }

  function TableRun(c: nat, message: seq<byte>): nat
    decreases |message|
  {
    if |message| == 0 then c else TableRun(TableStep(c, message[0]), message[1..])
  }

  lemma TableStepIsStepByte(c: nat, data: byte)
    ensures TableStep(c, data) == StepByte(c, data)
  {
    Pow2Small();
    AndMask(Xor(c, data), 8);
    ShrDivides(c, 8);
    ShrDivides(Xor(c, data), 8);
    XorByteHigh(c, data, 8);
    var x := Xor(c, data);
    var low, high := x % 256, x / 256;
    assert x == high * 256 + low;
    XorDisjoint(high, low, 8);
    StepsXor(high * Pow2(8), low, 8);
    StepsShift(high, 8);
    XorSym(high, Steps(low, 8));
  }

  lemma {:induction false} XorDisjoint(hi: nat, lo: nat, k: nat)
    requires lo < Pow2(k)
    ensures hi * Pow2(k) >= 0
    ensures Xor(hi * Pow2(k), lo) == hi * Pow2(k) + lo
    decreases k
  {
    if k == 0 {
      XorZero(hi);
    } else {
      var x := hi * Pow2(k - 1);
      assert hi * Pow2(k) == 2 * x;
      XorDisjoint(hi, lo / 2, k - 1);
      XorHalves(2 * x, lo);
    }
  }

  lemma {:induction false} XorByteHigh(c: nat, x: nat, k: nat)
    requires x < Pow2(k)
    ensures Shr(Xor(c, x), k) == Shr(c, k)
    decreases k
  {
    if k == 0 {
      XorZero(c);
    } else {
      XorHalves(c, x);
      XorByteHigh(c / 2, x / 2, k - 1);
    }
  }

  /** The bitwise loop computes what the table-driven algorithm of the RFC computes. */
  lemma {:induction false} RunIsTableRun(c: nat, message: seq<byte>)
    ensures Run(c, message) == TableRun(c, message)
    decreases |message|
  {
    if |message| == 0 {
    } else {
      TableStepIsStepByte(c, message[0]);
      RunIsTableRun(StepByte(c, message[0]), message[1..]);
    }
  }

  // ---------------------------------------------------------------- burst errors

  function LowBits(x: nat, n: nat): (bits: seq<bool>)
    ensures |bits| == n
    decreases n, x
  {
    if n == 0 then [] else [x % 2 == 1] + LowBits(x / 2, n - 1)
  }

  function FromBits(bits: seq<bool>): nat
  {
    if |bits| == 0 then 0 else (if bits[0] then 1 else 0) + 2 * FromBits(bits[1..])
  }

  // The message as bits in the order the loop consumes them.
  function BitsOf(message: seq<byte>): (bits: seq<bool>)
    ensures |bits| == 8 * |message|
  {
    if |message| == 0 then [] else LowBits(message[0], 8) + BitsOf(message[1..])
  }

  function StepBit(c: nat, b: bool): nat
  {
    Step(Xor(c, if b then 1 else 0))
  }

  function RunBits(c: nat, bits: seq<bool>): nat
    decreases |bits|
  {
    if |bits| == 0 then c else RunBits(StepBit(c, bits[0]), bits[1..])
  }

  lemma StepFirstBit(c: nat, x: nat)
    ensures Step(Xor(c, x)) == Xor(StepBit(c, x % 2 == 1), x / 2)
  {
    var b, y := x % 2, x / 2;
    assert Pow2(1) == 2;
    XorDisjoint(y, b, 1);
    XorSym(2 * y, b);
    XorAssoc(c, b, 2 * y);
    StepXor(Xor(c, b), 2 * y);
    StepShift(y);
  }

  /** Xoring n bits in at once and stepping n times is stepping once per bit. */
  lemma {:induction false} StepsAsBits(c: nat, x: nat, n: nat)
    ensures Steps(Xor(c, x), n) == Xor(RunBits(c, LowBits(x, n)), Shr(x, n))
    decreases n
  {
    if n == 0 {
    } else {
      StepFirstBit(c, x);
      StepsAsBits(StepBit(c, x % 2 == 1), x / 2, n - 1);
      assert LowBits(x, n)[1..] == LowBits(x / 2, n - 1);
    }
  }

  lemma {:induction false} RunBitsConcat(c: nat, a: seq<bool>, b: seq<bool>)
    ensures RunBits(c, a + b) == RunBits(RunBits(c, a), b)
    decreases |a|
  {
    hide StepBit;
    if |a| == 0 {
      assert a + b == b;
    } else {
      RunBitsConcat(StepBit(c, a[0]), a[1..], b);
      assert (a + b)[1..] == a[1..] + b;
    }
  }

  lemma {:induction false} RunAsBits(c: nat, message: seq<byte>)
    ensures Run(c, message) == RunBits(c, BitsOf(message))
    decreases |message|
  {
    if |message| == 0 {
    } else {
      var data := message[0];
      StepsAsBits(c, data, 8);
      Pow2Small();
      ShrDivides(data, 8);
      XorZero(RunBits(c, LowBits(data, 8)));
      RunBitsConcat(c, LowBits(data, 8), BitsOf(message[1..]));
      RunAsBits(StepByte(c, data), message[1..]);
    }
  }

  lemma {:induction false} FromBitsInverse(bits: seq<bool>)
    ensures FromBits(bits) < Pow2(|bits|)
    ensures LowBits(FromBits(bits), |bits|) == bits
  {
    if |bits| == 0 {
    } else {
      FromBitsInverse(bits[1..]);
      assert bits == [bits[0]] + bits[1..];
    }
  }

  // Up to 32 bits can be xored into the register at once.
  lemma RunBitsAtOnce(c: nat, bits: seq<bool>)
    requires c < WORD32 && |bits| <= 32
    ensures Xor(c, FromBits(bits)) < WORD32
    ensures RunBits(c, bits) == Steps(Xor(c, FromBits(bits)), |bits|)
  {
    var x := FromBits(bits);
    FromBitsInverse(bits);
    StepsAsBits(c, x, |bits|);
    ShrDivides(x, |bits|);
    ModUnique(x, Pow2(|bits|), 0, x);
    XorZero(RunBits(c, bits));
    Pow2Words();
    Pow2Monotone(|bits|, 32);
    XorBound(c, x, 32);
  }

  /** From one state, different strings of up to 32 bits lead to different states. */
  lemma BurstDetected(c: nat, a: seq<bool>, b: seq<bool>)
    requires c < WORD32 && |a| == |b| <= 32 && RunBits(c, a) == RunBits(c, b)
    ensures a == b
  {
    RunBitsAtOnce(c, a);
    RunBitsAtOnce(c, b);
    StepsInverse(Xor(c, FromBits(a)), |a|);
    StepsInverse(Xor(c, FromBits(b)), |b|);
    XorCancel(c, FromBits(a), FromBits(b));
    FromBitsInverse(a);
    FromBitsInverse(b);
  }

  lemma StepBitInverse(c: nat, b: bool)
    requires c < WORD32
    ensures StepBit(c, b) < WORD32 && c == Xor(Unstep(StepBit(c, b)), if b then 1 else 0)
  {
    var x: byte := if b then 1 else 0;
    XorByteBound(c, x);
    StepInverse(Xor(c, x));
    XorTwice(c, x);
  }

  lemma {:induction false} RunBitsInjective(c: nat, d: nat, bits: seq<bool>)
    requires c < WORD32 && d < WORD32
    ensures RunBits(c, bits) < WORD32
    ensures RunBits(c, bits) == RunBits(d, bits) ==> c == d
    decreases |bits|
  {
    if |bits| == 0 {
    } else {
      StepBitInverse(c, bits[0]);
      StepBitInverse(d, bits[0]);
      RunBitsInjective(StepBit(c, bits[0]), StepBit(d, bits[0]), bits[1..]);
    }
  }

  // The two bit strings agree outside the window of 32 bits that starts at i.
  ghost predicate DifferInWindow(a: seq<bool>, b: seq<bool>, i: nat)
  {
    |a| == |b| && forall k :: 0 <= k < |a| && !(i <= k < i + 32) ==> a[k] == b[k]
  }

  /** Any error burst inside 32 consecutive bits of a message changes its CRC. */
  lemma BurstChangesCrc(init: nat, a: seq<byte>, b: seq<byte>, i: nat)
    requires init < WORD32 && BitsOf(a) != BitsOf(b) && DifferInWindow(BitsOf(a), BitsOf(b), i)
    ensures Crc(init, a) != Crc(init, b)
  {
    var pre, w, w', post := SplitAtWindow(BitsOf(a), BitsOf(b), i);
    RunAsBits(init, a);
    RunAsBits(init, b);
    if Crc(init, a) == Crc(init, b) {
      XorTwice(Run(init, a), ONES);
      XorTwice(Run(init, b), ONES);
      BurstInMiddle(init, pre, w, w', post);
      assert false;
    }
  }

  lemma SplitAtWindow(x: seq<bool>, y: seq<bool>, i: nat)
    returns (pre: seq<bool>, w: seq<bool>, w': seq<bool>, post: seq<bool>)
    requires DifferInWindow(x, y, i)
    ensures x == pre + (w + post) && y == pre + (w' + post) && |w| == |w'| <= 32
  {
    var lo := if i <= |x| then i else |x|;
    var hi := if lo + 32 <= |x| then lo + 32 else |x|;
    pre, w, w', post := x[..lo], x[lo..hi], y[lo..hi], x[hi..];
    assert y[hi..] == post && y[..lo] == pre;
  }

  lemma BurstInMiddle(c: nat, pre: seq<bool>, w: seq<bool>, w': seq<bool>, post: seq<bool>)
    requires c < WORD32 && |w| == |w'| <= 32
    requires RunBits(c, pre + (w + post)) == RunBits(c, pre + (w' + post))
    ensures w == w'
  {
    RunBitsConcat(c, pre, w + post);
    RunBitsConcat(c, pre, w' + post);
    var d := RunBits(c, pre);
    RunBitsInjective(c, c, pre);
    RunBitsConcat(d, w, post);
    RunBitsConcat(d, w', post);
    RunBitsInjective(d, d, w);
    RunBitsInjective(d, d, w');
    RunBitsInjective(RunBits(d, w), RunBits(d, w'), post);
    BurstDetected(d, w, w');
  }

  lemma {:induction false} BitsOfAt(message: seq<byte>, j: nat, k: nat)
    requires j < |message| && k < 8
    ensures BitsOf(message)[8 * j + k] == LowBits(message[j], 8)[k]
  {
    if j == 0 {
      ConcatAt(LowBits(message[0], 8), BitsOf(message[1..]), k);
    } else {
      BitsOfAt(message[1..], j - 1, k);
      ConcatAt(LowBits(message[0], 8), BitsOf(message[1..]), 8 * j + k);
    }
  }

  lemma ConcatAt(a: seq<bool>, b: seq<bool>, k: nat)
    requires k < |a| + |b|
    ensures (a + b)[k] == if k < |a| then a[k] else b[k - |a|]
  {
  }

  lemma {:induction false} LowBitsInjective(x: nat, y: nat, n: nat)
    requires x < Pow2(n) && y < Pow2(n) && LowBits(x, n) == LowBits(y, n)
    ensures x == y
    decreases n
  {
    if n == 0 {
    } else {
      assert LowBits(x, n)[0] == LowBits(y, n)[0];
      assert LowBits(x, n)[1..] == LowBits(y, n)[1..];
      LowBitsInjective(x / 2, y / 2, n - 1);
    }
  }

  lemma SameBitsSameByte(a: seq<byte>, b: seq<byte>, m: nat)
    requires m < |a| && m < |b| && BitsOf(a) == BitsOf(b)
    ensures a[m] == b[m]
  {
    forall k | 0 <= k < 8 ensures LowBits(a[m], 8)[k] == LowBits(b[m], 8)[k] {
      BitsOfAt(a, m, k);
      BitsOfAt(b, m, k);
    }
    Pow2Small();
    LowBitsInjective(a[m], b[m], 8);
  }

  lemma BytesToBitsWindow(a: seq<byte>, b: seq<byte>, j: nat)
    requires |a| == |b| && forall k :: 0 <= k < |a| && !(j <= k < j + 4) ==> a[k] == b[k]
    ensures DifferInWindow(BitsOf(a), BitsOf(b), 8 * j)
  {
    forall k | 0 <= k < |BitsOf(a)| && !(8 * j <= k < 8 * j + 32) ensures BitsOf(a)[k] == BitsOf(b)[k] {
      BitsOfAt(a, k / 8, k % 8);
      BitsOfAt(b, k / 8, k % 8);
    }
  }

  /** Two messages of the same length that differ only inside four consecutive bytes get
      different CRCs. */
  lemma FourByteErrorChangesCrc(init: nat, a: seq<byte>, b: seq<byte>, j: nat)
    requires init < WORD32 && |a| == |b| && a != b
    requires forall k :: 0 <= k < |a| && !(j <= k < j + 4) ==> a[k] == b[k]
    ensures Crc(init, a) != Crc(init, b)
  {
    BytesToBitsWindow(a, b, j);
    var m :| 0 <= m < |a| && a[m] != b[m];
    if BitsOf(a) == BitsOf(b) {
      SameBitsSameByte(a, b, m);
      assert false;
    }
    BurstChangesCrc(init, a, b, 8 * j);
  }

}
