/** CRC-32 as division of polynomials over GF(2): the register is the remainder of the message
    modulo the generator of section 8 of RFC 1952.  Polynomials are their coefficients, the
    highest power first. */
module CrcPolynomial {
  import opened Bits
  import opened Crc32

  const EXPONENTS: set<int> := {32, 26, 23, 22, 16, 12, 11, 10, 8, 7, 5, 4, 2, 1, 0}

  function Generator(): (g: seq<bool>)
    ensures |g| == 33
  {
    seq(33, k => 32 - k in EXPONENTS)
  }

  function Nothing(n: nat): (p: seq<bool>)
    ensures |p| == n && forall k :: 0 <= k < n ==> !p[k]
  {
    seq(n, k => false)
  }

  function Plus(p: seq<bool>, q: seq<bool>): (r: seq<bool>)
    requires |p| == |q|
    ensures |r| == |p| && forall k :: 0 <= k < |r| ==> r[k] == (p[k] != q[k])
  {
    seq(|p|, k requires 0 <= k < |p| => p[k] != q[k])
  }

  // The generator times a power of x, as a polynomial of n coefficients.
  function Multiple(n: nat): (p: seq<bool>)
    requires n >= 33
    ensures |p| == n
  {
    Generator() + Nothing(n - 33)
  }

  // Long division: cancel the highest power with a multiple of the generator until 32 are left.
  function Remainder(p: seq<bool>): (r: seq<bool>)
    requires |p| >= 32
    ensures |r| == 32
    decreases |p|
  {
    if |p| == 32 then p
    else Remainder((if p[0] then Plus(p, Multiple(|p|)) else p)[1..])
  }

  // ---------------------------------------------------------------- what a remainder is

  lemma {:induction false} RemainderPlus(p: seq<bool>, q: seq<bool>)
    requires |p| == |q| >= 32
    ensures Remainder(Plus(p, q)) == Plus(Remainder(p), Remainder(q))
    decreases |p|
  {
    hide Multiple;
    if |p| == 32 {
    } else {
      var g := Multiple(|p|);
      LeadingOne(|p|);
      var p' := (if p[0] then Plus(p, g) else p)[1..];
      var q' := (if q[0] then Plus(q, g) else q)[1..];
      RemainderPlus(p', q');
      var s := Plus(p, q);
      assert (if s[0] then Plus(s, g) else s)[1..] == Plus(p', q');
    }
  }

  lemma LeadingOne(n: nat)
    requires n >= 33
    ensures Multiple(n)[0]
  {
  }

  lemma {:induction false} RemainderOfNothing(n: nat)
    requires n >= 32
    ensures Remainder(Nothing(n)) == Nothing(32)
    decreases n
  {
    if n == 32 {
    } else {
      assert Nothing(n)[1..] == Nothing(n - 1);
      RemainderOfNothing(n - 1);
    }
  }

  /** Adding a multiple of the generator, shifted by any power, does not change a remainder. */
  lemma {:induction false} MultiplesVanish(p: seq<bool>, k: nat)
    requires |p| >= 33 + k
    ensures Remainder(Plus(p, Nothing(k) + Multiple(|p| - k))) == Remainder(p)
  {
    hide Remainder, Multiple;
    var m := Nothing(k) + Multiple(|p| - k);
    RemainderPlus(p, m);
    MultipleRemainder(|p|, k);
    assert Plus(Remainder(p), Nothing(32)) == Remainder(p);
  }

  lemma {:induction false} MultipleRemainder(n: nat, k: nat)
    requires n >= 33 + k
    ensures Remainder(Nothing(k) + Multiple(n - k)) == Nothing(32)
    decreases k
  {
    hide Multiple;
    if k == 0 {
      var m := Multiple(n);
      assert Nothing(0) + m == m;
      LeadingOne(n);
      assert Plus(m, m)[1..] == Nothing(n - 1);
      RemainderOfNothing(n - 1);
    } else {
      var m := Nothing(k) + Multiple(n - k);
      assert m[1..] == Nothing(k - 1) + Multiple((n - 1) - (k - 1));
      MultipleRemainder(n - 1, k - 1);
    }
  }

  // ---------------------------------------------------------------- the register

  lemma TwoBits(x: nat, n: nat)
    ensures LowBits(x, n + 2) == [x % 2 == 1, x / 2 % 2 == 1] + LowBits(x / 4, n)
  {
    var y := x / 2;
    assert LowBits(x, n + 2) == [x % 2 == 1] + LowBits(y, n + 1);
    assert LowBits(y, n + 1) == [y % 2 == 1] + LowBits(y / 2, n);
    assert y / 2 == x / 4;
  }

  lemma FourBits(x: nat, n: nat)
    ensures LowBits(x, n + 4)
         == [x % 2 == 1, x / 2 % 2 == 1, x / 4 % 2 == 1, x / 8 % 2 == 1] + LowBits(x / 16, n)
  {
    hide LowBits;
    var y := x / 4;
    TwoBits(x, n + 2);
    TwoBits(y, n);
    assert y / 2 == x / 8 && y / 4 == x / 16;
  }

  function LowFeedback(): seq<bool>
  {
    [false, false, false, false, false, true, false, false]
    + [true, true, false, false, false, false, false, true]
  }

  function HighFeedback(): seq<bool>
  {
    [false, false, false, true, true, true, false, true]
    + [true, false, true, true, false, true, true, true]
  }

  lemma LowHalf()
    ensures LowBits(POLYNOMIAL, 32) == LowFeedback() + LowBits(0xEDB8, 16)
  {
    hide LowBits;
    FourBits(0xEDB88320, 28);
    FourBits(0xEDB8832, 24);
    FourBits(0xEDB883, 20);
    FourBits(0xEDB88, 16);
  }

  lemma HighHalf()
    ensures LowBits(0xEDB8, 16) == HighFeedback()
  {
    hide LowBits;
    FourBits(0xEDB8, 12);
    FourBits(0xEDB, 8);
    FourBits(0xED, 4);
    FourBits(0xE, 0);
    LowNothing(0, 0);
  }

  // The feedback of the loop is the generator without its highest power.
  lemma FeedbackIsGenerator()
    ensures LowBits(POLYNOMIAL, 32) == Generator()[1..]
  {
    hide LowBits;
    LowHalf();
    HighHalf();
    assert LowFeedback() + HighFeedback() == Generator()[1..];
  }

  lemma LowNothing(x: nat, n: nat)
    requires n == 0
    ensures LowBits(x, n) == []
  {
  }

  lemma {:induction false} LowBitsXor(a: nat, b: nat, n: nat)
    ensures LowBits(Xor(a, b), n) == Plus(LowBits(a, n), LowBits(b, n))
    decreases n
  {
    hide Xor;
    if n == 0 {
    } else {
      XorHalves(a, b);
      LowBitsXor(a / 2, b / 2, n - 1);
    }
  }

  lemma {:induction false} LowBitsZero(n: nat)
    ensures LowBits(0, n) == Nothing(n)
  {
    if n == 0 {
    } else {
      LowBitsZero(n - 1);
      assert [false] + Nothing(n - 1) == Nothing(n);
    }
  }

  lemma {:induction false} LowBitsOneMore(x: nat, n: nat)
    requires x < Pow2(n)
    ensures LowBits(x, n + 1) == LowBits(x, n) + [false]
    decreases n
  {
    if n == 0 {
    } else {
      LowBitsOneMore(x / 2, n - 1);
      assert [x % 2 == 1] + (LowBits(x / 2, n - 1) + [false]) == LowBits(x, n) + [false];
    }
  }

  /** One step of the register: multiply by x and cancel the highest power. */
  lemma StepBits(c: nat)
    requires c < WORD32
    ensures var p := LowBits(c, 32) + [false];
      LowBits(Step(c), 32) == (if p[0] then Plus(p, Generator()) else p)[1..]
  {
    hide LowBits, Step, Xor, Generator, Pow2;
    StepIs(c);
    FeedbackIsGenerator();
    LowBitsXor(c / 2, Feedback(c % 2 == 1), 32);
    LowBitsZero(32);
    HalfBits(c);
    var p, g := LowBits(c, 32) + [false], Generator();
    assert p[0] == (c % 2 == 1);
    if p[0] {
      assert Plus(p, g)[1..] == Plus(p[1..], g[1..]);
    } else {
      assert Plus(p[1..], Nothing(32)) == p[1..];
    }
  }

  lemma HalfBits(c: nat)
    requires c < WORD32
    ensures LowBits(c, 32)[0] == (c % 2 == 1) && LowBits(c / 2, 32) == (LowBits(c, 32) + [false])[1..]
  {
    hide Pow2;
    Pow2Words();
    LowBitsOneMore(c, 32);
    assert LowBits(c, 33) == [c % 2 == 1] + LowBits(c / 2, 32);
  }

  // The message, followed by 32 zeros, with the start value added to its first 32 coefficients.
  function Dividend(c: nat, bits: seq<bool>): (p: seq<bool>)
    ensures |p| == |bits| + 32
  {
    Plus(bits + Nothing(32), LowBits(c, 32) + Nothing(|bits|))
  }

  /** The register after a message is the remainder of the message modulo the generator. */
  lemma {:induction false} RegisterIsRemainder(c: nat, bits: seq<bool>)
    requires c < WORD32
    ensures RunBits(c, bits) < WORD32 && LowBits(RunBits(c, bits), 32) == Remainder(Dividend(c, bits))
    decreases |bits|
  {
    hide LowBits, StepBit, Dividend, Generator, Multiple;
    if |bits| == 0 {
      NoMessage(c);
    } else {
      StepBitInverse(c, bits[0]);
      RegisterIsRemainder(StepBit(c, bits[0]), bits[1..]);
      DivideOnce(c, bits);
    }
  }

  lemma NoMessage(c: nat)
    ensures Dividend(c, []) == LowBits(c, 32)
  {
    hide LowBits;
  }

  lemma DivideOnce(c: nat, bits: seq<bool>)
    requires c < WORD32 && |bits| > 0
    ensures var p := Dividend(c, bits);
      (if p[0] then Plus(p, Multiple(|p|)) else p)[1..] == Dividend(StepBit(c, bits[0]), bits[1..])
  {
    hide LowBits, Generator, Step, Xor, Pow2, StepBit;
    StepBitBits(c, bits[0]);
    var p, q, g := Dividend(c, bits), Dividend(StepBit(c, bits[0]), bits[1..]), Generator();
    var h := Plus(LowBits(c, 32), [bits[0]] + Nothing(31)) + [false];
    assert forall k :: 0 <= k < 33 ==> p[k] == (h[k] != (k > 0 && (bits[1..] + Nothing(32))[k - 1]));
  }

  lemma StepBitBits(c: nat, b: bool)
    requires c < WORD32
    ensures var h := Plus(LowBits(c, 32), [b] + Nothing(31)) + [false];
      LowBits(StepBit(c, b), 32) == (if h[0] then Plus(h, Generator()) else h)[1..]
  {
    hide LowBits, Generator, Step, Xor, Pow2;
    var x := if b then 1 else 0;
    Pow2Words();
    XorBound(c, x, 32);
    StepBits(Xor(c, x));
    LowBitsXor(c, x, 32);
    OneBit(b);
  }

  lemma OneBit(b: bool)
    ensures LowBits(if b then 1 else 0, 32) == [b] + Nothing(31)
  {
    LowBitsZero(31);
    assert (if b then 1 else 0) / 2 == 0;
  }

  /** The CRC of a message is the complement of the remainder of its bits, each byte lowest bit
      first. */
  lemma CrcIsRemainder(init: nat, message: seq<byte>)
    requires init < WORD32
    ensures Crc(init, message) < WORD32
    ensures LowBits(Xor(Crc(init, message), ONES), 32) == Remainder(Dividend(init, BitsOf(message)))
  {
    hide LowBits, Xor, Run, RunBits, Dividend, Remainder;
    RunAsBits(init, message);
    RegisterIsRemainder(init, BitsOf(message));
    XorTwice(Run(init, message), ONES);
    Pow2Words();
    XorBound(Run(init, message), ONES, 32);
  }
}
