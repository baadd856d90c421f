/** Bitwise operators of C on unsigned values, as functions on natural numbers, and the
    facts that turn shifts, masks and disjoint unions into arithmetic. */
module Bits {

  type byte = b: nat | b < 256

  const WORD32: nat := 0x1_0000_0000
  const WORD63: nat := 0x8000_0000_0000_0000
  const WORD64: nat := 0x1_0000_0000_0000_0000

  // Unsigned 64-bit addition and subtraction.
  function Add64(a: nat, b: nat): nat { (a + b) % WORD64 }

  function Sub64(a: nat, b: nat): nat { (a as int - b) % WORD64 }

  function Pow2(n: nat): (r: nat)
    ensures r >= 1
  {
    if n == 0 then 1 else 2 * Pow2(n - 1)
  }

  function And(a: nat, b: nat): nat
    decreases a
  {
    if a == 0 || b == 0 then 0
    else (if a % 2 == 1 && b % 2 == 1 then 1 else 0) + 2 * And(a / 2, b / 2)
  }

  function Or(a: nat, b: nat): nat
    decreases a + b
  {
    if a == 0 && b == 0 then 0
    else (if a % 2 == 1 || b % 2 == 1 then 1 else 0) + 2 * Or(a / 2, b / 2)
  }

  function Xor(a: nat, b: nat): nat
    decreases a + b
  {
    if a == 0 && b == 0 then 0
    else (if a % 2 != b % 2 then 1 else 0) + 2 * Xor(a / 2, b / 2)
  }

  // a >> n
  function Shr(a: nat, n: nat): nat
  {
    if n == 0 then a else Shr(a / 2, n - 1)
  }

  /** A right shift divides by a power of two. */
  lemma {:induction false} ShrDivides(a: nat, n: nat)
    ensures Shr(a, n) == a / Pow2(n)
  {
    hide *;
    ShrStep(a, n);
    if n > 0 {
      ShrDivides(a / 2, n - 1);
      HalfThenDivide(a, Pow2(n - 1));
    } else {
      assert a / 1 == a;
    }
  }

  lemma ShrStep(a: nat, n: nat)
    ensures Shr(a, n) == if n == 0 then a else Shr(a / 2, n - 1)
    ensures Pow2(n) == if n == 0 then 1 else 2 * Pow2(n - 1)
  {
  }

  lemma HalfThenDivide(a: nat, p: nat)
    requires p >= 1
    ensures a / 2 / p == a / (2 * p)
  {
    var q, r := a / 2 / p, a / 2 % p;
    assert a / 2 == p * q + r;
    assert a == (2 * p) * q + (2 * r + a % 2) by { assert 2 * (p * q) == (2 * p) * q; }
    ModUnique(a, 2 * p, q, 2 * r + a % 2);
  }

  lemma {:induction false} Pow2Add(m: nat, n: nat)
    ensures Pow2(m + n) == Pow2(m) * Pow2(n)
  {
    if m == 0 {
    } else {
      Pow2Add(m - 1, n);
      assert Pow2(m + n) == 2 * Pow2(m - 1 + n);
      assert 2 * (Pow2(m - 1) * Pow2(n)) == (2 * Pow2(m - 1)) * Pow2(n);
    }
  }

  lemma {:induction false} Pow2Monotone(m: nat, n: nat)
    requires m <= n
    ensures Pow2(m) <= Pow2(n)
    decreases n
  {
    if m == n {
    } else {
      Pow2Monotone(m, n - 1);
    }
  }

  lemma Pow2Small()
    ensures Pow2(6) == 64 && Pow2(7) == 128 && Pow2(8) == 256
  {
  }

  lemma Pow2Square(n: nat, v: nat)
    requires Pow2(n) == v
    ensures Pow2(2 * n) == v * v
  {
    Pow2Add(n, n);
  }

  lemma Pow2Words()
    ensures Pow2(16) == 0x1_0000 && Pow2(32) == WORD32 && Pow2(64) == WORD64
  {
    Pow2Small();
    Pow2Square(8, 0x100);
    Pow2Square(16, 0x1_0000);
    Pow2Square(32, WORD32);
  }

  /** Or of bit fields that do not meet is addition: the way packed words are built. */
  lemma {:induction false} OrDisjoint(hi: nat, lo: nat, k: nat)
    requires lo < Pow2(k)
    ensures hi * Pow2(k) >= 0
    ensures Or(hi * Pow2(k), lo) == hi * Pow2(k) + lo
    decreases k
  {
    if k == 0 {
      OrZero(hi);
    } else {
      var p := Pow2(k - 1);
      assert hi * Pow2(k) == 2 * (hi * p);
      OrDisjoint(hi, lo / 2, k - 1);
      var x := hi * p;
      assert (2 * x) / 2 == x && (2 * x) % 2 == 0;
    }
  }

  lemma {:induction false} OrSym(a: nat, b: nat)
    ensures Or(a, b) == Or(b, a)
    decreases a + b
  {
    if a == 0 && b == 0 {
    } else {
      OrSym(a / 2, b / 2);
    }
  }

  lemma {:induction false} OrZero(a: nat)
    ensures Or(a, 0) == a
  {
    if a == 0 {
    } else {
      OrZero(a / 2);
    }
  }

  /** Masking with 2^k - 1 keeps the low k bits. */
  lemma {:induction false} AndMask(a: nat, k: nat)
    ensures And(a, Pow2(k) - 1) == a % Pow2(k)
    decreases k
  {
    hide *;
    Pow2Step(k);
    AndStep(a, Pow2(k) - 1);
    if k == 0 {
      ModUnique(a, 1, a, 0);
    } else if a == 0 {
      ModUnique(0, Pow2(k), 0, 0);
    } else {
      var p := Pow2(k - 1);
      AndMask(a / 2, k - 1);
      assert (2 * p - 1) / 2 == p - 1 && (2 * p - 1) % 2 == 1;
      ModHalves(a, p);
      if p == 1 {
        AndStep(a / 2, 0);
      }
    }
  }

  lemma AndStep(a: nat, b: nat)
    ensures And(a, b) == if a == 0 || b == 0 then 0
                         else (if a % 2 == 1 && b % 2 == 1 then 1 else 0) + 2 * And(a / 2, b / 2)
  {
  }

  lemma Pow2Step(k: nat)
    ensures Pow2(k) == if k == 0 then 1 else 2 * Pow2(k - 1)
  {
  }

  lemma ModHalves(a: nat, p: nat)
    requires p >= 1
    ensures a % (2 * p) == a % 2 + 2 * (a / 2 % p)
  {
    var h := a / 2;
    var q, r := h / p, h % p;
    assert h == p * q + r;
    assert a == 2 * h + a % 2;
    var t := a % 2 + 2 * r;
    assert 0 <= t < 2 * p;
    assert a == (2 * p) * q + t by {
      assert 2 * (p * q) == (2 * p) * q;
    }
    ModUnique(a, 2 * p, q, t);
  }

  /** Quotient and remainder are determined by their defining equation. */
  lemma ModUnique(a: int, m: nat, q: int, r: int)
    requires m > 0 && 0 <= r < m && a == m * q + r
    ensures a % m == r && a / m == q
  {
    var q', r' := a / m, a % m;
    assert a == m * q' + r';
    assert m * (q - q') == r' - r;
    MulSmall(m, q - q');
  }

  lemma ModShift(w: nat, x: int, k: int)
    requires w > 0
    ensures (x + k * w) % w == x % w
  {
    var q, r := x / w, x % w;
    assert x == w * q + r;
    assert w * (q + k) == w * q + k * w;
    ModUnique(x + k * w, w, q + k, r);
  }

  lemma MulSmall(m: int, k: int)
    requires m > 0 && -m < m * k < m
    ensures k == 0
  {
    if k >= 1 {
      MulLe(m, 1, k);
    } else if k <= -1 {
      MulLe(m, k, -1);
    }
  }

  lemma MulLe(m: int, x: int, y: int)
    requires 0 <= m && x <= y
    ensures m * x <= m * y
  {
  }

  // ---------------------------------------------------------------- exclusive or

  lemma {:induction false} XorSym(a: nat, b: nat)
    ensures Xor(a, b) == Xor(b, a)
    decreases a + b
  {
    if a == 0 && b == 0 {
    } else {
      XorSym(a / 2, b / 2);
    }
  }

  lemma {:induction false} XorZero(a: nat)
    ensures Xor(a, 0) == a && Xor(0, a) == a
  {
    if a == 0 {
    } else {
      XorZero(a / 2);
    }
  }

  lemma {:induction false} XorSelf(a: nat)
    ensures Xor(a, a) == 0
  {
    if a == 0 {
    } else {
      XorSelf(a / 2);
    }
  }

  lemma {:induction false} XorAssoc(a: nat, b: nat, c: nat)
    ensures Xor(Xor(a, b), c) == Xor(a, Xor(b, c))
    decreases a + b + c
  {
    if a == 0 && b == 0 && c == 0 {
    } else {
      XorAssoc(a / 2, b / 2, c / 2);
      XorHalves(a, b);
      XorHalves(b, c);
      XorHalves(Xor(a, b), c);
      XorHalves(a, Xor(b, c));
    }
  }

  lemma XorHalves(a: nat, b: nat)
    ensures Xor(a, b) / 2 == Xor(a / 2, b / 2)
    ensures Xor(a, b) % 2 == if a % 2 != b % 2 then 1 else 0
    ensures Xor(a, b) == 2 * Xor(a / 2, b / 2) + if a % 2 != b % 2 then 1 else 0
  {
  }

  lemma XorTwice(a: nat, b: nat)
    ensures Xor(Xor(a, b), b) == a
  {
    XorAssoc(a, b, b);
    XorSelf(b);
    XorZero(a);
  }

  lemma XorCancel(a: nat, b: nat, c: nat)
    requires Xor(a, b) == Xor(a, c)
    ensures b == c
  {
    XorSym(a, b);
    XorSym(a, c);
    XorTwice(b, a);
    XorTwice(c, a);
  }

  lemma XorSwap(a: nat, b: nat, c: nat, d: nat)
    ensures Xor(Xor(a, b), Xor(c, d)) == Xor(Xor(a, c), Xor(b, d))
  {
    XorAssoc(a, b, Xor(c, d));
    XorAssoc(b, c, d);
    XorSym(b, c);
    XorAssoc(c, b, d);
    XorAssoc(a, c, Xor(b, d));
  }

  lemma {:induction false} XorBound(a: nat, b: nat, k: nat)
    requires a < Pow2(k) && b < Pow2(k)
    ensures Xor(a, b) < Pow2(k)
    decreases k
  {
    if k == 0 {
    } else {
      XorBound(a / 2, b / 2, k - 1);
    }
  }

  // The top bit of one operand survives when the other one is shorter.
  lemma {:induction false} XorTop(a: nat, b: nat, k: nat)
    requires a < Pow2(k) <= b < 2 * Pow2(k)
    ensures Pow2(k) <= Xor(a, b) < 2 * Pow2(k)
    decreases k
  {
    if k == 0 {
      XorZero(b);
    } else {
      XorTop(a / 2, b / 2, k - 1);
    }
  }

  // ---------------------------------------------------------------- and-not

  // a & ~m
  function AndNot(a: nat, m: nat): nat
    decreases a
  {
    if a == 0 then 0 else (if a % 2 == 1 && m % 2 == 0 then 1 else 0) + 2 * AndNot(a / 2, m / 2)
  }

  lemma AndNotHalves(a: nat, m: nat)
    ensures AndNot(a, m) == 2 * AndNot(a / 2, m / 2) + if a % 2 == 1 && m % 2 == 0 then 1 else 0
  {
  }

  lemma {:induction false} AndNotZero(a: nat)
    ensures AndNot(a, 0) == a
  {
    if a == 0 {
    } else {
      AndNotZero(a / 2);
    }
  }

  lemma {:induction false} AndNotBelow(a: nat, m: nat)
    ensures AndNot(a, m) <= a
  {
    if a == 0 {
    } else {
      AndNotBelow(a / 2, m / 2);
    }
  }

  // Clearing bits takes away at most the mask.
  lemma {:induction false} AndNotAtLeast(a: nat, m: nat)
    ensures AndNot(a, m) >= a - m
    decreases a
  {
    if a == 0 {
    } else {
      AndNotHalves(a, m);
      AndNotAtLeast(a / 2, m / 2);
    }
  }

  /** A mask clears everything exactly when it covers every bit: the test for one set of bits to
      be contained in another. */
  lemma {:induction false} OrAbsorbs(x: nat, d: nat)
    ensures Or(x, d) == d <==> AndNot(x, d) == 0
    decreases x
  {
    if x == 0 {
      OrSym(0, d);
      OrZero(d);
    } else {
      AndNotHalves(x, d);
      OrAbsorbs(x / 2, d / 2);
    }
  }

  lemma {:induction false} AndNotSelf(a: nat)
    ensures AndNot(a, a) == 0
  {
    if a == 0 {
    } else {
      AndNotSelf(a / 2);
    }
  }

  /** Clearing the low k bits rounds down to a multiple of 2^k. */
  lemma {:induction false} AndNotMask(a: nat, k: nat)
    ensures AndNot(a, Pow2(k) - 1) == a - a % Pow2(k)
    decreases k, a
  {
    hide AndNot;
    if k == 0 {
      AndNotZero(a);
    } else {
      var p := Pow2(k - 1);
      AndNotMask(a / 2, k - 1);
      AndNotHalves(a, Pow2(k) - 1);
      assert (2 * p - 1) / 2 == p - 1 && (2 * p - 1) % 2 == 1;
      ModHalves(a, p);
    }
  }
}
