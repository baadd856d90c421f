/** Bit fields packed into 32-bit words: what the shifts and masks of the section writers and
    readers come to in arithmetic. */
module Fields {
  import opened Bits

  lemma FieldWidths()
    ensures Pow2(12) == 0x1000 && Pow2(15) == 0x8000 && Pow2(16) == 0x1_0000 && Pow2(28) == 0x1000_0000
  {
    Pow2Small();
    Pow2Square(6, 64);
    Pow2Square(8, 256);
    Pow2Add(8, 7);
    Pow2Add(16, 12);
  }

  // Joining a high field to a low one that fits below it, and taking them apart again.
  lemma Join(hi: nat, lo: nat, k: nat, v: nat)
    requires Pow2(k) == v && lo < v
    ensures hi * v >= 0
    ensures Or(hi * v, lo) == hi * v + lo && Or(lo, hi * v) == hi * v + lo
    ensures (hi * v + lo) % v == lo && (hi * v + lo) / v == hi
    ensures And(hi * v + lo, v - 1) == lo
  {
    hide *;
    OrDisjoint(hi, lo, k);
    OrSym(hi * v, lo);
    ModUnique(hi * v + lo, v, hi, lo);
    AndMask(hi * v + lo, k);
  }

  // A mask that keeps only bits k and up.
  lemma {:induction false} AndShifted(a: nat, m: nat, k: nat)
    ensures a * Pow2(k) >= 0 && m * Pow2(k) >= 0
    ensures And(a * Pow2(k), m * Pow2(k)) == And(a, m) * Pow2(k)
    decreases k, a
  {
    hide *;
    Pow2Step(k);
    if k == 0 {
    } else {
      var p := Pow2(k - 1);
      AndShifted(a, m, k - 1);
      AndTwice(a * p, m * p);
      DoubleOut(a, p);
      DoubleOut(m, p);
      DoubleOut(And(a, m), p);
    }
  }

  lemma DoubleOut(a: int, p: int)
    ensures a * (2 * p) == 2 * (a * p)
  {
  }

  lemma AndTwice(x: nat, y: nat)
    ensures And(2 * x, 2 * y) == 2 * And(x, y)
  {
    assert (2 * x) / 2 == x && (2 * y) / 2 == y && (2 * x) % 2 == 0;
  }

  lemma Low28(a: nat)
    ensures And(a, 0x0FFF_FFFF) == a % 0x1000_0000
  {
    hide *;
    FieldWidths();
    AndMask(a, 28);
  }

  lemma Low16(a: nat)
    ensures And(a, 0xFFFF) == a % 0x1_0000
  {
    hide *;
    FieldWidths();
    AndMask(a, 16);
  }

  lemma Low12(a: nat)
    ensures And(a, 0xFFF) == a % 0x1000
  {
    hide *;
    FieldWidths();
    AndMask(a, 12);
  }

  // (a << 16) & 0xFFFF0000, on 32 bits
  lemma High16(a: nat)
    ensures And(a * 0x1_0000 % WORD32, 0xFFFF_0000) == (a % 0x1_0000) * 0x1_0000
  {
    hide And, Pow2;
    FieldWidths();
    ShiftMod(a, 0x1_0000, 0x1_0000);
    AndShifted(a % 0x1_0000, 0xFFFF, 16);
    AndMask(a % 0x1_0000, 16);
  }

  lemma ShiftMod(a: nat, s: nat, v: nat)
    requires s > 0 && v > 0
    ensures s * v > 0
    ensures a * s % (s * v) == (a % v) * s
  {
    hide *;
    var q, r := a / v, a % v;
    assert a == v * q + r;
    assert s * v > 0 && r * s < s * v by { MulBelow(r, v, s); }
    assert a * s == (s * v) * q + r * s by { Regroup(v, q, r, s); }
    ModUnique(a * s, s * v, q, r * s);
  }

  lemma Regroup(v: int, q: int, r: int, s: int)
    ensures (v * q + r) * s == (s * v) * q + r * s
  {
    assert (v * q) * s == (s * v) * q;
  }

  lemma MulBelow(r: nat, v: nat, s: nat)
    requires r < v && s > 0
    ensures s * v > 0 && r * s < s * v
  {
    assert s * v == s * (v - r) + s * r;
    assert s * (v - r) >= 1;
  }
}
