/** The LEB128 readers of leb128.h (section 7.6 of DWARF 4) over a byte buffer.  Results are
    64-bit words built by shifting and or-ing, so everything is modulo 2^64. */
module Leb128 {
  import opened Bits

  // A set top bit says that another byte follows.
  predicate More(b: byte) { And(b, 0x80) != 0 }

  function Payload(b: byte): nat { And(b, 0x7f) }

  lemma ByteParts(b: byte)
    ensures More(b) == (b >= 128)
    ensures Payload(b) == b % 128
    ensures (And(b, 0x40) != 0) == (b % 128 >= 64)
  {
    Pow2Small();
    AndMask(b, 7);
    AndPower(b, 7);
    AndPower(b, 6);
    ShrDivides(b, 7);
    ShrDivides(b, 6);
    TopBits(b);
  }

  lemma TopBits(b: byte)
    ensures (b / 128 % 2 == 1) == (b >= 128)
    ensures (b / 64 % 2 == 1) == (b % 128 >= 64)
  {
  }

  // x & (1 << k) tests bit k.
  lemma {:induction false} AndPower(a: nat, k: nat)
    ensures (And(a, Pow2(k)) != 0) == (Shr(a, k) % 2 == 1)
    decreases k
  {
    if a == 0 {
      ShrZero(k);
    } else if k > 0 {
      AndPower(a / 2, k - 1);
    }
  }

  lemma {:induction false} ShrZero(k: nat)
    ensures Shr(0, k) == 0
  {
    if k == 0 {
    } else {
      ShrZero(k - 1);
    }
  }

  /** The number of bytes up to and including the first one without a continuation bit;
      0 if the buffer ends before it. */
  function EncodingLength(buf: seq<byte>): (n: nat)
    ensures n <= |buf|
  {
    if |buf| == 0 then 0
    else if buf[0] < 128 then 1
    else
      var n := EncodingLength(buf[1..]);
      if n == 0 then 0 else n + 1
  }

  // Seven payload bits per byte, least significant group first.
  function Value(buf: seq<byte>): nat
  {
    if |buf| == 0 then 0 else buf[0] % 128 + 128 * Value(buf[1..])
  }

  // Payload read as two's complement of 7 * |buf| bits.
  function SignedValue(buf: seq<byte>): int
  {
    if |buf| > 0 && buf[|buf| - 1] % 128 >= 64 then Value(buf) - Pow2(7 * |buf|) else Value(buf)
  }

  // A 64-bit pattern as int64_t.
  function AsInt64(x: nat): int
  {
    if x >= 0x8000_0000_0000_0000 then x - WORD64 else x
  }

  // ---------------------------------------------------------------- specification facts

  lemma {:induction false} LengthIs(buf: seq<byte>, n: nat)
    requires n < |buf| && buf[n] < 128 && forall k :: 0 <= k < n ==> buf[k] >= 128
    ensures EncodingLength(buf) == n + 1
  {
    if n == 0 {
    } else {
      LengthIs(buf[1..], n - 1);
    }
  }

  lemma {:induction false} LengthZero(buf: seq<byte>)
    requires forall k :: 0 <= k < |buf| ==> buf[k] >= 128
    ensures EncodingLength(buf) == 0
  {
    if |buf| == 0 {
    } else {
      LengthZero(buf[1..]);
    }
  }

  lemma {:induction false} ValueBound(buf: seq<byte>)
    ensures Value(buf) < Pow2(7 * |buf|)
  {
    if |buf| == 0 {
    } else {
      ValueBound(buf[1..]);
      Pow2Add(7, 7 * |buf[1..]|);
      assert Pow2(7) == 128;
    }
  }

  lemma {:induction false} ValueSnoc(buf: seq<byte>, b: byte)
    ensures Value(buf + [b]) == Value(buf) + (b % 128) * Pow2(7 * |buf|)
  {
    if |buf| == 0 {
      assert buf + [b] == [b] && [b][1..] == [];
    } else {
      ValueSnoc(buf[1..], b);
      assert (buf + [b])[1..] == buf[1..] + [b];
      Pow2Add(7, 7 * |buf[1..]|);
      assert Pow2(7) == 128;
      var c, p := b % 128, Pow2(7 * |buf[1..]|);
      assert 128 * (c * p) == c * (128 * p);
    }
  }

  // ---------------------------------------------------------------- readers

  /** result |= (uint64_t) c << shift, when result has not reached bit `shift` yet. */
  lemma OrInGroup(result: nat, c: nat, shift: nat)
    requires shift < 64 && result < Pow2(shift)
    ensures Or(result, (c * Pow2(shift)) % WORD64) == (result + c * Pow2(shift)) % WORD64
  {
    var p, t := Pow2(shift), Pow2(64 - shift);
    Pow2Add(64 - shift, shift);
    Pow2Words();
    TopBitsLost(c, p, t);
    OrDisjoint(c % t, result, shift);
    OrSym(result, (c % t) * p);
    SumTopBitsLost(c, p, t, result);
  }

  lemma TopBitsLost(c: nat, p: nat, t: nat)
    requires p > 0 && t > 0
    ensures t * p > 0
    ensures (c * p) % (t * p) == (c % t) * p
  {
    SumTopBitsLost(c, p, t, 0);
  }

  lemma SumTopBitsLost(c: nat, p: nat, t: nat, low: nat)
    requires low < p && t > 0
    ensures t * p > 0
    ensures (low + c * p) % (t * p) == low + (c % t) * p
  {
    var q, r := c / t, c % t;
    assert c == t * q + r;
    MulLe(p, r, t - 1);
    SplitScaled(c, p, t, low, q, r);
    ModUnique(low + c * p, t * p, q, low + r * p);
  }

  lemma SplitScaled(c: nat, p: nat, t: nat, low: nat, q: nat, r: nat)
    requires c == t * q + r
    ensures low + c * p == (t * p) * q + (low + r * p)
  {
    assert (t * q + r) * p == (t * q) * p + r * p;
    assert (t * q) * p == (t * p) * q;
  }

  lemma OneMoreGroup(buf: seq<byte>, p: nat, result: nat)
    requires p < |buf| && p < 10 && result == Value(buf[..p]) % WORD64
    ensures Or(result, (Payload(buf[p]) * Pow2(7 * p)) % WORD64) == Value(buf[..p + 1]) % WORD64
  {
    ByteParts(buf[p]);
    ValueBound(buf[..p]);
    assert buf[..p + 1] == buf[..p] + [buf[p]];
    ValueSnoc(buf[..p], buf[p]);
    Pow2Words();
    Pow2Monotone(7 * p, 64);
    ModUnique(Value(buf[..p]), WORD64, 0, Value(buf[..p]));
    OrInGroup(result, buf[p] % 128, 7 * p);
  }

  // (uint64_t) c << shift.  C does not define shifts by 64 or more; `wide` stands for whatever
  // the machine makes of them.
  function ShiftLeft(c: nat, shift: nat, wide: (nat, nat) -> nat): nat
  {
    (if shift < 64 then c * Pow2(shift) else wide(c, shift)) % WORD64
  }

  /** Unsigned reader: the bytes consumed, for every buffer, and the value modulo 2^64 of up to
      ten bytes, where no shift is too wide; on truncation 0 bytes, and the caller's result r0
      stays as it was. */
  method ReadUleb128(buf: seq<byte>, r0: nat, wide: (nat, nat) -> nat) returns (n: nat, r: nat)
    ensures n == EncodingLength(buf)
    ensures n == 0 ==> r == r0
    ensures 0 < n <= 10 ==> r == Value(buf[..n]) % WORD64
  {
    var p, shift, result := 0, 0, 0;
    while true
      invariant 0 <= p <= |buf| && shift == 7 * p
      invariant forall k :: 0 <= k < p ==> buf[k] >= 128
      invariant p <= 10 ==> result == Value(buf[..p]) % WORD64
      decreases |buf| - p
    {
      if p >= |buf| {
        LengthZero(buf);
        return 0, r0;
      }
      var b := buf[p];
      ReadStep(buf, p, shift, result, wide);
      p := p + 1;
      result := Or(result, ShiftLeft(Payload(b), shift, wide));
      if !More(b) {
        break;
      }
      shift := shift + 7;
    }
    LengthIs(buf, p - 1);
    return p, result;
  }

  // One turn of either reader's loop.
  lemma ReadStep(buf: seq<byte>, p: nat, shift: nat, result: nat, wide: (nat, nat) -> nat)
    requires p < |buf| && shift == 7 * p
    requires p <= 10 ==> result == Value(buf[..p]) % WORD64
    ensures p < 10 ==> Or(result, ShiftLeft(Payload(buf[p]), shift, wide)) == Value(buf[..p + 1]) % WORD64
    ensures More(buf[p]) == (buf[p] >= 128)
  {
    if p < 10 {
      OneMoreGroup(buf, p, result);
    }
    ByteParts(buf[p]);
  }

  /** Signed reader: same bytes, and the sign bit of the last group is extended. */
  method ReadSleb128(buf: seq<byte>, r0: int, wide: (nat, nat) -> nat) returns (n: nat, r: int)
    ensures n == EncodingLength(buf)
    ensures n == 0 ==> r == r0
    ensures 0 < n <= 10 ==> r == AsInt64(SignedValue(buf[..n]) % WORD64)
  {
    var p, shift, result := 0, 0, 0;
    var b: byte := 0;
    while true
      invariant 0 <= p <= |buf| && shift == 7 * p
      invariant forall k :: 0 <= k < p ==> buf[k] >= 128
      invariant p <= 10 ==> result == Value(buf[..p]) % WORD64
      decreases |buf| - p
    {
      if p >= |buf| {
        LengthZero(buf);
        return 0, r0;
      }
      b := buf[p];
      ReadStep(buf, p, shift, result, wide);
      p := p + 1;
      result := Or(result, ShiftLeft(Payload(b), shift, wide));
      shift := shift + 7;
      if !More(b) {
        break;
      }
    }
    LengthIs(buf, p - 1);
    if p <= 10 {
      FinishSigned(buf[..p], result, b);
    }
    if shift < 64 && And(b, 0x40) != 0 {
      result := Or(result, WORD64 - Pow2(shift));
    }
    return p, AsInt64(result);
  }

  lemma FinishSigned(enc: seq<byte>, result: nat, b: byte)
    requires |enc| > 0 && b == enc[|enc| - 1] && result == Value(enc) % WORD64
    ensures 7 * |enc| < 64 ==> Pow2(7 * |enc|) <= WORD64
    ensures (if 7 * |enc| < 64 && And(b, 0x40) != 0 then Or(result, WORD64 - Pow2(7 * |enc|)) else result)
         == SignedValue(enc) % WORD64
  {
    ByteParts(b);
    if 7 * |enc| < 64 {
      Pow2Words();
      Pow2Monotone(7 * |enc|, 64);
    }
    if 7 * |enc| < 64 && And(b, 0x40) != 0 {
      SignExtend(enc, result);
    } else {
      NoSignExtend(enc);
    }
  }

  lemma SignExtend(enc: seq<byte>, result: nat)
    requires 0 < 7 * |enc| < 64 && enc[|enc| - 1] % 128 >= 64 && result == Value(enc) % WORD64
    ensures Pow2(7 * |enc|) <= WORD64
    ensures Or(result, WORD64 - Pow2(7 * |enc|)) == SignedValue(enc) % WORD64
  {
    hide Or, Pow2, Value;
    var shift := 7 * |enc|;
    Pow2Words();
    Pow2Monotone(shift, 64);
    ValueBound(enc);
    ModUnique(Value(enc), WORD64, 0, Value(enc));
    OrInOnes(result, shift);
    ModUnique(Value(enc) - Pow2(shift), WORD64, -1, Value(enc) - Pow2(shift) + WORD64);
  }

  // result |= -(1 << shift)
  lemma OrInOnes(result: nat, shift: nat)
    requires shift < 64 && result < Pow2(shift) <= WORD64
    ensures Or(result, WORD64 - Pow2(shift)) == result + WORD64 - Pow2(shift)
  {
    Pow2Words();
    Pow2Add(64 - shift, shift);
    OrInTopGroups(result, shift, Pow2(64 - shift));
  }

  lemma OrInTopGroups(result: nat, shift: nat, t: nat)
    requires result < Pow2(shift) && t > 0
    ensures t * Pow2(shift) >= Pow2(shift)
    ensures Or(result, t * Pow2(shift) - Pow2(shift)) == result + t * Pow2(shift) - Pow2(shift)
  {
    MulLe(Pow2(shift), 1, t);
    assert (t - 1) * Pow2(shift) == t * Pow2(shift) - Pow2(shift);
    OrDisjoint(t - 1, result, shift);
    OrSym(result, (t - 1) * Pow2(shift));
  }

  lemma NoSignExtend(enc: seq<byte>)
    requires |enc| > 0 && (7 * |enc| >= 64 || enc[|enc| - 1] % 128 < 64)
    ensures SignedValue(enc) % WORD64 == Value(enc) % WORD64
  {
    if enc[|enc| - 1] % 128 >= 64 {
      var shift := 7 * |enc|;
      Pow2Words();
      Pow2Add(shift - 64, 64);
      SubtractMultiple(Value(enc), Pow2(shift - 64));
    }
  }

  lemma SubtractMultiple(v: nat, k: nat)
    ensures (v - k * WORD64) % WORD64 == v % WORD64
  {
    var q, r := v / WORD64, v % WORD64;
    ModUnique(v - k * WORD64, WORD64, q - k, r);
  }

  /** Skipping consumes what the readers consume, for an encoding of any length. */
  method SkipLeb128(buf: seq<byte>) returns (n: nat)
    ensures n == EncodingLength(buf)
  {
    var p := 0;
    while true
      invariant 0 <= p <= |buf|
      invariant forall k :: 0 <= k < p ==> buf[k] >= 128
      decreases |buf| - p
    {
      if p == |buf| {
        LengthZero(buf);
        return 0;
      }
      var b := buf[p];
      ByteParts(b);
      p := p + 1;
      if !More(b) {
        LengthIs(buf, p - 1);
        return p;
      }
    }
  }

  // ---------------------------------------------------------------- encoders of the standard

  function EncodeUnsigned(v: nat): (enc: seq<byte>)
    ensures |enc| > 0
  {
    if v < 128 then [v] else [v % 128 + 128] + EncodeUnsigned(v / 128)
  }

  function EncodeSigned(v: int): (enc: seq<byte>)
    ensures |enc| > 0
    decreases if v < 0 then -v else v
  {
    if -64 <= v < 64 then [v % 128] else [v % 128 + 128] + EncodeSigned(v / 128)
  }

  /** What any reader finds in front of a suffix is exactly the encoding. */
  lemma {:induction false} UnsignedDecodes(v: nat, suffix: seq<byte>)
    ensures EncodingLength(EncodeUnsigned(v) + suffix) == |EncodeUnsigned(v)|
    ensures Value(EncodeUnsigned(v)) == v
  {
    var enc := EncodeUnsigned(v);
    if v < 128 {
      assert enc[1..] == [];
    } else {
      UnsignedDecodes(v / 128, suffix);
      assert enc[1..] == EncodeUnsigned(v / 128);
      assert (enc + suffix)[1..] == enc[1..] + suffix;
    }
  }

  lemma SignedDecodes(v: int, suffix: seq<byte>)
    ensures EncodingLength(EncodeSigned(v) + suffix) == |EncodeSigned(v)|
    ensures SignedValue(EncodeSigned(v)) == v
  {
    SignedEncodingLength(v, suffix);
    SignedEncodingValue(v);
  }

  lemma {:induction false} SignedEncodingLength(v: int, suffix: seq<byte>)
    ensures EncodingLength(EncodeSigned(v) + suffix) == |EncodeSigned(v)|
    decreases if v < 0 then -v else v
  {
    if -64 <= v < 64 {
    } else {
      SignedEncodingLength(v / 128, suffix);
      assert (EncodeSigned(v) + suffix)[1..] == EncodeSigned(v / 128) + suffix;
    }
  }

  lemma {:induction false} SignedEncodingValue(v: int)
    ensures SignedValue(EncodeSigned(v)) == v
    decreases if v < 0 then -v else v
  {
    Pow2Small();
    if -64 <= v < 64 {
      var enc: seq<byte> := [v % 128];
      assert enc[1..] == [] && 7 * |enc| == 7 && Value(enc) == v % 128;
    } else {
      SignedEncodingValue(v / 128);
      SignedValueCons(v % 128 + 128, EncodeSigned(v / 128));
    }
  }

  lemma SignedValueCons(b: byte, rest: seq<byte>)
    requires |rest| > 0
    ensures SignedValue([b] + rest) == b % 128 + 128 * SignedValue(rest)
  {
    var enc := [b] + rest;
    assert enc[1..] == rest && enc[|enc| - 1] == rest[|rest| - 1];
    Pow2Small();
    Pow2Add(7, 7 * |rest|);
  }

  lemma {:induction false} UnsignedLength(v: nat, k: nat)
    requires k > 0 && v < Pow2(7 * k)
    ensures |EncodeUnsigned(v)| <= k
    decreases k
  {
    if v < 128 {
    } else {
      assert Pow2(7) == 128;
      Pow2Add(7, 7 * (k - 1));
      UnsignedLength(v / 128, k - 1);
    }
  }

  lemma {:induction false} SignedLength(v: int, k: nat)
    requires k > 0 && 0 - Pow2(7 * k - 1) <= v < Pow2(7 * k - 1)
    ensures |EncodeSigned(v)| <= k
    decreases k
  {
    if -64 <= v < 64 {
    } else {
      assert Pow2(6) == 64 && Pow2(7) == 128;
      Pow2Add(7, 7 * (k - 1) - 1);
      SignedLength(v / 128, k - 1);
    }
  }

  /** Every uint64 survives encoding and reading, whatever follows it. */
  method UnsignedRoundTrip(v: nat, suffix: seq<byte>, r0: nat, wide: (nat, nat) -> nat) returns (n: nat, r: nat)
    requires v < WORD64
    ensures r == v && n == |EncodeUnsigned(v)|
  {
    UnsignedDecodes(v, suffix);
    Pow2Words();
    Pow2Monotone(64, 70);
    UnsignedLength(v, 10);
    var buf := EncodeUnsigned(v) + suffix;
    n, r := ReadUleb128(buf, r0, wide);
    assert buf[..n] == EncodeUnsigned(v);
    ModUnique(v, WORD64, 0, v);
  }

  /** Every int64 survives encoding and reading, whatever follows it. */
  method SignedRoundTrip(v: int, suffix: seq<byte>, r0: int, wide: (nat, nat) -> nat) returns (n: nat, r: int)
    requires -0x8000_0000_0000_0000 <= v < 0x8000_0000_0000_0000
    ensures r == v && n == |EncodeSigned(v)|
  {
    SignedDecodes(v, suffix);
    Pow2Words();
    Pow2Monotone(63, 69);
    SignedLength(v, 10);
    var buf := EncodeSigned(v) + suffix;
    n, r := ReadSleb128(buf, r0, wide);
    assert buf[..n] == EncodeSigned(v);
    ModUnique(v, WORD64, if v < 0 then -1 else 0, if v < 0 then v + WORD64 else v);
  }

  /** Three examples of figures 22 and 23 of DWARF 4: 12857, -129 and 129 as signed. */
  lemma StandardExamples()
    ensures EncodeUnsigned(12857) == [57 + 0x80, 100]
    ensures EncodeSigned(-129) == [0x7f + 0x80, 0x7e] && EncodeSigned(129) == [1 + 0x80, 1]
  {
    assert EncodeUnsigned(100) == [100];
    assert EncodeSigned(-2) == [0x7e] && EncodeSigned(1) == [1];
  }
}
