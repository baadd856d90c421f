/** Double-word arithmetic of longlong.h on words of 2h bits: a word is two half words of
    h bits, sums and products wrap at the word size, and `|` and `&` are the bitwise
    operators.  W_TYPE_SIZE is 2h, so h >= 1 covers every even word size. */
module LongLong {
  import opened Bits

  // __ll_B: the weight of the high half word.
  function HalfBase(h: nat): (b: nat) { Pow2(h) }

  // 2^W_TYPE_SIZE.
  function WordBase(h: nat): (w: nat) { Pow2(2 * h) }

  // The number a pair of words stands for.
  function Double(w: nat, hi: int, lo: int): int { hi * w + lo }

  function LowPart(h: nat, t: nat): nat { And(t, HalfBase(h) - 1) }

  function HighPart(h: nat, t: nat): nat { Shr(t, h) }

  /** Conversion of a mathematical result to a word of w values. */
  function Wrap(w: nat, x: int): (r: nat)
    requires w > 0
    ensures r < w
    ensures x < 0 <= x + w ==> r == x + w
    ensures w <= x < 2 * w ==> r == x - w
    decreases if x < 0 then -x else x
  {
    if x < 0 then WrapNegative(w, x) else if x < w then x else Wrap(w, x - w)
  }

  function WrapNegative(w: nat, x: int): (r: nat)
    requires w > 0 && x < 0
    ensures r < w
    decreases -x
  {
    if x + w < 0 then WrapNegative(w, x + w) else x + w
  }

  lemma {:induction false} WrapIsModulo(w: nat, x: int)
    requires w > 0
    ensures Wrap(w, x) == x % w
    decreases if x < 0 then -x else x
  {
    if x < 0 {
      if x + w < 0 {
        WrapIsModulo(w, x + w);
        ModShift(w, x, 1);
      } else {
        ModUnique(x, w, -1, x + w);
      }
    } else if x < w {
      ModUnique(x, w, 0, x);
    } else {
      WrapIsModulo(w, x - w);
      ModShift(w, x, -1);
    }
  }

  lemma SquareBase(h: nat)
    ensures WordBase(h) == HalfBase(h) * HalfBase(h)
  {
    Pow2Add(h, h);
  }

  lemma Halves(h: nat, t: nat)
    requires t < WordBase(h)
    ensures LowPart(h, t) < HalfBase(h) && HighPart(h, t) < HalfBase(h)
    ensures t == Double(HalfBase(h), HighPart(h, t), LowPart(h, t))
  {
    AndMask(t, h);
    ShrDivides(t, h);
    SquareBase(h);
    Split(t, HalfBase(h));
  }

  lemma Split(t: nat, b: nat)
    requires b > 0 && t < b * b
    ensures t / b < b && t == (t / b) * b + t % b
  {
    assert t == b * (t / b) + t % b;
    if t / b >= b {
      MulLe(b, b, t / b);
    }
  }

  lemma MulBounds(x: nat, y: nat, m: nat, n: nat)
    requires x <= m && y <= n
    ensures x * y <= m * n
  {
    MulLe(x, y, n);
    MulLe(n, x, m);
  }

  // ---------------------------------------------------------------- sums and differences

  /** (sh, sl) is the double-word sum with the carry out lost. */
  method AddSsaaaa(w: nat, ah: nat, al: nat, bh: nat, bl: nat) returns (sh: nat, sl: nat)
    requires ah < w && al < w && bh < w && bl < w
    ensures sh < w && sl < w && w * w > 0
    ensures Double(w, sh, sl) == (Double(w, ah, al) + Double(w, bh, bl)) % (w * w)
  {
    var x := Wrap(w, al + bl);
    sh := Wrap(w, ah + bh + (if x < al then 1 else 0));
    sl := x;
    ghost var c := if x < al then 1 else 0;
    assert al + bl == c * w + x;
    SumOfDoubles(w, ah, al, bh, bl, c, sh, sl);
  }

  lemma SumOfDoubles(w: nat, ah: nat, al: nat, bh: nat, bl: nat, c: nat, sh: nat, sl: nat)
    requires w > 0 && sl < w && al + bl == c * w + sl && sh == Wrap(w, ah + bh + c)
    ensures w * w > 0
    ensures Double(w, sh, sl) == (Double(w, ah, al) + Double(w, bh, bl)) % (w * w)
  {
    DoubleWrap(w, ah + bh + c, sl);
    assert (ah + bh + c) * w == ah * w + bh * w + c * w;
  }

  /** Wrapping the high word reduces the double word modulo w * w. */
  lemma DoubleWrap(w: nat, hi: int, lo: nat)
    requires lo < w
    ensures w * w > 0
    ensures Double(w, Wrap(w, hi), lo) == Double(w, hi, lo) % (w * w)
  {
    WrapIsModulo(w, hi);
    DivMod(hi, w);
    DoubleMod(w, hi / w, hi % w, lo);
  }

  lemma DoubleMod(w: nat, q: int, r: nat, lo: nat)
    requires r < w && lo < w
    ensures w * w > 0
    ensures Double(w, r, lo) == Double(w, w * q + r, lo) % (w * w)
  {
    DoubleBound(w, r, lo);
    DoubleOfSplit(w, q, r, lo);
    ModUnique(Double(w, w * q + r, lo), w * w, q, Double(w, r, lo));
  }

  lemma DoubleOfSplit(w: nat, q: int, r: int, lo: int)
    ensures Double(w, w * q + r, lo) == (w * w) * q + Double(w, r, lo)
  {
    assert (w * q + r) * w == (w * w) * q + r * w;
  }

  lemma DoubleBound(w: nat, hi: nat, lo: nat)
    requires hi < w && lo < w
    ensures Double(w, hi, lo) < w * w
  {
    MulLe(w, hi, w - 1);
  }

  lemma DoubleUnique(w: nat, hi: nat, lo: nat, hi': nat, lo': nat)
    requires lo < w && lo' < w && Double(w, hi, lo) == Double(w, hi', lo')
    ensures hi == hi' && lo == lo'
  {
    assert w * (hi - hi') == lo' - lo;
    MulSmall(w, hi - hi');
  }

  /** (sh, sl) is the double-word difference with the borrow out lost. */
  method SubDdmmss(w: nat, ah: nat, al: nat, bh: nat, bl: nat) returns (sh: nat, sl: nat)
    requires ah < w && al < w && bh < w && bl < w
    ensures sh < w && sl < w && w * w > 0
    ensures Double(w, sh, sl) == (Double(w, ah, al) - Double(w, bh, bl)) % (w * w)
  {
    var x := Wrap(w, al - bl);
    sh := Wrap(w, ah - bh - (if x > al then 1 else 0));
    sl := x;
    ghost var c := if x > al then 1 else 0;
    assert al - bl == x - c * w;
    DifferenceOfDoubles(w, ah, al, bh, bl, c, sh, sl);
  }

  lemma DifferenceOfDoubles(w: nat, ah: nat, al: nat, bh: nat, bl: nat, c: nat, sh: nat, sl: nat)
    requires w > 0 && sl < w && al - bl == sl - c * w && sh == Wrap(w, ah - bh - c)
    ensures w * w > 0
    ensures Double(w, sh, sl) == (Double(w, ah, al) - Double(w, bh, bl)) % (w * w)
  {
    DoubleWrap(w, ah - bh - c, sl);
    assert (ah - bh - c) * w == ah * w - bh * w - c * w;
  }

  /** Subtraction undoes addition and gives back both words of the first operand. */
  method AddThenSub(w: nat, ah: nat, al: nat, bh: nat, bl: nat) returns (dh: nat, dl: nat)
    requires ah < w && al < w && bh < w && bl < w
    ensures dh == ah && dl == al
  {
    hide *;
    var sh, sl := AddSsaaaa(w, ah, al, bh, bl);
    dh, dl := SubDdmmss(w, sh, sl, bh, bl);
    ghost var m, x := w * w, Double(w, ah, al);
    DoubleNat(w, ah, al);
    DoubleBound(w, ah, al);
    ModUndo(x, Double(w, bh, bl), m);
    DoubleUnique(w, dh, dl, ah, al);
  }

  lemma DoubleNat(w: nat, hi: nat, lo: nat)
    ensures Double(w, hi, lo) >= 0
  {
    MulLe(w, 0, hi);
  }

  lemma ModUndo(a: nat, b: int, m: nat)
    requires a < m
    ensures ((a + b) % m - b) % m == a
  {
    var q, s := (a + b) / m, (a + b) % m;
    assert a + b == m * q + s;
    assert m * (-q) == -(m * q);
    ModUnique(s - b, m, -q, a);
  }

  // ---------------------------------------------------------------- multiplication

  /** The plain C product: both words of u * v, for all words u and v. */
  method UmulPpmm(h: nat, u: nat, v: nat) returns (w1: nat, w0: nat)
    requires u < WordBase(h) && v < WordBase(h)
    ensures w1 < WordBase(h) && w0 < WordBase(h)
    ensures Double(WordBase(h), w1, w0) == u * v
  {
    var x := PartialProducts(h, u, v);
    w1, w0 := Accumulate(h, x);
  }

  // The four products of half words; none of them wraps.
  method PartialProducts(h: nat, u: nat, v: nat) returns (x: Partial4)
    requires u < WordBase(h) && v < WordBase(h)
    ensures PartialsFit(h, x)
    ensures u * v == Double(WordBase(h), HighWord(h, x), LowWord(h, x))
  {
    var ul, uh := LowPart(h, u), HighPart(h, u);
    var vl, vh := LowPart(h, v), HighPart(h, v);
    Halves(h, u);
    Halves(h, v);
    ghost var p := Split4(ul, uh, vl, vh);
    ProductWords(h, u, v, p);
    NoWrap(h, Partials(p));
    x := Partial4(Wrap(WordBase(h), ul * vl), Wrap(WordBase(h), ul * vh),
                  Wrap(WordBase(h), uh * vl), Wrap(WordBase(h), uh * vh));
    assert x == Partials(p);
  }

  lemma NoWrap(h: nat, x: Partial4)
    requires PartialsFit(h, x)
    ensures Wrap(WordBase(h), x.x0) == x.x0 && Wrap(WordBase(h), x.x1) == x.x1
    ensures Wrap(WordBase(h), x.x2) == x.x2 && Wrap(WordBase(h), x.x3) == x.x3
  {
  }

  datatype Split4 = Split4(ul: nat, uh: nat, vl: nat, vh: nat)

  datatype Partial4 = Partial4(x0: nat, x1: nat, x2: nat, x3: nat)

  // The middle column of the product, before any wrap.
  function Middle(h: nat, x: Partial4): nat { x.x1 + HighPart(h, x.x0) + x.x2 }

  // The two words of x3 * 2^W + (x1 + x2) * 2^h + x0.
  function HighWord(h: nat, x: Partial4): nat
  {
    var w := WordBase(h);
    if Middle(h, x) < w then x.x3 + HighPart(h, Middle(h, x))
    else x.x3 + HalfBase(h) + HighPart(h, Wrap(w, Middle(h, x)))
  }

  function LowWord(h: nat, x: Partial4): nat
  {
    LowPart(h, Wrap(WordBase(h), Middle(h, x))) * HalfBase(h) + LowPart(h, x.x0)
  }

  /** The carry chain of the product: the first addition never carries, the carry of the
      second is caught by comparing with an operand. */
  method Accumulate(h: nat, x: Partial4) returns (w1: nat, w0: nat)
    requires PartialsFit(h, x)
    ensures w1 == HighWord(h, x) && w0 == LowWord(h, x)
  {
    var b, w := HalfBase(h), WordBase(h);
    Halves(h, x.x0);
    assert x.x1 + HighPart(h, x.x0) < w;
    var y := Wrap(w, x.x1 + HighPart(h, x.x0));
    var z := Wrap(w, y + x.x2);
    assert y + x.x2 == Middle(h, x) && z == Wrap(w, Middle(h, x));
    var top := x.x3;
    if z < x.x2 {
      top := Wrap(w, top + b);
    }
    w1 := Wrap(w, top + HighPart(h, z));
    var shifted := LowPart(h, z) * b;
    w0 := Wrap(w, Wrap(w, shifted) + LowPart(h, x.x0));
  }

  // The four partial products of the halves.
  function Partials(p: Split4): Partial4
  {
    Partial4(p.ul * p.vl, p.ul * p.vh, p.uh * p.vl, p.uh * p.vh)
  }

  lemma ProductWords(h: nat, u: nat, v: nat, p: Split4)
    requires u < WordBase(h) && v < WordBase(h)
    requires u == Double(HalfBase(h), p.uh, p.ul) && v == Double(HalfBase(h), p.vh, p.vl)
    requires p.ul < HalfBase(h) && p.uh < HalfBase(h) && p.vl < HalfBase(h) && p.vh < HalfBase(h)
    ensures PartialsFit(h, Partials(p))
    ensures u * v == Double(WordBase(h), HighWord(h, Partials(p)), LowWord(h, Partials(p)))
  {
    ProductBounds(h, p);
    WordsOfColumns(h, p, Partials(p));
    HighWordFits(WordBase(h), u, v, HighWord(h, Partials(p)), LowWord(h, Partials(p)));
  }

  // Nothing in the carry chain leaves the word range except the middle column.
  predicate PartialsFit(h: nat, x: Partial4)
  {
    && ColumnsFit(h, x)
    && HighWord(h, x) < WordBase(h) && LowWord(h, x) < WordBase(h)
  }

  predicate ColumnsFit(h: nat, x: Partial4)
  {
    x.x0 < WordBase(h) && x.x1 + HalfBase(h) <= WordBase(h) && x.x2 < WordBase(h) && x.x3 < WordBase(h)
  }

  lemma WordsOfColumns(h: nat, p: Split4, x: Partial4)
    requires x == Partials(p) && ColumnsFit(h, x)
    ensures LowWord(h, x) < WordBase(h)
    ensures Double(HalfBase(h), p.uh, p.ul) * Double(HalfBase(h), p.vh, p.vl)
         == Double(WordBase(h), HighWord(h, x), LowWord(h, x))
  {
    Halves(h, x.x0);
    var z := Wrap(WordBase(h), Middle(h, x));
    Halves(h, z);
    SquareBase(h);
    DoubleBound(HalfBase(h), LowPart(h, z), LowPart(h, x.x0));
    ProductSplit(HalfBase(h), WordBase(h), p, x, HighPart(h, x.x0), LowPart(h, x.x0), HighPart(h, z), LowPart(h, z),
                 Middle(h, x) >= WordBase(h));
  }

  lemma ProductBounds(h: nat, p: Split4)
    requires p.ul < HalfBase(h) && p.uh < HalfBase(h) && p.vl < HalfBase(h) && p.vh < HalfBase(h)
    ensures ColumnsFit(h, Partials(p))
  {
    HalfProduct(h, p.ul, p.vl);
    HalfProduct(h, p.ul, p.vh);
    HalfProduct(h, p.uh, p.vl);
    HalfProduct(h, p.uh, p.vh);
  }

  lemma HalfProduct(h: nat, x: nat, y: nat)
    requires x < HalfBase(h) && y < HalfBase(h)
    ensures x * y + HalfBase(h) <= WordBase(h)
  {
    SquareBase(h);
    MulBounds(x, y, HalfBase(h) - 1, HalfBase(h));
  }

  // The two cross products and the carries land in the right words.
  lemma ProductSplit(b: nat, w: nat, p: Split4, x: Partial4, h0: nat, l0: nat, h1: nat, l1: nat, carry: bool)
    requires w == b * b && x == Partials(p)
    requires x.x0 == Double(b, h0, l0)
    requires (if carry then w else 0) + Double(b, h1, l1) == x.x1 + h0 + x.x2
    ensures Double(b, p.uh, p.ul) * Double(b, p.vh, p.vl)
         == Double(w, x.x3 + (if carry then b else 0) + h1, Double(b, l1, l0))
  {
    Expand(p.uh, p.ul, p.vh, p.vl, b);
    Shuffle(b, w, x.x3, if carry then w else 0, if carry then b else 0, h1, l1, h0, l0, x.x1 + x.x2);
  }

  lemma Shuffle(b: nat, w: nat, top: nat, cw: nat, cb: nat, h1: nat, l1: nat, h0: nat, l0: nat, cross: nat)
    requires w == b * b && cw * b == cb * w && cross == cw + h1 * b + l1 - h0
    ensures top * w + cross * b + (h0 * b + l0) == (top + cb + h1) * w + (l1 * b + l0)
  {
    assert cross * b == cw * b + (h1 * b) * b + l1 * b - h0 * b;
    assert (h1 * b) * b == h1 * w;
    assert (top + cb + h1) * w == top * w + cb * w + h1 * w;
  }

  lemma Expand(uh: int, ul: int, vh: int, vl: int, b: int)
    ensures (uh * b + ul) * (vh * b + vl) == (uh * vh) * (b * b) + (uh * vl + ul * vh) * b + ul * vl
  {
    var v := vh * b + vl;
    assert (uh * b + ul) * v == uh * b * v + ul * v;
    assert uh * b * v == uh * b * (vh * b) + uh * b * vl;
    assert ul * v == ul * (vh * b) + ul * vl;
    assert uh * b * (vh * b) == (uh * vh) * (b * b);
    assert (uh * vl + ul * vh) * b == uh * b * vl + ul * (vh * b);
  }

  // The high word of a product of words is a word, so it never wraps.
  lemma HighWordFits(w: nat, u: nat, v: nat, hi: nat, lo: nat)
    requires u < w && v < w && u * v == Double(w, hi, lo)
    ensures hi < w
  {
    MulBounds(u, v, w - 1, w);
    if hi >= w {
      MulLe(w, w, hi);
    }
  }

  // A word read as two's complement.
  function Signed(w: nat, x: nat): int
  {
    if 2 * x >= w then x - w else x
  }

  // smul_ppmm: the two words of the signed product, supplied by the machine.
  function SmulPpmm(w: nat, u: nat, v: nat): (r: (nat, nat))
    requires w > 0
  {
    var p := Signed(w, u) * Signed(w, v);
    (Wrap(w, p / w), Wrap(w, p))
  }

  // -(x >> (W_TYPE_SIZE - 1)) & y
  function SignMask(h: nat, x: nat, y: nat): nat
    requires h >= 1
  {
    And(Wrap(WordBase(h), 0 - Shr(x, 2 * h - 1)), y)
  }

  /** The mask selects y exactly when x is negative as a signed word. */
  lemma SignMaskMeaning(h: nat, x: nat, y: nat)
    requires h >= 1 && x < WordBase(h) && y < WordBase(h)
    ensures SignMask(h, x, y) == if 2 * x >= WordBase(h) then y else 0
  {
    var t := Pow2(2 * h - 1);
    ShrDivides(x, 2 * h - 1);
    if x >= t {
      ModUnique(x, t, 1, x - t);
      AndMask(y, 2 * h);
      AndSym(y, Pow2(2 * h) - 1);
      ModUnique(y, WordBase(h), 0, y);
    } else {
      ModUnique(x, t, 0, x);
    }
  }

  lemma {:induction false} AndSym(a: nat, b: nat)
    ensures And(a, b) == And(b, a)
  {
    if a == 0 || b == 0 {
    } else {
      AndSym(a / 2, b / 2);
    }
  }

  /** The product built on a signed multiply agrees with the plain one. */
  method UmulPpmmViaSmul(h: nat, u: nat, v: nat) returns (w1: nat, w0: nat)
    requires h >= 1 && u < WordBase(h) && v < WordBase(h)
    ensures w1 < WordBase(h) && w0 < WordBase(h)
    ensures Double(WordBase(h), w1, w0) == u * v
  {
    var w := WordBase(h);
    var (s1, s0) := SmulPpmm(w, u, v);
    w0 := s0;
    w1 := Wrap(w, Wrap(w, s1 + SignMask(h, u, v)) + SignMask(h, v, u));
    SignMaskMeaning(h, u, v);
    SignMaskMeaning(h, v, u);
    SignedCorrection(w, u, v, w1, w0);
  }

  lemma SignedCorrection(w: nat, u: nat, v: nat, w1: nat, w0: nat)
    requires u < w && v < w && w0 == SmulPpmm(w, u, v).1
    requires w1 == Wrap(w, Wrap(w, SmulPpmm(w, u, v).0 + (if 2 * u >= w then v else 0))
                           + (if 2 * v >= w then u else 0))
    ensures Double(w, w1, w0) == u * v
  {
    var p := Signed(w, u) * Signed(w, v);
    var hi, mu, mv := p / w, if 2 * u >= w then v else 0, if 2 * v >= w then u else 0;
    var k := if 2 * u >= w && 2 * v >= w then 1 else 0;
    WrapIsModulo(w, p);
    DivMod(p, w);
    SignedProduct(w, u, v, hi, w0);
    CorrectedHighWord(w, u, v, hi, mu, mv, k, w0);
  }

  lemma DivMod(x: int, m: nat)
    requires m > 0
    ensures x == m * (x / m) + x % m
  {
  }

  lemma CorrectedHighWord(w: nat, u: nat, v: nat, hi: int, mu: nat, mv: nat, k: int, w0: nat)
    requires u < w && v < w && w0 < w
    requires u * v == Double(w, hi + mu + mv - k * w, w0)
    ensures Double(w, Wrap(w, Wrap(w, Wrap(w, hi) + mu) + mv), w0) == u * v
  {
    var top := hi + mu + mv - k * w;
    HighNonNegative(w, u * v, top, w0);
    HighWordFits(w, u, v, top, w0);
    WrapChain(w, hi, mu, mv, k, top);
  }

  // (u - cu w)(v - cv w) is u v less the two corrections, up to a multiple of w * w.
  lemma SignedProduct(w: nat, u: nat, v: nat, hi: int, lo: nat)
    requires Signed(w, u) * Signed(w, v) == w * hi + lo
    ensures u * v == Double(w, hi + (if 2 * u >= w then v else 0) + (if 2 * v >= w then u else 0)
                               - (if 2 * u >= w && 2 * v >= w then 1 else 0) * w, lo)
  {
    if 2 * u >= w && 2 * v >= w {
      assert (u - w) * (v - w) == u * v - (u + v - w) * w;
      assert (hi + v + u - w) * w == hi * w + (u + v - w) * w;
    } else if 2 * u >= w {
      assert (u - w) * v == u * v - v * w;
      assert (hi + v) * w == hi * w + v * w;
    } else if 2 * v >= w {
      assert u * (v - w) == u * v - u * w;
      assert (hi + u) * w == hi * w + u * w;
    }
  }

  lemma HighNonNegative(w: nat, p: nat, hi: int, lo: nat)
    requires lo < w && p == Double(w, hi, lo)
    ensures hi >= 0
  {
    if hi < 0 {
      MulLe(w, hi, -1);
    }
  }

  lemma WrapUnique(w: nat, x: int, k: int, r: nat)
    requires r < w && x == w * k + r
    ensures Wrap(w, x) == r
  {
    ModUnique(x, w, k, r);
    WrapIsModulo(w, x);
  }

  lemma WrapChain(w: nat, a: int, m1: nat, m2: nat, k: int, top: nat)
    requires top < w && top == a + m1 + m2 - k * w
    ensures Wrap(w, Wrap(w, Wrap(w, a) + m1) + m2) == top
  {
    WrapUnique(w, a + m1 + m2, k, top);
    WrapAdd(w, a, m1);
    WrapAdd(w, a + m1, m2);
  }

  lemma WrapAdd(w: nat, a: int, m: int)
    requires w > 0
    ensures Wrap(w, Wrap(w, a) + m) == Wrap(w, a + m)
  {
    WrapIsModulo(w, a);
    WrapIsModulo(w, Wrap(w, a) + m);
    WrapIsModulo(w, a + m);
    ModOfSum(a, m, w);
  }

  lemma ModOfSum(a: int, m: int, w: nat)
    requires w > 0
    ensures (a % w + m) % w == (a + m) % w
  {
    var q := a / w;
    DivMod(a, w);
    assert a + m + (-q) * w == a % w + m;
    ModShift(w, a + m, -q);
  }

  // ---------------------------------------------------------------- division

  /** The correction of a digit estimate, written twice in the macro.  q and r may wrap on the
      way; what comes out is the estimate less at most two, and the remainder it leaves. */
  method CorrectDigit(w: nat, q: int, r: nat, d: nat, m: nat) returns (q': int, r': nat)
    requires r < d < w <= 2 * d && m < w
    ensures q - 2 <= q' <= q && r' < d
    ensures r' == r - m + (if q' == q then 0 else if q' == q - 1 then d else 2 * d)
  {
    q', r' := q, r;
    if r' < m {
      q', r' := q' - 1, Wrap(w, r' + d);
      if r' >= d {
        if r' < m {
          q', r' := q' - 1, Wrap(w, r' + d);
        }
      }
    }
    r' := Wrap(w, r' - m);
  }

  // Divide by the high half of d: the product with the low half fits a word.
  method HighQuotient(h: nat, n1: nat, nh: nat, d: nat) returns (q: nat, r: nat)
    requires h >= 1 && n1 < d < WordBase(h) <= 2 * d && nh < HalfBase(h)
    ensures q * LowPart(h, d) < WordBase(h)
    ensures r * HalfBase(h) + nh < d
    ensures Double(HalfBase(h), n1, nh) == q * d + (r * HalfBase(h) + nh) - q * LowPart(h, d)
  {
    var d1 := HighPart(h, d);
    DivisorHalves(h, d);
    q, r := DivideWord(n1, d1);
    Estimate(h, n1, nh, d, d1, LowPart(h, d), q, r);
  }

  method DivideWord(n: nat, d: nat) returns (q: nat, r: nat)
    requires d > 0
    ensures n == d * q + r && r < d
  {
    q, r := n / d, n % d;
  }

  /** The digit estimate from the high half of d, the product m it costs, and the partial
      remainder rem it is to be taken from. */
  method EstimateDigit(h: nat, n1: nat, nh: nat, d: nat) returns (q: nat, rem: nat, m: nat)
    requires h >= 1 && n1 < d < WordBase(h) <= 2 * d && nh < HalfBase(h)
    ensures rem < d && m < WordBase(h)
    ensures Double(HalfBase(h), n1, nh) == q * d + rem - m
  {
    var r;
    q, r := HighQuotient(h, n1, nh, d);
    m := Wrap(WordBase(h), q * LowPart(h, d));
    rem := ShiftIn(h, r, nh);
    ShiftInAdds(h, r, nh);
  }

  // (hi * __ll_B) | lo: appending a half word below another one.
  function ShiftIn(h: nat, hi: nat, lo: nat): nat
  {
    Or(Wrap(WordBase(h), hi * HalfBase(h)), lo)
  }

  lemma ShiftInAdds(h: nat, hi: nat, lo: nat)
    requires lo < HalfBase(h) && hi * HalfBase(h) + lo < WordBase(h)
    ensures ShiftIn(h, hi, lo) == Double(HalfBase(h), hi, lo)
  {
    OrDisjoint(hi, lo, h);
  }

  /** One half of the division: estimate a digit, then correct it.  n1 < d is the running
      remainder and nh the next half word of the numerator. */
  method QuotientDigit(h: nat, n1: nat, nh: nat, d: nat) returns (q: nat, r: nat)
    requires h >= 1 && n1 < d < WordBase(h) <= 2 * d && nh < HalfBase(h)
    ensures Double(HalfBase(h), n1, nh) == q * d + r && r < d && q < HalfBase(h)
  {
    var est, rem, m := EstimateDigit(h, n1, nh, d);
    var q', r' := CorrectDigit(WordBase(h), est, rem, d, m);
    DigitEquation(est, q', d, (rem as int) - m, r', Double(HalfBase(h), n1, nh));
    DigitFits(HalfBase(h), n1, nh, d, q', r');
    q, r := q', r';
  }

  /** The digit e estimated from the high half of a normalised divisor is never below the
      true digit t and never more than two above it. */
  lemma EstimateWithinTwo(h: nat, n1: nat, nh: nat, d: nat, e: nat, r0: nat, t: int, r: nat)
    requires h >= 1 && n1 < d < WordBase(h) <= 2 * d && nh < HalfBase(h)
    requires n1 == HighPart(h, d) * e + r0 && r0 < HighPart(h, d)
    requires Double(HalfBase(h), n1, nh) == t * d + r && r < d
    ensures t <= e <= t + 2
  {
    DivisorHalves(h, d);
    EstimateNear(h, n1, nh, d, HighPart(h, d), LowPart(h, d), e, r0, t, r);
  }

  lemma EstimateNear(h: nat, n1: nat, nh: nat, d: nat, d1: nat, d0: nat, q: nat, r0: nat, t: int, r: nat)
    requires d == Double(HalfBase(h), d1, d0) && d0 < HalfBase(h) <= 2 * d1 && n1 < d && nh < HalfBase(h)
    requires n1 == d1 * q + r0 && r0 < d1 && WordBase(h) <= 2 * d
    requires Double(HalfBase(h), n1, nh) == t * d + r && r < d
    ensures t <= q <= t + 2
  {
    hide *;
    Estimate(h, n1, nh, d, d1, d0, q, r0);
    CloseTo(q, t, d, r0 * HalfBase(h) + nh, q * d0, r);
  }

  lemma CloseTo(q: int, t: int, d: int, e: int, c: int, r: int)
    requires t * d + r == q * d + e - c
    requires d > 0 && 0 <= r < d && -2 * d < e - c < d
    ensures t <= q <= t + 2
  {
    assert (q - t) * d == q * d - t * d;
    Close(d, q - t, e - c, r);
  }

  lemma Close(d: int, k: int, s: int, r: int)
    requires d > 0 && k * d + s == r && 0 <= r < d && -2 * d < s < d
    ensures 0 <= k <= 2
  {
    if k <= -1 {
      MulLe(d, k, -1);
    } else if k >= 3 {
      MulLe(d, 3, k);
    }
  }

  lemma HighHalfNormalised(b: nat, k: nat, d: nat, d1: nat, d0: nat)
    requires b == 2 * k && b * b <= 2 * d && d == Double(b, d1, d0) && d0 < b
    ensures 2 * d1 >= b && d1 > 0
  {
    if d1 < k {
      MulLe(b, d1 + 1, k);
    }
  }

  // The high half of a normalised divisor is itself normalised.
  lemma DivisorHalves(h: nat, d: nat)
    requires h >= 1 && d < WordBase(h) <= 2 * d
    ensures d == Double(HalfBase(h), HighPart(h, d), LowPart(h, d))
    ensures LowPart(h, d) < HalfBase(h) <= 2 * HighPart(h, d) && HighPart(h, d) > 0
  {
    Halves(h, d);
    SquareBase(h);
    HighHalfNormalised(HalfBase(h), Pow2(h - 1), d, HighPart(h, d), LowPart(h, d));
  }

  // The estimate's product fits a word, and it leaves the partial remainder short by it.
  lemma Estimate(h: nat, n1: nat, nh: nat, d: nat, d1: nat, d0: nat, q: nat, r: nat)
    requires d == Double(HalfBase(h), d1, d0) && d0 < HalfBase(h) <= 2 * d1 && n1 < d && nh < HalfBase(h)
    requires n1 == d1 * q + r && r < d1
    ensures 0 <= q * d0 < WordBase(h)
    ensures 0 <= r * HalfBase(h) + nh < d
    ensures Double(HalfBase(h), n1, nh) == q * d + (r * HalfBase(h) + nh) - q * d0
  {
    SquareBase(h);
    EstimateParts(HalfBase(h), d, d1, d0, n1, nh, q, r);
  }

  lemma EstimateParts(b: nat, d: nat, d1: nat, d0: nat, n1: nat, nh: nat, q: nat, r: nat)
    requires d == Double(b, d1, d0) && d0 < b <= 2 * d1 && n1 < d && nh < b
    requires n1 == d1 * q + r && r < d1
    ensures q * d0 < b * b
    ensures r * b + nh < d
    ensures Double(b, n1, nh) == q * d + (r * b + nh) - q * d0
  {
    EstimateBound(b, n1, d, d1, d0, q);
    EstimateFits(b, q, d0);
    RemainderFits(b, r, d1, nh);
    EstimateEquation(b, q, r, d1, d0);
  }

  lemma EstimateFits(b: int, q: nat, d0: nat)
    requires q <= b + 1 && d0 < b
    ensures q * d0 < b * b
  {
    MulBounds(q, d0, b + 1, b - 1);
    assert (b + 1) * (b - 1) == b * b - 1;
  }

  lemma RemainderFits(b: nat, r: nat, d1: nat, nh: nat)
    requires r < d1 && nh < b
    ensures r * b + nh < d1 * b
  {
    MulLe(b, r, d1 - 1);
  }

  lemma EstimateEquation(b: nat, q: nat, r: nat, d1: nat, d0: nat)
    ensures (d1 * q + r) * b == q * (d1 * b + d0) + r * b - q * d0
  {
    assert (d1 * q + r) * b == q * (d1 * b) + r * b;
  }

  lemma EstimateBound(b: nat, n1: nat, d: nat, d1: nat, d0: nat, q: nat)
    requires n1 < d == Double(b, d1, d0) && d0 < b <= 2 * d1 && d1 * q <= n1
    ensures q <= b + 1
  {
    if q >= b + 2 {
      MulLe(d1, b + 2, q);
    }
  }

  lemma DigitEquation(est: int, q: int, d: nat, short: int, r: nat, n: nat)
    requires n == est * d + short && est - 2 <= q <= est && r < d
    requires r == short + (if q == est then 0 else if q == est - 1 then d else 2 * d)
    ensures n == q * d + r && q >= 0
  {
    assert (est - 1) * d == est * d - d && (est - 2) * d == est * d - 2 * d;
    HighNonNegative(d, n, q, r);
  }

  lemma DigitFits(b: nat, n1: nat, nh: nat, d: nat, q: nat, r: nat)
    requires n1 < d && nh < b && Double(b, n1, nh) == q * d + r
    ensures q < b
  {
    MulLe(b, n1, d - 1);
    if q >= b {
      MulLe(d, b, q);
    }
  }

  /** Two words divided by one: quotient and remainder of n1 * 2^W + n0 by a normalised d. */
  method UdivQrnndC(h: nat, n1: nat, n0: nat, d: nat) returns (q: nat, r: nat)
    requires h >= 1 && n0 < WordBase(h) && n1 < d < WordBase(h)
    requires 2 * d >= WordBase(h)
    ensures Double(WordBase(h), n1, n0) == q * d + r && r < d && q < WordBase(h)
  {
    Halves(h, n0);
    var b, w := HalfBase(h), WordBase(h);
    var q1, r1 := QuotientDigit(h, n1, HighPart(h, n0), d);
    var q0, r0 := QuotientDigit(h, r1, LowPart(h, n0), d);
    DoubleBound(b, q1, q0);
    SquareBase(h);
    ShiftInAdds(h, q1, q0);
    q := ShiftIn(h, q1, q0);
    r := r0;
    TwoDigits(b, w, n1, HighPart(h, n0), LowPart(h, n0), d, q1, r1, q0, r0);
  }

  // Long division in base b, two digits.
  lemma TwoDigits(b: nat, w: nat, n1: nat, nh: nat, nl: nat, d: nat, q1: nat, r1: nat, q0: nat, r0: nat)
    requires w == b * b
    requires Double(b, n1, nh) == q1 * d + r1 && Double(b, r1, nl) == q0 * d + r0
    ensures Double(w, n1, Double(b, nh, nl)) == Double(b, q1, q0) * d + r0
  {
    assert n1 * w == (n1 * b) * b;
    assert (n1 * b + nh) * b == n1 * w + nh * b;
    assert (q1 * d + r1) * b == (q1 * b) * d + r1 * b;
    assert (q1 * b + q0) * d == (q1 * b) * d + q0 * d;
  }

  /** Multiply, add, divide: the quotient and remainder come back for every word q. */
  method MultiplyAddDivide(h: nat, q: nat, d: nat, r: nat) returns (q': nat, r': nat)
    requires h >= 1 && q < WordBase(h) && r < d < WordBase(h)
    requires 2 * d >= WordBase(h)
    ensures q' == q && r' == r
  {
    var w := WordBase(h);
    var p1, p0 := UmulPpmm(h, q, d);
    var n1, n0 := AddSsaaaa(w, p1, p0, 0, r);
    DividendFits(w, q, d, r, n1, n0);
    q', r' := UdivQrnndC(h, n1, n0, d);
    DoubleUnique(d, q', r', q, r);
  }

  lemma DividendFits(w: nat, q: nat, d: nat, r: nat, n1: nat, n0: nat)
    requires q < w && r < d < w && n0 < w && Double(w, n1, n0) == (q * d + r) % (w * w)
    ensures Double(w, n1, n0) == q * d + r && n1 < d
  {
    MulLe(d, q, w - 1);
    assert q * d + r < d * w;
    MulLe(w, d, w);
    ModUnique(q * d + r, w * w, 0, q * d + r);
    HighBelow(w, n1, n0, d);
  }

  lemma HighBelow(w: nat, hi: nat, lo: nat, d: nat)
    requires Double(w, hi, lo) < d * w
    ensures hi < d
  {
    if hi >= d {
      MulLe(w, d, hi);
    }
  }

}
