/** Byte and word buffers: little-endian words, C strings, zero padding, and stores. */
module Buffers {
  import opened Bits

  datatype Option<T> = None | Some(value: T)

  // The value an unsigned int keeps.
  function Low32(x: nat): (r: nat)
    ensures r < WORD32
    ensures x < WORD32 ==> r == x
  {
    x % WORD32
  }

  // (int) x
  function Signed32(x: nat): (r: int)
    ensures -0x8000_0000 <= r < 0x8000_0000 && r <= x && (x < 0x8000_0000 ==> r == x)
    ensures 0x8000_0000 <= x < WORD32 + 0x8000_0000 ==> r == x - WORD32
  {
    if x % WORD32 < 0x8000_0000 then x % WORD32 else x % WORD32 - WORD32
  }

  lemma FourFits()
    ensures Low32(4) == 4
  {
  }

  lemma AddOn(x: nat, y: nat)
    ensures Low32(Low32(x) + y) == Low32(x + y)
  {
    var q := x / WORD32;
    ModUnique(x % WORD32 + y, WORD32, (x + y) / WORD32 - q, (x + y) % WORD32);
  }

  // ---------------------------------------------------------------- words

  // int.from_bytes(b, 'little')
  function FromLittle(b: seq<nat>): nat
  {
    if |b| == 0 then 0 else b[0] + 256 * FromLittle(b[1..])
  }

  function LittleEndian(w: nat): seq<nat>
  {
    [w % 256, w / 256 % 256, w / 65536 % 256, w / 16777216 % 256]
  }

  function Word(b: seq<nat>, at: nat): nat
    requires at + 4 <= |b|
  {
    b[at] + 256 * b[at + 1] + 65536 * b[at + 2] + 16777216 * b[at + 3]
  }

  lemma LittleEndianLength(w: nat)
    ensures |LittleEndian(w)| == 4
  {
  }

  lemma LittleEndianReads(w: nat)
    requires w < WORD32
    ensures Word(LittleEndian(w), 0) == w
  {
    hide *;
    Digits(w);
    LittleEndianDigits(w);
  }

  lemma Digits(w: nat)
    requires w < WORD32
    ensures w == w % 256 + 256 * (w / 256 % 256) + 65536 * (w / 65536 % 256) + 16777216 * (w / 16777216 % 256)
  {
    var a := w / 256;
    var b := a / 256;
    assert w / 65536 == b;
    assert w / 16777216 == b / 256;
  }

  lemma LittleEndianDigits(w: nat)
    ensures |LittleEndian(w)| == 4
    ensures Word(LittleEndian(w), 0)
         == w % 256 + 256 * (w / 256 % 256) + 65536 * (w / 65536 % 256) + 16777216 * (w / 16777216 % 256)
  {
    var a, b, c, d := w % 256, w / 256 % 256, w / 65536 % 256, w / 16777216 % 256;
    assert LittleEndian(w) == [a, b, c, d];
  }

  lemma WordMoves(b: seq<nat>, at: nat, index: seq<nat>, w: seq<nat>)
    requires |w| == 4 <= |index| && at + |index| <= |b| && b[at..at + |index|] == index && index[..4] == w
    ensures Word(b, at) == Word(w, 0)
  {
    forall j | 0 <= j < 4 ensures b[at + j] == w[j] {
      assert b[at + j] == b[at..at + |index|][j] == index[..4][j];
    }
  }

  // ---------------------------------------------------------------- strings and padding

  // The C string at an offset; None when it runs past the section.
  function CString(b: seq<nat>, at: nat): Option<seq<nat>>
    decreases |b| - at
  {
    if at >= |b| then None
    else if b[at] == 0 then Some([])
    else match CString(b, at + 1) case None => None case Some(s) => Some([b[at]] + s)
  }

  predicate CText(s: seq<nat>)
  {
    forall i :: 0 <= i < |s| ==> 0 < s[i] < 256
  }

  lemma {:induction false} CStringReads(b: seq<nat>, at: nat, s: seq<nat>)
    requires CText(s) && at + |s| < |b| && b[at..at + |s|] == s && b[at + |s|] == 0
    ensures CString(b, at) == Some(s)
    decreases |s|
  {
    if |s| == 0 {
    } else {
      assert s[0] == b[at];
      assert b[at + 1..at + |s|] == s[1..] && [s[0]] + s[1..] == s;
      assert b[at + 1 + |s[1..]|] == 0;
      CStringReads(b, at + 1, s[1..]);
    }
  }

  // How a section writer ended: the section is there, a name or type was not known, or a store
  // missed the buffer.  C does not check its stores and leaves what follows undefined; the model
  // stops there.
  datatype Outcome = Written | Unknown | Overrun

  function Align4(n: nat): (r: nat)
    ensures r % 4 == 0 && n <= r < n + 4
  {
    if n % 4 != 0 then (n / 4 + 1) * 4 else n
  }

  lemma Align4Parts(a: nat, b: nat)
    requires b < 4
    ensures Align4(4 * a + b) == 4 * (if b == 0 then a else a + 1)
  {
  }

  // Rounding up commutes with the wrap at 2^32.
  lemma AlignLow(x: nat)
    ensures Low32(Align4(Low32(x))) == Low32(Align4(x)) <= Align4(x)
    ensures Low32(Align4(x)) % 4 == 0 && (Low32(Align4(x)) == Align4(x) <==> Align4(x) < WORD32)
  {
    hide Align4, Low32;
    var q, r := x / WORD32, x % WORD32;
    var a, b := r / 4, r % 4;
    Align4Parts(a, b);
    Align4Parts(0x4000_0000 * q + a, b);
    LowParts(q, r);
    LowParts(q, Align4(r));
    LowMultiple(Align4(x));
  }

  lemma LowParts(q: nat, r: nat)
    ensures Low32(WORD32 * q + r) == Low32(r)
  {
    ModUnique(WORD32 * q + r, WORD32, q + r / WORD32, r % WORD32);
  }

  lemma LowMultiple(x: nat)
    requires x % 4 == 0
    ensures Low32(x) % 4 == 0 && Low32(x) <= x && (Low32(x) == x <==> x < WORD32)
  {
    var q := x / WORD32;
    assert x == WORD32 * q + x % WORD32;
  }

  function Zeros(n: nat): seq<nat> { seq(n, i => 0) }

  lemma ZerosLength(n: nat)
    ensures |Zeros(n)| == n
  {
  }

  // if (NameSize%4) NameSize = ((NameSize>>2)+1)<<2
  method AlignUp(size: nat) returns (r: nat)
    requires size < WORD32
    ensures r == Low32(Align4(size))
  {
    r := size;
    if size % 4 != 0 {
      r := Low32((size / 4 + 1) * 4);
    }
  }

  lemma SliceOfSlice(b: seq<nat>, lo: nat, hi: nat, x: nat, y: nat)
    requires lo <= hi <= |b| && x <= y <= hi - lo
    ensures b[lo..hi][x..y] == b[lo + x..lo + y]
    ensures x < hi - lo ==> b[lo..hi][x] == b[lo + x]
  {
    var s := b[lo..hi];
    assert forall i :: 0 <= i < hi - lo ==> s[i] == b[lo + i];
  }

  // ---------------------------------------------------------------- stores

  // b with the elements from `at` on replaced by s.
  function Splice<T>(b: seq<T>, at: nat, s: seq<T>): (r: seq<T>)
    requires at + |s| <= |b|
    ensures |r| == |b|
  {
    b[..at] + s + b[at + |s|..]
  }

  lemma SpliceMore<T>(b: seq<T>, at: nat, s: seq<T>, t: seq<T>)
    requires at + |s| + |t| <= |b|
    ensures Splice(Splice(b, at, s), at + |s|, t) == Splice(b, at, s + t)
  {
  }

  lemma SpliceNothing<T>(b: seq<T>, at: nat)
    requires at <= |b|
    ensures Splice(b, at, []) == b
  {
  }

  lemma SpliceReads(b: seq<nat>, at: nat, s: seq<nat>)
    requires at + |s| <= |b|
    ensures Splice(b, at, s)[at..at + |s|] == s
  {
  }

  lemma SpliceElsewhere(b: seq<nat>, at: nat, s: seq<nat>, lo: nat, hi: nat)
    requires at + |s| <= |b| && lo <= hi <= |b| && (hi <= at || at + |s| <= lo)
    ensures Splice(b, at, s)[lo..hi] == b[lo..hi]
  {
  }

  // Replacing the middle of three parts.
  lemma SpliceMiddle(x: seq<nat>, y: seq<nat>, z: seq<nat>, s: seq<nat>)
    requires |s| == |y|
    ensures Splice(x + y + z, |x|, s) == x + s + z
  {
    assert (x + y + z)[..|x|] == x && (x + y + z)[|x| + |s|..] == z;
  }

  method Put(b: array<nat>, at: nat, v: nat)
    requires at < b.Length
    modifies b
    ensures b[..] == Splice(old(b[..]), at, [v])
  {
    b[at] := v;
  }

  // A store through a pointer that may have left the buffer.
  method Store(b: array<nat>, at: int, v: nat) returns (inside: bool)
    modifies b
    ensures inside == (0 <= at < b.Length)
    ensures b[..] == if inside then Splice(old(b[..]), at, [v]) else old(b[..])
  {
    inside := 0 <= at < b.Length;
    if inside {
      Put(b, at, v);
    }
  }

  // A word store through an unsigned int pointer.
  method StoreWord(b: array<nat>, at: int, w: nat) returns (inside: bool)
    modifies b
    ensures inside == (0 <= at <= b.Length - 4) && |LittleEndian(w)| == 4
    ensures b[..] == if inside then Splice(old(b[..]), at, LittleEndian(w)) else old(b[..])
  {
    LittleEndianLength(w);
    inside := 0 <= at <= b.Length - 4;
    if inside {
      b[at], b[at + 1], b[at + 2], b[at + 3] := w % 256, w / 256 % 256, w / 65536 % 256, w / 16777216 % 256;
    }
  }

  // The text and its terminator, a byte at a time, up to the first store that misses the buffer.
  method StoreString(b: array<nat>, at: int, text: seq<nat>) returns (inside: bool)
    modifies b
    ensures inside == (0 <= at < b.Length - |text|)
    ensures inside ==> b[..] == Splice(old(b[..]), at, text + [0])
  {
    hide *;
    ghost var b0 := b[..];
    var j := 0;
    if 0 <= at <= |b0| {
      SpliceNothing(b0, at);
    }
    assert text[..0] == [];
    while j < |text|
      invariant 0 <= j <= |text|
      invariant j > 0 ==> 0 <= at && at + j <= b.Length
      invariant 0 <= at && at + j <= b.Length ==> b[..] == Splice(b0, at, text[..j])
    {
      inside := Store(b, at + j, text[j]);
      if !inside {
        return false;
      }
      SpliceMore(b0, at, text[..j], [text[j]]);
      assert text[..j] + [text[j]] == text[..j + 1];
      j := j + 1;
    }
    assert text[..j] == text;
    inside := Store(b, at + j, 0);
    if inside && 0 <= at {
      SpliceMore(b0, at, text, [0]);
    }
  }
}
