/** The word memory built for preloading through JTAG: byte segments packed into 4-byte words
    kept in a dictionary. */
module Preload {
  import opened Bits
  import opened Buffers

  const WIDTH: nat := 4

  // Byte k of a word, the lowest first.
  function Byte(w: nat, k: nat): nat
    decreases k
  {
    if k == 0 then w % 256 else Byte(w / 256, k - 1)
  }

  // ---------------------------------------------------------------- bytes of bitwise results

  // The low k bits.
  function Low(a: nat, k: nat): nat
    decreases k, a
  {
    if k == 0 then 0 else a % 2 + 2 * Low(a / 2, k - 1)
  }

  lemma {:induction false} LowIsMod(a: nat, k: nat)
    ensures Low(a, k) == a % Pow2(k)
    decreases k, a
  {
    if k == 0 {
    } else {
      LowIsMod(a / 2, k - 1);
      ModHalves(a, Pow2(k - 1));
    }
  }

  lemma {:induction false} OrShifts(a: nat, b: nat, k: nat)
    ensures Shr(Or(a, b), k) == Or(Shr(a, k), Shr(b, k))
    ensures Low(Or(a, b), k) == Or(Low(a, k), Low(b, k))
    decreases k, a
  {
    hide *;
    ShiftStep(a, k);
    ShiftStep(b, k);
    ShiftStep(Or(a, b), k);
    if k == 0 {
      NothingSet();
    } else {
      OrShifts(a / 2, b / 2, k - 1);
      OrHalves(a, b);
      OrJoin(a % 2, Low(a / 2, k - 1), b % 2, Low(b / 2, k - 1));
      assert Or(a, b) / 2 == Or(a / 2, b / 2);
    }
  }

  lemma {:induction false} AndNotShifts(a: nat, m: nat, k: nat)
    ensures Shr(AndNot(a, m), k) == AndNot(Shr(a, k), Shr(m, k))
    ensures Low(AndNot(a, m), k) == AndNot(Low(a, k), Low(m, k))
    decreases k, a
  {
    hide *;
    ShiftStep(a, k);
    ShiftStep(m, k);
    ShiftStep(AndNot(a, m), k);
    if k == 0 {
      NothingSet();
    } else {
      AndNotShifts(a / 2, m / 2, k - 1);
      AndNotHalves(a, m);
      AndNotJoin(a % 2, Low(a / 2, k - 1), m % 2, Low(m / 2, k - 1));
      assert AndNot(a, m) / 2 == AndNot(a / 2, m / 2);
    }
  }

  lemma ShiftStep(a: nat, k: nat)
    ensures Shr(a, k) == if k == 0 then a else Shr(a / 2, k - 1)
    ensures Low(a, k) == if k == 0 then 0 else a % 2 + 2 * Low(a / 2, k - 1)
  {
  }

  lemma ByteShift(a: nat)
    ensures Shr(a, 8) == a / 256 && Low(a, 8) == a % 256
  {
    hide Shr, Low, Pow2;
    Pow2Small();
    ShrDivides(a, 8);
    LowIsMod(a, 8);
  }

  lemma NothingSet()
    ensures Or(0, 0) == 0 && AndNot(0, 0) == 0
  {
  }

  lemma OrHalves(a: nat, b: nat)
    ensures Or(a, b) == 2 * Or(a / 2, b / 2) + if a % 2 == 1 || b % 2 == 1 then 1 else 0
  {
  }

  lemma OrJoin(x: nat, a: nat, y: nat, b: nat)
    requires x < 2 && y < 2
    ensures Or(x + 2 * a, y + 2 * b) == 2 * Or(a, b) + if x == 1 || y == 1 then 1 else 0
  {
    OrHalves(x + 2 * a, y + 2 * b);
    assert (x + 2 * a) / 2 == a && (y + 2 * b) / 2 == b;
  }

  lemma AndNotJoin(x: nat, a: nat, y: nat, m: nat)
    requires x < 2 && y < 2
    ensures AndNot(x + 2 * a, y + 2 * m) == 2 * AndNot(a, m) + if x == 1 && y == 0 then 1 else 0
  {
    AndNotHalves(x + 2 * a, y + 2 * m);
    assert (x + 2 * a) / 2 == a && (y + 2 * m) / 2 == m;
  }

  lemma {:induction false} ByteOr(a: nat, b: nat, k: nat)
    ensures Byte(Or(a, b), k) == Or(Byte(a, k), Byte(b, k))
    decreases k
  {
    hide Or, Shr, Low;
    OrShifts(a, b, 8);
    ByteShift(a);
    ByteShift(b);
    ByteShift(Or(a, b));
    if k == 0 {
    } else {
      ByteOr(a / 256, b / 256, k - 1);
    }
  }

  lemma {:induction false} ByteAndNot(a: nat, m: nat, k: nat)
    ensures Byte(AndNot(a, m), k) == AndNot(Byte(a, k), Byte(m, k))
    decreases k
  {
    hide AndNot, Shr, Low;
    AndNotShifts(a, m, 8);
    ByteShift(a);
    ByteShift(m);
    ByteShift(AndNot(a, m));
    if k == 0 {
    } else {
      ByteAndNot(a / 256, m / 256, k - 1);
    }
  }

  // x << (8 * s)
  function ShiftBytes(x: nat, s: nat): nat
    decreases s
  {
    if s == 0 then x else 256 * ShiftBytes(x, s - 1)
  }

  lemma {:induction false} ShiftIsPow2(x: nat, s: nat)
    ensures ShiftBytes(x, s) == x * Pow2(8 * s)
    decreases s
  {
    hide Pow2;
    Pow2Step(0);
    if s == 0 {
    } else {
      ShiftIsPow2(x, s - 1);
      Pow2Add(8, 8 * (s - 1));
      Pow2Small();
      var p := Pow2(8 * (s - 1));
      assert x * (256 * p) == 256 * (x * p);
    }
  }

  lemma Times256(y: nat)
    ensures 256 * y % 256 == 0 && 256 * y / 256 == y
  {
  }

  lemma {:induction false} ByteShifted(x: nat, s: nat, k: nat)
    ensures Byte(ShiftBytes(x, s), k) == if k < s then 0 else Byte(x, k - s)
    decreases s
  {
    if s == 0 {
    } else if k == 0 {
      Times256(ShiftBytes(x, s - 1));
    } else {
      Times256(ShiftBytes(x, s - 1));
      ByteShifted(x, s - 1, k - 1);
    }
  }

  predicate Bytes(data: seq<nat>)
  {
    forall i :: 0 <= i < |data| ==> data[i] < 256
  }

  lemma {:induction false} ByteFrom(data: seq<nat>, k: nat)
    requires Bytes(data)
    ensures Byte(FromLittle(data), k) == if k < |data| then data[k] else 0
    decreases k + |data|
  {
    if |data| == 0 {
      if k == 0 {
      } else {
        ByteFrom(data, k - 1);
      }
    } else if k > 0 {
      var rest := FromLittle(data[1..]);
      assert (data[0] + 256 * rest) / 256 == rest;
      ByteFrom(data[1..], k - 1);
    }
  }

  // ---------------------------------------------------------------- one word

  // Clear the low WIDTH bits above the shift, then set the bits of the data.
  function Stored(value: nat, shift: nat, data: seq<nat>): nat
  {
    Or(AndNot(value, ShiftBytes(Pow2(WIDTH) - 1, shift)), ShiftBytes(FromLittle(data), shift))
  }

  // What is left standing of a byte that held c when it is stored over: only the first byte stored
  // into a word loses its low four bits.
  function Left(c: nat, first: bool): nat
  {
    if first then c / 16 * 16 else c
  }

  // What storing byte d does to a byte that held c.
  function Mixed(c: nat, first: bool, d: nat): nat
  {
    Or(Left(c, first), d)
  }

  lemma Nibble(c: nat)
    ensures AndNot(c, 15) == c / 16 * 16
  {
    hide AndNot;
    AndNotHalves(c, 15);
    AndNotHalves(c / 2, 7);
    AndNotHalves(c / 4, 3);
    AndNotHalves(c / 8, 1);
    AndNotZero(c / 16);
  }

  lemma MaskByte(shift: nat, k: nat)
    ensures Byte(ShiftBytes(Pow2(WIDTH) - 1, shift), k) == if k == shift then 15 else 0
  {
    ByteShifted(15, shift, k);
    if k > shift {
      SmallByte(15, k - shift);
    }
  }

  lemma {:induction false} SmallByte(w: nat, k: nat)
    requires w < 256 && (k > 0 || w < 256)
    ensures Byte(w, k) == if k == 0 then w else 0
    decreases k
  {
    if k == 0 {
    } else {
      SmallByte(0, k - 1);
    }
  }

  /** The bytes of a stored word: those outside the data stay, those under it are mixed. */
  lemma StoredByte(value: nat, shift: nat, data: seq<nat>, k: nat)
    requires Bytes(data)
    ensures Byte(Stored(value, shift, data), k)
         == if shift <= k < shift + |data| then Mixed(Byte(value, k), k == shift, data[k - shift])
            else if k == shift then Byte(value, k) / 16 * 16 else Byte(value, k)
  {
    hide *;
    StoredIs(value, shift, data);
    var m, x := ShiftBytes(Pow2(WIDTH) - 1, shift), ShiftBytes(FromLittle(data), shift);
    ByteOr(AndNot(value, m), x, k);
    ByteAndNot(value, m, k);
    MaskByte(shift, k);
    ByteShifted(FromLittle(data), shift, k);
    AndNotZero(Byte(value, k));
    Nibble(Byte(value, k));
    OrZero(if k == shift then Byte(value, k) / 16 * 16 else Byte(value, k));
    if k >= shift {
      ByteFrom(data, k - shift);
      MixedIs(Byte(value, k), k == shift, if k - shift < |data| then data[k - shift] else 0);
    }
  }

  lemma StoredIs(value: nat, shift: nat, data: seq<nat>)
    ensures Stored(value, shift, data)
         == Or(AndNot(value, ShiftBytes(Pow2(WIDTH) - 1, shift)), ShiftBytes(FromLittle(data), shift))
  {
  }

  lemma MixedIs(c: nat, first: bool, d: nat)
    ensures Mixed(c, first, d) == Or(if first then c / 16 * 16 else c, d)
  {
  }

  lemma {:induction false} OrBelow(a: nat, b: nat, k: nat)
    requires a < Pow2(k) && b < Pow2(k)
    ensures Or(a, b) < Pow2(k)
    decreases k, a
  {
    if k == 0 {
    } else {
      OrHalves(a, b);
      OrBelow(a / 2, b / 2, k - 1);
    }
  }

  lemma {:induction false} FromBelow(data: seq<nat>, shift: nat)
    requires Bytes(data)
    ensures ShiftBytes(FromLittle(data), shift) < Pow2(8 * (shift + |data|))
    decreases shift, |data|
  {
    hide *;
    ShiftedFirst(data, shift);
    if shift > 0 {
      FromBelow(data, shift - 1);
      TimesByte(shift + |data| - 1);
    } else if |data| > 0 {
      BytesRest(data);
      FromBelow(data[1..], 0);
      ShiftedFirst(data[1..], 0);
      TimesByte(|data| - 1);
    } else {
      Pow2Step(0);
    }
  }

  lemma ShiftedFirst(data: seq<nat>, shift: nat)
    ensures shift > 0 ==> ShiftBytes(FromLittle(data), shift) == 256 * ShiftBytes(FromLittle(data), shift - 1)
    ensures shift == 0 ==> ShiftBytes(FromLittle(data), shift) == FromLittle(data)
    ensures FromLittle(data) == if |data| == 0 then 0 else data[0] + 256 * FromLittle(data[1..])
  {
  }

  lemma BytesRest(data: seq<nat>)
    requires Bytes(data) && |data| > 0
    ensures data[0] < 256 && Bytes(data[1..])
  {
  }

  lemma TimesByte(n: nat)
    ensures Pow2(8 * (n + 1)) == 256 * Pow2(8 * n)
  {
    hide Pow2;
    Pow2Add(8, 8 * n);
    Pow2Small();
  }

  lemma StoredBelow(value: nat, shift: nat, data: seq<nat>)
    requires value < WORD32 && shift + |data| <= WIDTH && Bytes(data)
    ensures Stored(value, shift, data) < WORD32
  {
    hide Or, AndNot, ShiftBytes, Pow2, FromLittle;
    Pow2Words();
    var m, x := ShiftBytes(Pow2(WIDTH) - 1, shift), ShiftBytes(FromLittle(data), shift);
    AndNotBelow(value, m);
    FromBelow(data, shift);
    Pow2Monotone(8 * (shift + |data|), 32);
    OrBelow(AndNot(value, m), x, 32);
  }

  // ---------------------------------------------------------------- the dictionary

  type Words = map<nat, nat>

  // Keys are word addresses, values fit a word.
  predicate WellFormed(words: Words)
  {
    forall a :: a in words ==> a % WIDTH == 0 && words[a] < WORD32
  }

  function Aligned(addr: nat): (r: nat)
    ensures r % WIDTH == 0 && r <= addr < r + WIDTH
  {
    addr - addr % WIDTH
  }

  function WordAt(words: Words, a: nat): nat
  {
    if a in words then words[a] else 0
  }

  // The byte the memory holds at an address, 0 where nothing was loaded.
  function At(words: Words, addr: nat): nat
  {
    Byte(WordAt(words, Aligned(addr)), addr % WIDTH)
  }

  function IterSize(base: nat, size: nat): (r: nat)
    ensures r <= size && (size > 0 ==> r > 0) && base % WIDTH + r <= WIDTH
    ensures r == size || (base + r) % WIDTH == 0
  {
    if WIDTH - base % WIDTH <= size then WIDTH - base % WIDTH else size
  }

  function AddWord(words: Words, base: nat, data: seq<nat>): Words
  {
    words[Aligned(base) := Stored(WordAt(words, Aligned(base)), base % WIDTH, data[..IterSize(base, |data|)])]
  }

  function AddBytes(words: Words, base: nat, data: seq<nat>): Words
    decreases |data|
  {
    if |data| == 0 then words
    else AddBytes(AddWord(words, base, data), base + IterSize(base, |data|), data[IterSize(base, |data|)..])
  }

  class Memory {
    var words: Words

    constructor ()
      ensures words == map[]
    {
      words := map[];
    }

    // The part of the data that falls into one word.
    method AddMemWord(base: nat, size: nat, data: seq<nat>) returns (iterSize: nat)
      requires |data| == size
      modifies this
      ensures iterSize == IterSize(base, size) && words == AddWord(old(words), base, data)
    {
      hide Or, AndNot, ShiftBytes, FromLittle, Pow2;
      var alignedBase := base - base % WIDTH;
      var shift := base - alignedBase;
      iterSize := WIDTH - shift;
      if size < iterSize {
        iterSize := size;
      }
      var value := 0;
      if alignedBase in words {
        value := words[alignedBase];
      }
      value := AndNot(value, (Pow2(WIDTH) - 1) * Pow2(8 * shift));
      value := Or(value, FromLittle(data[0..iterSize]) * Pow2(8 * shift));
      words := words[alignedBase := value];
      ShiftIsPow2(Pow2(WIDTH) - 1, shift);
      ShiftIsPow2(FromLittle(data[..iterSize]), shift);
      assert data[0..iterSize] == data[..iterSize];
    }

    /** Adds a segment, a word's worth at a time. */
    method AddMem(base: nat, size: nat, data: seq<nat>)
      requires |data| == size
      modifies this
      ensures words == AddBytes(old(words), base, data)
    {
      hide AddWord, IterSize;
      var size', base', data' := size, base, data;
      while size' > 0
        invariant |data'| == size'
        invariant AddBytes(words, base', data') == AddBytes(old(words), base, data)
        decreases size'
      {
        var iterSize := AddMemWord(base', size', data');
        size', base', data' := size' - iterSize, base' + iterSize, data'[iterSize..];
      }
    }
  }

  // ---------------------------------------------------------------- what a segment leaves behind

  predicate Within(addr: nat, base: nat, n: nat)
  {
    base <= addr < base + n
  }

  // What one more segment makes of the byte at an address.
  function After(c: nat, addr: nat, base: nat, data: seq<nat>): nat
  {
    if Within(addr, base, |data|) then Mixed(c, addr == base || addr % WIDTH == 0, data[addr - base]) else c
  }

  lemma WordStep(words: Words, base: nat, data: seq<nat>, addr: nat)
    requires Bytes(data) && |data| > 0 && WellFormed(words)
    ensures At(AddWord(words, base, data), addr) == After(At(words, addr), addr, base, data[..IterSize(base, |data|)])
    ensures WellFormed(AddWord(words, base, data))
  {
    hide Stored, Mixed, Byte;
    var part := data[..IterSize(base, |data|)];
    var value := WordAt(words, Aligned(base));
    StoredBelow(value, base % WIDTH, part);
    if Aligned(addr) == Aligned(base) {
      StoredByte(value, base % WIDTH, part, addr % WIDTH);
    }
  }

  /** Every byte after adding a segment, exactly: bytes outside it stay, bytes inside are mixed
      with what was there. */
  lemma {:induction false} SegmentBytes(words: Words, base: nat, data: seq<nat>, addr: nat)
    requires Bytes(data) && WellFormed(words)
    ensures At(AddBytes(words, base, data), addr) == After(At(words, addr), addr, base, data)
    ensures WellFormed(AddBytes(words, base, data))
    decreases |data|
  {
    hide At, AddWord, Mixed, IterSize;
    if |data| == 0 {
    } else {
      var n, next := IterSize(base, |data|), AddWord(words, base, data);
      IterBounds(base, |data|);
      WordStep(words, base, data, addr);
      SegmentBytes(next, base + n, data[n..], addr);
    }
  }

  lemma IterBounds(base: nat, size: nat)
    requires size > 0
    ensures 0 < IterSize(base, size) <= size
    ensures IterSize(base, size) == size || (base + IterSize(base, size)) % WIDTH == 0
    ensures forall k :: base < k < base + IterSize(base, size) ==> k % WIDTH != 0
  {
  }

  // The byte of a segment stored at base is the first one stored into its word.
  predicate First(addr: nat, base: nat)
  {
    addr == base || addr % WIDTH == 0
  }

  /** A byte of the segment reads back exactly when the bits left standing under it are among its
      own, whatever the memory held; in particular wherever the memory held 0. */
  lemma ReadsBackWhen(words: Words, base: nat, data: seq<nat>, addr: nat)
    requires Bytes(data) && WellFormed(words) && Within(addr, base, |data|)
    ensures At(AddBytes(words, base, data), addr) == data[addr - base]
            <==> AndNot(Left(At(words, addr), First(addr, base)), data[addr - base]) == 0
    ensures At(words, addr) == 0 ==> At(AddBytes(words, base, data), addr) == data[addr - base]
  {
    hide Or, AndNot, At, AddBytes, Bytes, WellFormed;
    SegmentBytes(words, base, data, addr);
    OrAbsorbs(Left(At(words, addr), First(addr, base)), data[addr - base]);
    OrSym(0, data[addr - base]);
    OrZero(data[addr - base]);
  }

  lemma {:induction false} SegmentKeys(words: Words, base: nat, data: seq<nat>, a: nat)
    ensures a in AddBytes(words, base, data)
       <==> a in words || (a % WIDTH == 0 && |data| > 0 && a < base + |data| && base < a + WIDTH)
    decreases |data|
  {
    hide *;
    KeysFirst(words, base, data);
    if |data| == 0 {
    } else {
      var n := IterSize(base, |data|);
      SegmentKeys(AddWord(words, base, data), base + n, data[n..], a);
      KeyStep(a, base, |data|);
    }
  }

  lemma KeysFirst(words: Words, base: nat, data: seq<nat>)
    ensures |data| == 0 ==> AddBytes(words, base, data) == words
    ensures |data| > 0 ==>
              && IterSize(base, |data|) <= |data| && IterSize(base, |data|) > 0
              && AddBytes(words, base, data)
                 == AddBytes(AddWord(words, base, data), base + IterSize(base, |data|), data[IterSize(base, |data|)..])
              && forall a :: a in AddWord(words, base, data) <==> a in words || a == Aligned(base)
    ensures WIDTH == 4
  {
    hide Stored, IterSize;
  }

  // The word at a is touched by the first part, or by the rest.
  lemma KeyStep(a: nat, base: nat, size: nat)
    requires size > 0
    ensures var n := IterSize(base, size);
            (a % 4 == 0 && a < base + size && base < a + 4)
            <==> a == Aligned(base) || (a % 4 == 0 && n < size && a < base + size && base + n < a + 4)
  {
    if a % 4 == 0 && base < a + 4 {
      assert a >= Aligned(base);
    }
  }

  // ---------------------------------------------------------------- whole programs

  datatype Segment = Segment(base: nat, data: seq<nat>)

  function Load(segments: seq<Segment>): Words
  {
    if |segments| == 0 then map[]
    else
      var last := segments[|segments| - 1];
      AddBytes(Load(segments[..|segments| - 1]), last.base, last.data)
  }

  predicate Covers(s: Segment, addr: nat)
  {
    Within(addr, s.base, |s.data|)
  }

  predicate Apart(s: Segment, t: Segment)
  {
    s.base + |s.data| <= t.base || t.base + |t.data| <= s.base
  }

  predicate Disjoint(segments: seq<Segment>)
  {
    forall i, j :: 0 <= i < j < |segments| ==> Apart(segments[i], segments[j])
  }

  predicate AllBytes(segments: seq<Segment>)
  {
    forall i :: 0 <= i < |segments| ==> Bytes(segments[i].data)
  }

  lemma EmptyMemory(addr: nat)
    ensures At(map[], addr) == 0 && WellFormed(map[])
  {
    SmallByte(0, addr % WIDTH);
  }

  lemma {:induction false} LoadOutside(segments: seq<Segment>, addr: nat)
    requires AllBytes(segments) && forall i :: 0 <= i < |segments| ==> !Covers(segments[i], addr)
    ensures At(Load(segments), addr) == 0 && WellFormed(Load(segments))
  {
    hide At, AddBytes, Bytes, WellFormed;
    if |segments| == 0 {
      EmptyMemory(addr);
    } else {
      var n := |segments| - 1;
      LoadOutside(segments[..n], addr);
      SegmentBytes(Load(segments[..n]), segments[n].base, segments[n].data, addr);
    }
  }

  lemma {:induction false} LoadWellFormed(segments: seq<Segment>)
    requires AllBytes(segments)
    ensures WellFormed(Load(segments))
  {
    hide At, AddBytes, Bytes, WellFormed;
    if |segments| == 0 {
      EmptyMemory(0);
    } else {
      var n := |segments| - 1;
      LoadWellFormed(segments[..n]);
      SegmentBytes(Load(segments[..n]), segments[n].base, segments[n].data, 0);
    }
  }

  /** The word memory agrees with flat byte memory: after loading disjoint segments, every byte of
      every segment reads back, whatever the bases and lengths. */
  lemma {:induction false} LoadReadsBack(segments: seq<Segment>, i: nat, addr: nat)
    requires Disjoint(segments) && AllBytes(segments) && i < |segments| && Covers(segments[i], addr)
    ensures At(Load(segments), addr) == segments[i].data[addr - segments[i].base]
    decreases |segments|
  {
    hide At, AddBytes, Bytes, WellFormed;
    var n := |segments| - 1;
    var before, last := segments[..n], segments[n];
    LoadWellFormed(before);
    if i == n {
      LoadOutside(before, addr);
      ReadsBackWhen(Load(before), last.base, last.data, addr);
    } else {
      LoadReadsBack(before, i, addr);
      SegmentBytes(Load(before), last.base, last.data, addr);
    }
  }

  // At an address both cover, storing t leaves no bits of s standing that are not in t already.
  predicate AbsorbsAt(t: Segment, s: Segment, addr: nat)
  {
    Covers(s, addr) && Covers(t, addr) ==>
      AndNot(Left(s.data[addr - s.base], First(addr, t.base)), t.data[addr - t.base]) == 0
  }

  ghost predicate Absorbs(t: Segment, s: Segment)
  {
    forall addr: nat :: AbsorbsAt(t, s, addr)
  }

  predicate ReadsBackAt(words: Words, s: Segment, addr: nat)
  {
    Covers(s, addr) ==> At(words, addr) == s.data[addr - s.base]
  }

  ghost predicate ReadsBack(words: Words, s: Segment)
  {
    forall addr: nat :: ReadsBackAt(words, s, addr)
  }

  /** When a later segment is loaded correctly although it may lie over earlier ones: if and only
      if it absorbs each of them, a test on the bytes of the segments alone. */
  lemma LaterReadsBack(segments: seq<Segment>, t: Segment)
    requires Disjoint(segments) && AllBytes(segments) && Bytes(t.data)
    ensures ReadsBack(Load(segments + [t]), t)
            <==> forall i :: 0 <= i < |segments| ==> Absorbs(t, segments[i])
  {
    hide AbsorbsAt, ReadsBackAt, Bytes, Load, Disjoint, AllBytes;
    if forall i :: 0 <= i < |segments| ==> Absorbs(t, segments[i]) {
      forall addr: nat ensures ReadsBackAt(Load(segments + [t]), t, addr) {
        LaterByte(segments, t, addr);
      }
    }
    if ReadsBack(Load(segments + [t]), t) {
      forall i, addr: nat | 0 <= i < |segments| ensures AbsorbsAt(t, segments[i], addr) {
        EarlierByte(segments, t, i, addr);
      }
    }
  }

  lemma LoadLast(segments: seq<Segment>, t: Segment)
    ensures Load(segments + [t]) == AddBytes(Load(segments), t.base, t.data)
  {
    assert (segments + [t])[..|segments|] == segments;
  }

  lemma LaterWhen(segments: seq<Segment>, t: Segment, addr: nat)
    requires AllBytes(segments) && Bytes(t.data) && Covers(t, addr)
    ensures At(Load(segments + [t]), addr) == t.data[addr - t.base]
            <==> AndNot(Left(At(Load(segments), addr), First(addr, t.base)), t.data[addr - t.base]) == 0
    ensures At(Load(segments), addr) == 0 ==> At(Load(segments + [t]), addr) == t.data[addr - t.base]
  {
    hide At, AddBytes, Bytes, WellFormed, Left, First, Load;
    LoadWellFormed(segments);
    LoadLast(segments, t);
    ReadsBackWhen(Load(segments), t.base, t.data, addr);
  }

  lemma LaterByte(segments: seq<Segment>, t: Segment, addr: nat)
    requires Disjoint(segments) && AllBytes(segments) && Bytes(t.data)
    requires forall i :: 0 <= i < |segments| ==> AbsorbsAt(t, segments[i], addr)
    ensures ReadsBackAt(Load(segments + [t]), t, addr)
  {
    hide At, Bytes, Left, First, Load, Disjoint, AllBytes, Covers;
    if Covers(t, addr) {
      LaterWhen(segments, t, addr);
      if i :| 0 <= i < |segments| && Covers(segments[i], addr) {
        LoadReadsBack(segments, i, addr);
        assert AbsorbsAt(t, segments[i], addr);
      } else {
        LoadOutside(segments, addr);
      }
    }
  }

  lemma EarlierByte(segments: seq<Segment>, t: Segment, i: nat, addr: nat)
    requires Disjoint(segments) && AllBytes(segments) && Bytes(t.data) && i < |segments|
    requires ReadsBackAt(Load(segments + [t]), t, addr)
    ensures AbsorbsAt(t, segments[i], addr)
  {
    hide At, Bytes, Left, First, Load, Disjoint, AllBytes;
    if Covers(segments[i], addr) && Covers(t, addr) {
      LoadReadsBack(segments, i, addr);
      LaterWhen(segments, t, addr);
    }
  }

  // The segment puts a byte into the word at a.
  predicate Touches(s: Segment, a: nat)
  {
    a % WIDTH == 0 && |s.data| > 0 && a < s.base + |s.data| && s.base < a + WIDTH
  }

  lemma {:induction false} LoadKeys(segments: seq<Segment>, a: nat)
    ensures a in Load(segments) <==> exists s :: s in segments && Touches(s, a)
  {
    hide AddBytes, Touches;
    if |segments| == 0 {
    } else {
      var n := |segments| - 1;
      LoadKeys(segments[..n], a);
      LastKey(Load(segments[..n]), segments[n], a);
      assert segments == segments[..n] + [segments[n]];
    }
  }

  lemma LastKey(words: Words, s: Segment, a: nat)
    ensures a in AddBytes(words, s.base, s.data) <==> a in words || Touches(s, a)
  {
    SegmentKeys(words, s.base, s.data, a);
  }

  lemma SameBytesSameWord(v: nat, w: nat)
    requires v < WORD32 && w < WORD32
    requires Byte(v, 0) == Byte(w, 0) && Byte(v, 1) == Byte(w, 1) && Byte(v, 2) == Byte(w, 2)
             && Byte(v, 3) == Byte(w, 3)
    ensures v == w
  {
    FourBytes(v);
    FourBytes(w);
  }

  lemma FourBytes(v: nat)
    requires v < WORD32
    ensures v == Byte(v, 0) + 256 * Byte(v, 1) + 65536 * Byte(v, 2) + 16777216 * Byte(v, 3)
  {
    var a := v / 256;
    var b := a / 256;
    assert Byte(v, 1) == a % 256;
    assert Byte(v, 2) == b % 256;
    assert Byte(v, 3) == b / 256 % 256;
  }

  /** The order of disjoint segments does not matter: the words are the same. */
  lemma LoadOrder(a: seq<Segment>, b: seq<Segment>)
    requires Disjoint(a) && AllBytes(a) && Disjoint(b) && AllBytes(b)
    requires forall s :: s in a <==> s in b
    ensures Load(a) == Load(b)
  {
    hide *;
    var x, y := Load(a), Load(b);
    forall k ensures k in x <==> k in y {
      LoadKeys(a, k);
      LoadKeys(b, k);
    }
    forall k | k in x ensures x[k] == y[k] {
      SameWord(a, b, k);
    }
    assert x.Keys == y.Keys;
  }

  lemma SameWord(a: seq<Segment>, b: seq<Segment>, k: nat)
    requires Disjoint(a) && AllBytes(a) && Disjoint(b) && AllBytes(b)
    requires forall s :: s in a <==> s in b
    requires k in Load(a) && k in Load(b)
    ensures Load(a)[k] == Load(b)[k]
  {
    hide Load, Disjoint, AllBytes, Byte;
    LoadWellFormed(a);
    LoadWellFormed(b);
    SameByte(a, b, k);
    SameByte(a, b, k + 1);
    SameByte(a, b, k + 2);
    SameByte(a, b, k + 3);
    SameBytesSameWord(Load(a)[k], Load(b)[k]);
  }

  lemma SameByte(a: seq<Segment>, b: seq<Segment>, addr: nat)
    requires Disjoint(a) && AllBytes(a) && Disjoint(b) && AllBytes(b)
    requires forall s :: s in a <==> s in b
    ensures At(Load(a), addr) == At(Load(b), addr)
  {
    hide Load, Disjoint, AllBytes, At, Covers;
    if i :| 0 <= i < |a| && Covers(a[i], addr) {
      assert a[i] in b;
      var j :| 0 <= j < |b| && b[j] == a[i];
      LoadReadsBack(a, i, addr);
      LoadReadsBack(b, j, addr);
    } else {
      forall j | 0 <= j < |b| ensures !Covers(b[j], addr) {
        assert b[j] in a;
        var i :| 0 <= i < |a| && a[i] == b[j];
      }
      LoadOutside(a, addr);
      LoadOutside(b, addr);
    }
  }

  /** Stored over other bytes, data need not read back: 0x01 over 0x10 gives 0x11, since only
      WIDTH bits are cleared. */
  lemma OverwriteKeepsBits()
    ensures At(AddBytes(AddBytes(map[], 0, [0x10]), 0, [0x01]), 0) == 0x11
  {
    hide At, AddBytes, Or;
    EmptyMemory(0);
    SegmentBytes(map[], 0, [0x10], 0);
    SegmentBytes(AddBytes(map[], 0, [0x10]), 0, [0x01], 0);
    MixedIs(0, true, 0x10);
    MixedIs(0x10, true, 0x01);
    OrSym(0, 0x10);
    OrZero(0x10);
    Pow2Small();
    OrDisjoint(1, 1, 4);
  }

  /** Four bytes loaded at a word address make one word, the first byte the lowest. */
  lemma FourBytesMakeAWord(base: nat, a: nat, b: nat, c: nat, d: nat)
    requires base % 4 == 0 && a < 256 && b < 256 && c < 256 && d < 256
    ensures AddBytes(map[], base, [a, b, c, d]) == map[base := a + 0x100 * b + 0x1_0000 * c + 0x100_0000 * d]
  {
    hide Or, AndNot, Pow2;
    var data := [a, b, c, d];
    assert data[1..] == [b, c, d] && data[1..][1..] == [c, d] && [c, d][1..] == [d] && [d][1..] == [];
    assert FromLittle([d]) == d && FromLittle([c, d]) == c + 256 * d;
    assert FromLittle([b, c, d]) == b + 256 * FromLittle([c, d]);
    assert FromLittle(data) == a + 0x100 * b + 0x1_0000 * c + 0x100_0000 * d;
    assert data[..4] == data && data[4..] == [];
    AndNotBelow(0, ShiftBytes(Pow2(WIDTH) - 1, 0));
    OrZero(FromLittle(data));
    OrSym(0, FromLittle(data));
    assert IterSize(base, 4) == 4 && Aligned(base) == base;
    assert Stored(0, 0, data) == FromLittle(data);
    assert AddWord(map[], base, data) == map[base := FromLittle(data)];
    assert AddBytes(AddWord(map[], base, data), base + 4, []) == AddWord(map[], base, data);
  }
}
