/** The .pulp.export section: the size pass, the writer, and the reader. */
module ExportSection {
  import opened Bits
  import opened Buffers
  import opened Fields
  import opened HashTables

  // ---------------------------------------------------------------- layout

  // For each name a byte for its section, the string and its terminator.
  function Strings(names: seq<Name>): seq<nat>
  {
    if |names| == 0 then [] else [0] + names[0] + [0] + Strings(names[1..])
  }

  function ValueWords(values: seq<nat>): (r: seq<nat>)
    ensures |r| == 4 * |values|
  {
    if |values| == 0 then [] else LittleEndian(values[0]) + ValueWords(values[1..])
  }

  function ValuesAt(names: seq<Name>): (at: nat)
    ensures at % 4 == 0 && at >= 4 + |Strings(names)|
  {
    Align4(4 + |Strings(names)|)
  }

  function Size(names: seq<Name>): nat
  {
    if |names| == 0 then 0 else ValuesAt(names) + 4 * |names|
  }

  // (ComponentMode & 1) | ((Entry << 1) & 0xFFFE) | ((BaseLinkedVal >> 2) << 16)
  function Header(mode: nat, n: nat, valuesAt: nat): nat
  {
    Or(Or(And(mode, 1), And(2 * n % WORD32, 0xFFFE)), valuesAt / 4 * 0x1_0000 % WORD32)
  }

  // What the writer fills in; the padding before the values is not written.
  predicate Holds(b: seq<nat>, mode: nat, names: seq<Name>, values: seq<nat>)
  {
    && |b| == Size(names) && 0 < |names| == |values|
    && b[..4] == LittleEndian(Header(mode, |names|, ValuesAt(names)))
    && b[4..4 + |Strings(names)|] == Strings(names)
    && b[ValuesAt(names)..] == ValueWords(values)
  }

  lemma HeaderIs(mode: nat, n: nat, valuesAt: nat)
    ensures Header(mode, n, valuesAt) == (valuesAt / 4 % 0x1_0000) * 0x1_0000 + 2 * (n % 0x8000) + mode % 2
  {
    hide And, Or, Pow2;
    FieldWidths();
    LowHalf(mode, n);
    ShiftMod(valuesAt / 4, 0x1_0000, 0x1_0000);
    Join(valuesAt / 4 % 0x1_0000, 2 * (n % 0x8000) + mode % 2, 16, 0x1_0000);
  }

  lemma LowHalf(mode: nat, n: nat)
    ensures Or(And(mode, 1), And(2 * n % WORD32, 0xFFFE)) == 2 * (n % 0x8000) + mode % 2
  {
    hide *;
    Pow2One();
    LowCount(n);
    AndMask(mode, 1);
    Join(n % 0x8000, mode % 2, 1, 2);
  }

  lemma LowCount(n: nat)
    ensures And(2 * n % WORD32, 0xFFFE) == 2 * (n % 0x8000)
  {
    hide *;
    FieldWidths();
    DoubleMod(n);
    AndTwice(n % 0x8000_0000, 0x7FFF);
    AndMask(n % 0x8000_0000, 15);
  }

  lemma DoubleMod(n: nat)
    ensures 2 * n % WORD32 == 2 * (n % 0x8000_0000) && n % 0x8000_0000 % 0x8000 == n % 0x8000
  {
    var q, k := n / 0x8000_0000, n % 0x8000_0000;
    ModUnique(2 * n, WORD32, q, 2 * k);
    ModUnique(n, 0x8000, q * 0x1_0000 + k / 0x8000, k % 0x8000);
  }

  lemma Pow2One()
    ensures Pow2(1) == 2
  {
  }

  function HeaderMode(w: nat): nat { And(w, 1) }

  function HeaderCount(w: nat): nat { Shr(And(w, 0xFFFF), 1) }

  function HeaderValues(w: nat): nat { Shr(w, 16) }

  lemma FieldsAre(w: nat)
    ensures HeaderMode(w) == w % 2 && HeaderCount(w) == w % 0x1_0000 / 2 && HeaderValues(w) == w / 0x1_0000
  {
    hide And, Shr, Pow2;
    FieldWidths();
    Pow2One();
    AndMask(w, 1);
    Low16(w);
    ShrDivides(w % 0x1_0000, 1);
    ShrDivides(w, 16);
  }

  /** The header reads back the mode bit, the count modulo 2^15 and the word offset of the values
      modulo 2^16. */
  lemma HeaderReadsBack(mode: nat, n: nat, valuesAt: nat)
    ensures Header(mode, n, valuesAt) < WORD32
    ensures HeaderMode(Header(mode, n, valuesAt)) == mode % 2
    ensures HeaderCount(Header(mode, n, valuesAt)) == n % 0x8000
    ensures HeaderValues(Header(mode, n, valuesAt)) == valuesAt / 4 % 0x1_0000
  {
    hide Header, HeaderMode, HeaderCount, HeaderValues;
    HeaderIs(mode, n, valuesAt);
    FieldsAre(Header(mode, n, valuesAt));
    var hi, k, m := valuesAt / 4 % 0x1_0000, n % 0x8000, mode % 2;
    ModUnique(hi * 0x1_0000 + 2 * k + m, 0x1_0000, hi, 2 * k + m);
  }

  // ---------------------------------------------------------------- the reader

  datatype Exported = Exported(section: nat, name: Name)

  datatype Listing = Listing(mode: nat, names: seq<Exported>, values: seq<nat>)

  function ReadNames(b: seq<nat>, at: nat, n: nat): Option<seq<Exported>>
    decreases n
  {
    if n == 0 then Some([])
    else if at >= |b| then None
    else match CString(b, at + 1)
         case None => None
         case Some(name) =>
           match ReadNames(b, at + |name| + 2, n - 1)
           case None => None
           case Some(rest) => Some([Exported(b[at], name)] + rest)
  }

  function ReadValues(b: seq<nat>, at: nat, n: nat): Option<seq<nat>>
    decreases n
  {
    if n == 0 then Some([])
    else if at + 4 > |b| then None
    else match ReadValues(b, at + 4, n - 1)
         case None => None
         case Some(rest) => Some([Word(b, at)] + rest)
  }

  // What the disassembler lists; None for a section cut short.
  function ReadExports(b: seq<nat>): Option<Listing>
  {
    if |b| < 4 then None
    else
      var w := Word(b, 0);
      var names, values := ReadNames(b, 4, HeaderCount(w)), ReadValues(b, 4 * HeaderValues(w), HeaderCount(w));
      if names.None? || values.None? then None else Some(Listing(HeaderMode(w), names.value, values.value))
  }

  function Unsectioned(names: seq<Name>): (r: seq<Exported>)
    ensures |r| == |names|
  {
    if |names| == 0 then [] else [Exported(0, names[0])] + Unsectioned(names[1..])
  }

  lemma {:induction false} NamesRead(b: seq<nat>, at: nat, names: seq<Name>)
    requires forall i :: 0 <= i < |names| ==> CText(names[i])
    requires at + |Strings(names)| <= |b| && b[at..at + |Strings(names)|] == Strings(names)
    ensures ReadNames(b, at, |names|) == Some(Unsectioned(names))
    decreases |names|
  {
    hide *;
    if |names| == 0 {
      NoStrings();
      NothingRead(b, at);
    } else {
      NameSlices(b, at, names);
      CStringReads(b, at + 1, names[0]);
      NamesRead(b, at + |names[0]| + 2, names[1..]);
      ReadOne(b, at, names);
    }
  }

  lemma NothingRead(b: seq<nat>, at: nat)
    ensures ReadNames(b, at, 0) == Some([])
  {
  }

  lemma NameSlices(b: seq<nat>, at: nat, names: seq<Name>)
    requires |names| > 0
    requires at + |Strings(names)| <= |b| && b[at..at + |Strings(names)|] == Strings(names)
    ensures var name, next := names[0], at + |names[0]| + 2;
            && next <= |b|
            && next + |Strings(names[1..])| <= |b| && b[next..next + |Strings(names[1..])|] == Strings(names[1..])
            && b[at] == 0 && b[at + 1..at + 1 + |name|] == name && b[at + 1 + |name|] == 0
  {
    hide *;
    var name, rest := names[0], Strings(names[1..]);
    var n := |name| + 2 + |rest|;
    StringParts(names);
    SliceOfSlice(b, at, at + n, 0, 1);
    SliceOfSlice(b, at, at + n, 1, 1 + |name|);
    SliceOfSlice(b, at, at + n, 1 + |name|, 2 + |name|);
    SliceOfSlice(b, at, at + n, |name| + 2, n);
  }

  lemma StringParts(names: seq<Name>)
    requires |names| > 0
    ensures var name, s, rest := names[0], Strings(names), Strings(names[1..]);
            && |s| == |name| + 2 + |rest| && s[0] == 0 && s[1..1 + |name|] == name && s[1 + |name|] == 0
            && s[|name| + 2..|s|] == rest
  {
    StringsFirst(names);
    Parts([0] + names[0] + [0], Strings(names[1..]), |names[0]|);
  }

  lemma StringsFirst(names: seq<Name>)
    requires |names| > 0
    ensures Strings(names) == ([0] + names[0] + [0]) + Strings(names[1..])
  {
  }

  lemma Parts(head: seq<nat>, rest: seq<nat>, n: nat)
    requires |head| == n + 2
    ensures var s := head + rest;
            s[0] == head[0] && s[1..1 + n] == head[1..1 + n] && s[1 + n] == head[1 + n] && s[n + 2..|s|] == rest
  {
  }

  lemma ReadOne(b: seq<nat>, at: nat, names: seq<Name>)
    requires |names| > 0 && at < |b| && b[at] == 0 && CString(b, at + 1) == Some(names[0])
    requires ReadNames(b, at + |names[0]| + 2, |names[1..]|) == Some(Unsectioned(names[1..]))
    ensures ReadNames(b, at, |names|) == Some(Unsectioned(names))
  {
    hide CString;
  }

  lemma {:induction false} ValuesRead(b: seq<nat>, at: nat, values: seq<nat>)
    requires at + 4 * |values| <= |b| && b[at..at + 4 * |values|] == ValueWords(values)
    requires forall i :: 0 <= i < |values| ==> values[i] < WORD32
    ensures ReadValues(b, at, |values|) == Some(values)
    decreases |values|
  {
    hide Word, LittleEndian;
    if |values| == 0 {
    } else {
      var words := ValueWords(values);
      LittleEndianLength(values[0]);
      LittleEndianReads(values[0]);
      WordMoves(b, at, words, LittleEndian(values[0]));
      assert b[at + 4..at + 4 * |values|] == words[4..] == ValueWords(values[1..]);
      ValuesRead(b, at + 4, values[1..]);
      assert [values[0]] + values[1..] == values;
    }
  }

  /** Reading what the writer filled in gives the mode bit and every exported name with its own
      value, provided the count and the offset of the values fit their fields. */
  lemma ExportsReadBack(b: seq<nat>, mode: nat, names: seq<Name>, values: seq<nat>)
    requires Holds(b, mode, names, values)
    requires |names| < 0x8000 && ValuesAt(names) / 4 < 0x1_0000
    requires forall i :: 0 <= i < |names| ==> CText(names[i])
    requires forall i :: 0 <= i < |values| ==> values[i] < WORD32
    ensures ReadExports(b) == Some(Listing(mode % 2, Unsectioned(names), values))
  {
    hide *;
    HeaderReadsBack(mode, |names|, ValuesAt(names));
    HeaderHeld(b, mode, names, values);
    NamesHeld(b, mode, names, values);
    ValuesHeld(b, mode, names, values);
    ReadMeans(b);
  }

  lemma HeaderHeld(b: seq<nat>, mode: nat, names: seq<Name>, values: seq<nat>)
    requires Holds(b, mode, names, values)
    ensures |b| >= 4 && Word(b, 0) == Header(mode, |names|, ValuesAt(names))
    ensures ValuesAt(names) % 4 == 0 && |names| == |values|
  {
    hide Strings, ValueWords, Header, LittleEndian, Align4, Word;
    var w := Header(mode, |names|, ValuesAt(names));
    HeaderReadsBack(mode, |names|, ValuesAt(names));
    LittleEndianLength(w);
    LittleEndianReads(w);
    assert b[0..4] == b[..4] && LittleEndian(w)[..4] == LittleEndian(w);
    WordMoves(b, 0, LittleEndian(w), LittleEndian(w));
  }

  lemma NamesHeld(b: seq<nat>, mode: nat, names: seq<Name>, values: seq<nat>)
    requires Holds(b, mode, names, values) && forall i :: 0 <= i < |names| ==> CText(names[i])
    ensures ReadNames(b, 4, |names|) == Some(Unsectioned(names))
  {
    hide Strings, ValueWords, Header, LittleEndian, Align4, ReadNames, Unsectioned, CText;
    NamesRead(b, 4, names);
  }

  lemma ValuesHeld(b: seq<nat>, mode: nat, names: seq<Name>, values: seq<nat>)
    requires Holds(b, mode, names, values) && forall i :: 0 <= i < |values| ==> values[i] < WORD32
    ensures ReadValues(b, ValuesAt(names), |names|) == Some(values)
  {
    hide Strings, ValueWords, Header, LittleEndian, Align4, ReadValues;
    var at := ValuesAt(names);
    assert b[at..at + 4 * |values|] == b[at..];
    ValuesRead(b, at, values);
  }

  lemma ReadMeans(b: seq<nat>)
    requires |b| >= 4
    ensures ReadExports(b) ==
            var w := Word(b, 0);
            var names, values := ReadNames(b, 4, HeaderCount(w)), ReadValues(b, 4 * HeaderValues(w), HeaderCount(w));
            if names.None? || values.None? then None else Some(Listing(HeaderMode(w), names.value, values.value))
  {
    hide Word, ReadNames, ReadValues, HeaderCount, HeaderValues, HeaderMode;
  }

  // ---------------------------------------------------------------- the size pass

  lemma StringsNext(names: seq<Name>, i: nat)
    requires i < |names|
    ensures Strings(names[i..]) == ([0] + names[i] + [0]) + Strings(names[i + 1..])
  {
    assert names[i..][1..] == names[i + 1..];
  }

  // The size as the C code computes it, wrapping at 2^32.
  function SizeWord(names: seq<Name>): nat
  {
    if |names| == 0 then 0 else Low32(Low32(Align4(Low32(4 + |Strings(names)|))) + 4 * |names|)
  }

  /** ExportSectionSize, on 32 bits; the size of an empty table is 0. */
  method ExportSectionSize(names: seq<Name>) returns (size: nat, count: nat)
    ensures count == |names|
    ensures size == SizeWord(names)
    ensures size == Size(names) <==> Size(names) < WORD32
  {
    hide Low32, Strings;
    size, count := 4, 0;
    ghost var total: nat := 4;
    FourFits();
    assert names[0..] == names && names[|names|..] == [];
    var i := 0;
    while i < |names|
      invariant 0 <= i <= |names| && count == i
      invariant total + |Strings(names[i..])| == 4 + |Strings(names)| && size == Low32(total)
    {
      StringsNext(names, i);
      AddOn(total, |names[i]| + 2);
      count := count + 1;
      size := Low32(size + (|names[i]| + 1 + 1));
      total := total + |names[i]| + 2;
      i := i + 1;
    }
    NoStrings();
    size := AlignUp(size);
    size := Low32(size + 4 * count);
    if count == 0 {
      size := 0;
    }
  }

  lemma NoStrings()
    ensures Strings([]) == [] && Unsectioned([]) == []
  {
  }

  // ---------------------------------------------------------------- the writer

  predicate Resolved(names: seq<Name>, resolved: map<Name, nat>)
  {
    forall i :: 0 <= i < |names| ==> names[i] in resolved
  }

  // The linked values of the names, truncated to the words they are stored in.
  function Values(names: seq<Name>, resolved: map<Name, nat>): (r: seq<nat>)
    requires Resolved(names, resolved)
    ensures |r| == |names| && forall i :: 0 <= i < |r| ==> r[i] == Low32(resolved[names[i]])
  {
    seq(|names|, i requires 0 <= i < |names| => Low32(resolved[names[i]]))
  }

  lemma {:induction false} WordsSnoc(values: seq<nat>, v: nat)
    ensures ValueWords(values + [v]) == ValueWords(values) + LittleEndian(v)
  {
    hide LittleEndian;
    if |values| == 0 {
      assert values + [v] == [v] && [v][1..] == [];
    } else {
      assert (values + [v])[1..] == values[1..] + [v];
      WordsSnoc(values[1..], v);
    }
  }

  // int Len = (int) strlen(Name): negative from 2^31 bytes on, and then nothing is copied.
  function Copied(name: Name): Name
  {
    if Signed32(|name|) <= 0 then [] else name[..Signed32(|name|)]
  }

  // Len + 2 on int, what Base moves by.  For the two lengths below 2^31 where the sum overflows,
  // which C leaves undefined, it wraps.
  function Step(name: Name): int { Signed32(|name| + 2) }

  // The bytes stored for one name from Base on.
  function Piece(name: Name): seq<nat> { [0] + Copied(name) + [0] }

  // Every store of the first loop is inside a section of `size` bytes.
  predicate StringsInside(names: seq<Name>, at: int, size: nat)
  {
    |names| == 0
    || (0 <= at <= size - |Piece(names[0])| && StringsInside(names[1..], at + Step(names[0]), size))
  }

  // Where Base ends up.
  function StringsEnd(names: seq<Name>, at: int): int
  {
    if |names| == 0 then at else StringsEnd(names[1..], at + Step(names[0]))
  }

  // The section after the first loop.
  function StringsStored(b: seq<nat>, names: seq<Name>, at: int): (r: seq<nat>)
    requires StringsInside(names, at, |b|)
    ensures |r| == |b|
    decreases |names|
  {
    if |names| == 0 then b
    else StringsStored(Splice(b, at, Piece(names[0])), names[1..], at + Step(names[0]))
  }

  lemma StoredNext(b: seq<nat>, names: seq<Name>, i: nat, at: int)
    requires i < |names|
    ensures StringsEnd(names[i..], at) == StringsEnd(names[i + 1..], at + Step(names[i]))
    ensures StringsInside(names[i..], at, |b|)
       <==> 0 <= at <= |b| - |Piece(names[i])| && StringsInside(names[i + 1..], at + Step(names[i]), |b|)
    ensures StringsInside(names[i..], at, |b|) ==>
              StringsStored(b, names[i..], at)
              == StringsStored(Splice(b, at, Piece(names[i])), names[i + 1..], at + Step(names[i]))
  {
    hide Piece, Step;
    assert names[i..][0] == names[i] && names[i..][1..] == names[i + 1..];
  }

  lemma StoredLast(b: seq<nat>, at: int)
    ensures StringsInside([], at, |b|) && StringsStored(b, [], at) == b && StringsEnd([], at) == at
  {
  }

  // Section byte, string and terminator of one name.
  method StorePiece(section: array<nat>, at: int, name: Name) returns (inside: bool)
    modifies section
    ensures inside == (0 <= at <= section.Length - |Piece(name)|)
    ensures inside ==> section[..] == Splice(old(section[..]), at, Piece(name))
  {
    hide Copied, Splice;
    ghost var b0 := section[..];
    inside := Store(section, at, 0);
    if inside {
      inside := StoreString(section, at + 1, Copied(name));
      if inside {
        SpliceMore(b0, at, [0], Copied(name) + [0]);
        assert [0] + (Copied(name) + [0]) == Piece(name);
      }
    }
  }

  /** The first loop: section byte, string and terminator of each name, and its value put aside;
      up to the first name without a symbol or the first store that misses the section. */
  method WriteStrings(section: array<nat>, names: seq<Name>, resolved: map<Name, nat>)
    returns (outcome: Outcome, entries: seq<nat>, base: int, addr: nat)
    modifies section
    ensures outcome == Unknown ==> !Resolved(names, resolved)
    ensures outcome == Overrun ==> !StringsInside(names, 4, section.Length)
    ensures outcome == Written ==>
              && Resolved(names, resolved) && entries == Values(names, resolved)
              && StringsInside(names, 4, section.Length) && section[..] == StringsStored(old(section[..]), names, 4)
              && base == StringsEnd(names, 4) && addr == base % WORD32
  {
    hide Splice, Low32, Piece, Step, StringsInside, StringsStored, StringsEnd;
    ghost var b0 := section[..];
    outcome, entries, base, addr := Written, [], 4, 4;
    var i := 0;
    assert names[0..] == names;
    while i < |names|
      invariant 0 <= i <= |names| && |entries| == i && addr == base % WORD32
      invariant forall k :: 0 <= k < i ==> names[k] in resolved && entries[k] == Low32(resolved[names[k]])
      invariant StringsInside(names, 4, |b0|) <==> StringsInside(names[i..], base, |b0|)
      invariant StringsInside(names[i..], base, |b0|) ==>
                  StringsStored(section[..], names[i..], base) == StringsStored(b0, names, 4)
      invariant StringsEnd(names[i..], base) == StringsEnd(names, 4)
    {
      if names[i] !in resolved {
        return Unknown, entries, base, addr;
      }
      StoredNext(section[..], names, i, base);
      entries := entries + [Low32(resolved[names[i]])];
      var inside := StorePiece(section, base, names[i]);
      if !inside {
        return Overrun, entries, base, addr;
      }
      AddStep(base, Step(names[i]));
      base, addr, i := base + Step(names[i]), (addr + Step(names[i])) % WORD32, i + 1;
    }
    assert names[i..] == [];
    StoredLast(section[..], base);
  }

  lemma AddStep(x: int, y: int)
    ensures (x % WORD32 + y) % WORD32 == (x + y) % WORD32
  {
    var q := x / WORD32;
    ModUnique(x % WORD32 + y, WORD32, (x + y) / WORD32 - q, (x + y) % WORD32);
  }

  /** The second loop: the values, a word each, up to the first store that misses the section. */
  method WriteValues(section: array<nat>, at: int, entries: seq<nat>) returns (inside: bool)
    modifies section
    ensures inside <==> |entries| == 0 || 0 <= at <= section.Length - 4 * |entries|
    ensures inside && |entries| > 0 ==> section[..] == Splice(old(section[..]), at, ValueWords(entries))
    ensures inside && |entries| == 0 ==> section[..] == old(section[..])
  {
    hide *;
    ghost var b0 := section[..];
    var entry := 0;
    if 0 <= at <= |b0| {
      SpliceNothing(b0, at);
    }
    NoWords();
    assert entries[..0] == [];
    while entry < |entries|
      invariant 0 <= entry <= |entries| && |ValueWords(entries[..entry])| == 4 * entry
      invariant entry == 0 ==> section[..] == b0
      invariant entry > 0 ==> 0 <= at <= section.Length - 4 * entry
      invariant 0 <= at <= section.Length - 4 * entry ==> section[..] == Splice(b0, at, ValueWords(entries[..entry]))
    {
      inside := StoreWord(section, at + 4 * entry, entries[entry]);
      if !inside {
        return false;
      }
      SpliceMore(b0, at, ValueWords(entries[..entry]), LittleEndian(entries[entry]));
      WordsSnoc(entries[..entry], entries[entry]);
      assert entries[..entry] + [entries[entry]] == entries[..entry + 1];
      entry := entry + 1;
    }
    assert entries[..entry] == entries;
    inside := true;
  }

  lemma NoWords()
    ensures ValueWords([]) == []
  {
  }

  // Base rounded up: the section itself starts at a multiple of four.
  function ValuesFrom(at: int): int { at + (-at) % 4 }

  // Every store of the writer is inside a section of the computed size.
  predicate InBounds(names: seq<Name>)
  {
    var size, at := SizeWord(names), ValuesFrom(StringsEnd(names, 4));
    StringsInside(names, 4, size) && (|names| == 0 || 0 <= at <= size - 4 * |names|)
  }

  predicate AllShort(names: seq<Name>)
  {
    forall i :: 0 <= i < |names| ==> |names[i]| < 0x7FFF_FFFE
  }

  // The tables the code can handle.
  predicate Fits(names: seq<Name>)
  {
    Size(names) < WORD32 && AllShort(names)
  }

  /** PulpExportCreateSection: when all names have symbols, it writes the section exactly when its
      stores are in bounds; and what it wrote holds every name with its value exactly when the
      table fits.  A table whose size wraps to 0 gets no section at all. */
  method PulpExportCreateSection(names: seq<Name>, resolved: map<Name, nat>, componentMode: nat)
    returns (outcome: Outcome, section: array?<nat>, size: nat)
    ensures size == SizeWord(names) && (section == null <==> size == 0)
    ensures section != null ==> section.Length == size
    ensures size == 0 ==> outcome == Written
    ensures outcome == Unknown ==> !Resolved(names, resolved)
    ensures outcome == Overrun ==> !InBounds(names)
    ensures outcome == Written && section != null ==> Resolved(names, resolved) && InBounds(names)
    ensures outcome == Written && section != null ==>
              (Holds(section[..], componentMode, names, Values(names, resolved)) <==> Fits(names))
  {
    hide Strings, Splice, Low32, Header, StringsInside, StringsStored, StringsEnd, AllShort, SizeWord, Size, Holds;
    var count;
    size, count := ExportSectionSize(names);
    if size == 0 {
      return Written, null, size;
    }
    SizeWordIs(names);
    var buffer := new nat[size];
    section := buffer;
    ghost var b0 := buffer[..];
    var entries, base, addr;
    outcome, entries, base, addr := WriteStrings(buffer, names, resolved);
    if outcome != Written {
      return;
    }
    var inside := WriteValues(buffer, ValuesFrom(base), entries);
    if !inside {
      return Overrun, section, size;
    }
    inside := StoreWord(buffer, 0, Header(componentMode, |entries|, Low32(Align4(addr))));
    FitsHolds(b0, buffer[..], names, entries, componentMode);
  }

  lemma SizeWordIs(names: seq<Name>)
    ensures SizeWord(names) % 4 == 0 && SizeWord(names) < WORD32 && (|names| == 0 ==> SizeWord(names) == 0)
    ensures SizeWord(names) == Size(names) <==> Size(names) < WORD32
  {
    hide Strings, Low32, Align4;
    if |names| > 0 {
      WordOfSize(4 + |Strings(names)|, |names|);
    }
  }

  // The size pass, in 32-bit arithmetic, over strings that end at x and n values.
  lemma WordOfSize(x: nat, n: nat)
    ensures var w := Low32(Low32(Align4(Low32(x))) + 4 * n);
      && w % 4 == 0 && w < WORD32 && w == Low32(Align4(x) + 4 * n)
      && (w == Align4(x) + 4 * n <==> Align4(x) + 4 * n < WORD32)
  {
    hide Low32, Align4;
    AlignLow(x);
    AddOn(Align4(x), 4 * n);
    LowMultiple(Align4(x) + 4 * n);
  }

  lemma ValuesFromIs(at: nat)
    ensures ValuesFrom(at) == Align4(at)
    ensures Align4(at) < WORD32 ==> Low32(Align4((at as int) % WORD32)) == Align4(at)
  {
    var q, r := at / 4, at % 4;
    var neg: int := -(at as int);
    ModUnique(neg, 4, if r == 0 then -q else -q - 1, if r == 0 then 0 else 4 - r);
    if Align4(at) < WORD32 {
      ModUnique(at, WORD32, 0, at);
    }
  }

  // In a table of short names the writer's positions are the true ones.
  lemma {:induction false} ShortStrings(b: seq<nat>, names: seq<Name>, at: nat)
    requires AllShort(names)
    ensures StringsEnd(names, at) == at + |Strings(names)|
    ensures StringsInside(names, at, |b|) <==> |names| == 0 || at + |Strings(names)| <= |b|
    ensures at + |Strings(names)| <= |b| ==>
              StringsInside(names, at, |b|) && StringsStored(b, names, at) == Splice(b, at, Strings(names))
    decreases |names|
  {
    hide Splice;
    if |names| == 0 {
      if at <= |b| {
        SpliceNothing(b, at);
      }
    } else {
      var n := |names[0]|;
      assert Copied(names[0]) == names[0] && Step(names[0]) == n + 2;
      var piece, rest := Piece(names[0]), Strings(names[1..]);
      assert Strings(names) == piece + rest;
      if at + |piece| <= |b| {
        ShortStrings(Splice(b, at, piece), names[1..], at + n + 2);
        if at + |Strings(names)| <= |b| {
          SpliceMore(b, at, piece, rest);
        }
      }
      ShortStrings(b, names[1..], at + n + 2);
    }
  }

  // A long name throws Base in front of the section.
  lemma {:induction false} LongStrings(names: seq<Name>, at: nat, size: nat)
    requires !AllShort(names) && at + |Strings(names)| + 8 <= WORD32
    ensures StringsInside(names, at, size) ==> StringsEnd(names, at) <= -8
    decreases |names|
  {
    assert |Strings(names)| == |names[0]| + 2 + |Strings(names[1..])|;
    if |names[0]| < 0x7FFF_FFFE {
      if AllShort(names[1..]) {
        ShortTail(names);
      }
      LongStrings(names[1..], at + |names[0]| + 2, size);
    } else {
      assert at + Step(names[0]) <= -8;
      assert |names| > 1 ==> !StringsInside(names[1..], at + Step(names[0]), size);
    }
  }

  lemma ShortTail(names: seq<Name>)
    requires |names| > 0 && |names[0]| < 0x7FFF_FFFE && AllShort(names[1..])
    ensures AllShort(names)
  {
    assert forall i :: 0 < i < |names| ==> names[i] == names[1..][i - 1];
  }

  /** In a table of short names, a store misses the section exactly when the table needs 2^32
      bytes or more. */
  lemma ShortTables(names: seq<Name>)
    requires AllShort(names) && |names| > 0
    ensures InBounds(names) <==> Size(names) < WORD32
  {
    hide Strings, StringsInside, StringsEnd, SizeWord, AllShort;
    SizeWordIs(names);
    ValuesFromIs(4 + |Strings(names)|);
    ShortStrings(Zeros(SizeWord(names)), names, 4);
    ZerosLength(SizeWord(names));
  }

  /** In a table below 2^32 bytes, a store misses the section exactly when a name is too long for
      the int arithmetic on its length. */
  lemma SmallTables(names: seq<Name>)
    requires Size(names) < WORD32 && |names| > 0
    ensures InBounds(names) <==> AllShort(names)
  {
    hide Strings, StringsInside, StringsEnd, SizeWord, AllShort;
    SizeWordIs(names);
    if AllShort(names) {
      ShortTables(names);
    } else {
      LongStrings(names, 4, SizeWord(names));
    }
  }

  lemma FitsHolds(b0: seq<nat>, b: seq<nat>, names: seq<Name>, values: seq<nat>, mode: nat)
    requires |b0| == |b| == SizeWord(names) > 0 && InBounds(names) && |values| == |names|
    requires var at := ValuesFrom(StringsEnd(names, 4));
      var w := LittleEndian(Header(mode, |names|, Low32(Align4(StringsEnd(names, 4) % WORD32))));
      0 <= at <= |b0| - |ValueWords(values)| && |w| == 4 <= |b0|
      && b == Splice(Splice(StringsStored(b0, names, 4), at, ValueWords(values)), 0, w)
    ensures Holds(b, mode, names, values) <==> Fits(names)
  {
    hide Strings, StringsInside, StringsEnd, StringsStored, SizeWord, AllShort, Header, LittleEndian, Splice;
    hide ValueWords, Low32, Align4, Holds, ValuesFrom;
    SizeWordIs(names);
    if Size(names) < WORD32 {
      SmallTables(names);
      ShortStrings(b0, names, 4);
      ValuesFromIs(4 + |Strings(names)|);
      Filled(b0, names, values, mode);
    } else {
      WrongSize(b, mode, names, values);
    }
  }

  lemma WrongSize(b: seq<nat>, mode: nat, names: seq<Name>, values: seq<nat>)
    requires |b| != Size(names)
    ensures !Holds(b, mode, names, values)
  {
  }

  lemma Filled(b0: seq<nat>, names: seq<Name>, values: seq<nat>, mode: nat)
    requires |b0| == Size(names) && 0 < |names| == |values|
    ensures |LittleEndian(Header(mode, |names|, ValuesAt(names)))| == 4
    ensures var b1 := Splice(b0, 4, Strings(names));
            var b2 := Splice(b1, ValuesAt(names), ValueWords(values));
            Holds(Splice(b2, 0, LittleEndian(Header(mode, |names|, ValuesAt(names)))), mode, names, values)
  {
    hide Strings, ValueWords, LittleEndian, Header, Splice;
    var w := LittleEndian(Header(mode, |names|, ValuesAt(names)));
    LittleEndianLength(Header(mode, |names|, ValuesAt(names)));
    var n, at, s, v := |b0|, ValuesAt(names), Strings(names), ValueWords(values);
    var b1 := Splice(b0, 4, s);
    var b2 := Splice(b1, at, v);
    var b3 := Splice(b2, 0, w);
    SpliceReads(b0, 4, s);
    SpliceReads(b1, at, v);
    SpliceReads(b2, 0, w);
    SpliceElsewhere(b1, at, v, 4, 4 + |s|);
    SpliceElsewhere(b2, 0, w, 4, 4 + |s|);
    SpliceElsewhere(b2, 0, w, at, n);
    assert b3[at..] == b3[at..n] && b3[..4] == b3[0..4];
  }

  // ---------------------------------------------------------------- tables the code gets wrong

  lemma OneName(name: Name)
    ensures |Strings([name])| == |name| + 2
    ensures StringsEnd([name], 4) == 4 + Step(name)
    ensures forall size: nat :: StringsInside([name], 4, size) <==> 4 + |Copied(name)| + 2 <= size
  {
    assert [name][1..] == [];
  }

  /** A name of 2^31 bytes: its length is negative as an int, so nothing of it is copied and its
      value goes in front of the section. */
  lemma LongNameStrays(name: Name)
    requires |name| == 0x8000_0000
    ensures Size([name]) < WORD32 && Copied(name) == [] && StringsEnd([name], 4) == 6 - 0x8000_0000
    ensures !InBounds([name])
  {
    OneName(name);
  }

  /** Two names below 2^31 bytes whose table needs 2^32 + 4 bytes: the section gets 4. */
  lemma WrapsTooSmall(a: Name, b: Name)
    requires |a| == |b| == 0x7FFF_FFFA
    ensures AllShort([a, b]) && Size([a, b]) == WORD32 + 4 && SizeWord([a, b]) == 4 && !InBounds([a, b])
  {
    TwoNames(a, b);
  }

  /** Four bytes less, and the size wraps to 0: the export table is not empty, but there is no
      section and no failure. */
  lemma WrapsToNothing(a: Name, b: Name)
    requires |a| == |b| == 0x7FFF_FFF8
    ensures AllShort([a, b]) && Size([a, b]) == WORD32 && SizeWord([a, b]) == 0
  {
    TwoNames(a, b);
  }

  lemma TwoNames(a: Name, b: Name)
    ensures |Strings([a, b])| == |a| + |b| + 4
    ensures |Piece(a)| > 0
  {
    assert [a, b][1..] == [b];
    assert Strings([a, b]) == [0] + a + [0] + Strings([b]);
    OneName(b);
  }

  /** Both faults can hide each other: a name of 2^32 - 2 bytes leaves no store out of bounds, and
      a section of 8 bytes without the name. */
  lemma LostName(name: Name)
    requires |name| == 0xFFFF_FFFE
    ensures SizeWord([name]) == 8 && InBounds([name]) && Copied(name) == [] && !Fits([name])
  {
    OneName(name);
  }

  /** The section that exports one function "f" at address v, byte for byte: mode and count, the
      offset of the values in words, the name behind its section byte, padding, the value. */
  lemma SmallSection(b: seq<nat>, v: nat)
    requires Holds(b, 1, [[0x66]], [v])
    ensures |b| == 12 && b[..7] == [3, 0, 2, 0, 0, 0x66, 0] && b[8..] == LittleEndian(v)
  {
    hide Header;
    var names: seq<Name> := [[0x66]];
    assert names[1..] == [];
    assert Strings(names) == [0] + [0x66] + [0] + [];
    assert [v][1..] == [] && ValueWords([v]) == LittleEndian(v) + [];
    HeaderIs(1, 1, 8);
    assert LittleEndian(0x2_0003) == [3, 0, 2, 0];
    assert b[..7] == b[..4] + b[4..7];
  }
}
