/** The .pulp.import.names and .pulp.import.relocs sections as values: what the writer puts in
    them, what the reader takes out, and how rebasing the relocations relates to reading. */
module ImportSections {
  import opened Bits
  import opened Buffers
  import opened Fields

  datatype RelType = JAL | HI20 | LO12_I | LO12_S | OTHER

  // PulpImportRef: r_info and r_offset, the latter a 64-bit address.
  datatype Ref = Ref(kind: RelType, offset: nat)

  // PulpImportEntry: names are the bytes of a C string without its terminator.
  datatype Import = Import(name: seq<nat>, refs: seq<Ref>)

  // One packed relocation: IMPORT_REL_* code and section offset.
  datatype Reloc = Reloc(code: int, offset: nat)

  const REL_JAL := 0
  const REL_HI20_LO12_I := 1
  const REL_HI20 := 2
  const REL_LO12_I := 3
  const REL_LO12_S := 4
  const REL_UNKNOWN := -1

  // ---------------------------------------------------------------- fusing

  // refs[0] is the HI20 of an adjacent HI20/LO12_I pair; the distance is taken on 64 bits.
  predicate Paired(refs: seq<Ref>)
  {
    |refs| > 1 && refs[0].kind == HI20 && refs[1].kind == LO12_I && (refs[1].offset - refs[0].offset) % WORD64 == 4
  }

  function Code(kind: RelType): int
  {
    match kind
    case JAL => REL_JAL
    case HI20 => REL_HI20
    case LO12_I => REL_LO12_I
    case LO12_S => REL_LO12_S
    case OTHER => REL_UNKNOWN
  }

  function Fuse(refs: seq<Ref>): seq<Reloc>
  {
    if |refs| == 0 then []
    else if Paired(refs) then [Reloc(REL_HI20_LO12_I, refs[0].offset)] + Fuse(refs[2..])
    else [Reloc(Code(refs[0].kind), refs[0].offset)] + Fuse(refs[1..])
  }

  function Kind(code: int): RelType
  {
    if code == REL_JAL then JAL
    else if code == REL_HI20 then HI20
    else if code == REL_LO12_I then LO12_I
    else if code == REL_LO12_S then LO12_S
    else OTHER
  }

  // The references a list of packed relocations stands for.
  function Expand(relocs: seq<Reloc>): seq<Ref>
  {
    if |relocs| == 0 then []
    else
      var r := relocs[0];
      (if r.code == REL_HI20_LO12_I then [Ref(HI20, r.offset), Ref(LO12_I, (r.offset + 4) % WORD64)]
       else [Ref(Kind(r.code), r.offset)]) + Expand(relocs[1..])
  }

  /** Fusing loses nothing: the pairs unfold to the references they came from. */
  lemma {:induction false} FuseExpands(refs: seq<Ref>)
    requires forall i :: 0 <= i < |refs| ==> refs[i].offset < WORD64
    ensures Expand(Fuse(refs)) == refs
  {
    hide Expand;
    if |refs| == 0 {
      ExpandNothing();
    } else if Paired(refs) {
      FuseExpands(refs[2..]);
      ExpandFirst(Reloc(REL_HI20_LO12_I, refs[0].offset), Fuse(refs[2..]));
      assert refs == [refs[0], refs[1]] + refs[2..];
      assert refs[1].offset == (refs[0].offset + 4) % WORD64;
    } else {
      FuseExpands(refs[1..]);
      ExpandFirst(Reloc(Code(refs[0].kind), refs[0].offset), Fuse(refs[1..]));
      assert refs == [refs[0]] + refs[1..];
    }
  }

  // An unpacked pair: relocation k is a HI20 whose LO12_I follows four bytes further on.
  predicate PairAt(relocs: seq<Reloc>, k: nat)
    requires k + 1 < |relocs|
  {
    relocs[k].code == 2 && relocs[k + 1].code == 3 && relocs[k + 1].offset == (relocs[k].offset + 4) % WORD64
  }

  predicate NoPairs(relocs: seq<Reloc>)
  {
    forall k: nat :: k + 1 < |relocs| ==> !PairAt(relocs, k)
  }

  /** Fusing misses no pair: no two neighbours of the packed list could still be packed. */
  lemma {:induction false} FuseLeavesNoPair(refs: seq<Ref>)
    requires forall i :: 0 <= i < |refs| ==> refs[i].offset < WORD64
    ensures NoPairs(Fuse(refs))
  {
    if |refs| == 0 {
    } else if Paired(refs) {
      FuseLeavesNoPair(refs[2..]);
      NoPairFirst(Reloc(REL_HI20_LO12_I, refs[0].offset), Fuse(refs[2..]));
    } else {
      FuseLeavesNoPair(refs[1..]);
      if |refs| > 1 {
        FuseStarts(refs[1..]);
      }
      NoPairFirst(Reloc(Code(refs[0].kind), refs[0].offset), Fuse(refs[1..]));
    }
  }

  lemma NoPairFirst(r: Reloc, rest: seq<Reloc>)
    requires NoPairs(rest)
    requires |rest| > 0 ==> !(r.code == 2 && rest[0].code == 3 && rest[0].offset == (r.offset + 4) % WORD64)
    ensures NoPairs([r] + rest)
  {
    var all := [r] + rest;
    forall k: nat | k + 1 < |all| ensures !PairAt(all, k) {
      if k > 0 {
        assert !PairAt(rest, k - 1);
      }
    }
  }

  lemma FuseStarts(refs: seq<Ref>)
    requires |refs| > 0
    ensures |Fuse(refs)| > 0 && Fuse(refs)[0].offset == refs[0].offset
    ensures Fuse(refs)[0].code == 3 ==> refs[0].kind == LO12_I
  {
  }

  lemma ExpandNothing()
    ensures Expand([]) == []
  {
  }

  lemma ExpandFirst(r: Reloc, rest: seq<Reloc>)
    ensures Expand([r] + rest)
         == (if r.code == REL_HI20_LO12_I then [Ref(HI20, r.offset), Ref(LO12_I, (r.offset + 4) % WORD64)]
             else [Ref(Kind(r.code), r.offset)]) + Expand(rest)
  {
    assert ([r] + rest)[1..] == rest;
  }

  // ---------------------------------------------------------------- one relocation word

  // (Rel << 28) | ((r_offset >> 1) & 0x0FFFFFFF) on 32 bits
  function RelocWord(r: Reloc): nat
  {
    Or(r.code * 0x1000_0000 % WORD32, And(r.offset / 2, 0x0FFF_FFFF))
  }

  function ReadReloc(w: nat): Reloc
  {
    Reloc(Shr(w, 28), And(w, 0x0FFF_FFFF) * 2 % WORD32)
  }

  // The word AdjustRelocsImport stores back.
  function AdjustWord(w: nat, base: nat): nat
  {
    var offset := (And(w, 0x0FFF_FFFF) * 2 + base) % WORD32 / 2;
    Or(Shr(w, 28) * 0x1000_0000 % WORD32, And(offset, 0x0FFF_FFFF))
  }

  lemma RelocWordIs(r: Reloc)
    requires 0 <= r.code < 16
    ensures RelocWord(r) == r.code * 0x1000_0000 + r.offset / 2 % 0x1000_0000
  {
    hide And, Or, Pow2;
    Low28(r.offset / 2);
    FieldWidths();
    Join(r.code, r.offset / 2 % 0x1000_0000, 28, 0x1000_0000);
  }

  lemma ReadRelocIs(w: nat)
    ensures ReadReloc(w) == Reloc(w / 0x1000_0000, w % 0x1000_0000 * 2)
  {
    hide And, Shr, Pow2;
    Low28(w);
    FieldWidths();
    ShrDivides(w, 28);
  }

  lemma AdjustWordIs(w: nat, base: nat)
    requires w < WORD32
    ensures AdjustWord(w, base) == w / 0x1000_0000 * 0x1000_0000
                                   + (w % 0x1000_0000 * 2 + base) % WORD32 / 2 % 0x1000_0000
    ensures AdjustWord(w, base) < WORD32
  {
    hide And, Or, Shr, Pow2;
    Low28(w);
    FieldWidths();
    ShrDivides(w, 28);
    var offset := (w % 0x1000_0000 * 2 + base) % WORD32 / 2;
    Low28(offset);
    Join(w / 0x1000_0000, offset % 0x1000_0000, 28, 0x1000_0000);
  }

  /** A packed relocation reads back exactly when its offset is even and below 2^29. */
  lemma RelocReadsBack(r: Reloc)
    requires 0 <= r.code < 16
    ensures ReadReloc(RelocWord(r)) == r <==> r.offset % 2 == 0 && r.offset < 0x2000_0000
    ensures RelocWord(r) < WORD32
  {
    hide RelocWord, ReadReloc;
    RelocWordIs(r);
    ReadRelocIs(RelocWord(r));
  }

  /** The format: the type is the top four bits of the word, and half the offset the rest. */
  lemma TypeBits(kind: RelType, offset: nat)
    requires kind != OTHER
    ensures RelocWord(Reloc(Code(kind), offset)) / 0x1000_0000
         == match kind case JAL => 0 case HI20 => 2 case LO12_I => 3 case LO12_S => 4
    ensures RelocWord(Reloc(Code(kind), offset)) % 0x1000_0000 == offset / 2 % 0x1000_0000
    ensures RelocWord(Reloc(REL_HI20_LO12_I, offset)) == 0x1000_0000 + offset / 2 % 0x1000_0000
  {
    hide RelocWord;
    RelocWordIs(Reloc(Code(kind), offset));
    RelocWordIs(Reloc(REL_HI20_LO12_I, offset));
  }

  /** Rebasing never changes the type, and adds the base to the offset read back exactly when
      the base is even and the sum stays below 2^29. */
  lemma AdjustMoves(w: nat, base: nat)
    requires w < WORD32 && base < WORD32
    ensures ReadReloc(AdjustWord(w, base)).code == ReadReloc(w).code
    ensures ReadReloc(AdjustWord(w, base)).offset == ReadReloc(w).offset + base
       <==> base % 2 == 0 && ReadReloc(w).offset + base < 0x2000_0000
  {
    hide AdjustWord, ReadReloc;
    AdjustWordIs(w, base);
    ReadRelocIs(w);
    ReadRelocIs(AdjustWord(w, base));
  }

  // ---------------------------------------------------------------- the relocs section

  // ((4 * k) & 0xFFFF) | ((count << 16) & 0xFFFF0000)
  function HeaderWord(k: nat, count: nat): nat
  {
    Or(And(4 * k % WORD32, 0xFFFF), And(count * 0x1_0000 % WORD32, 0xFFFF_0000))
  }

  function HeaderEntry(w: nat): nat { And(w, 0xFFFF) }

  function HeaderCount(w: nat): nat { And(Shr(w, 16), 0xFFFF) }

  lemma HeaderWordIs(k: nat, count: nat)
    ensures HeaderWord(k, count) == (count % 0x1_0000) * 0x1_0000 + 4 * k % 0x1_0000
  {
    hide And, Or, Pow2;
    Low16(4 * k % WORD32);
    High16(count);
    FieldWidths();
    Join(count % 0x1_0000, 4 * k % 0x1_0000, 16, 0x1_0000);
  }

  lemma HeaderIs(w: nat)
    ensures HeaderEntry(w) == w % 0x1_0000 && HeaderCount(w) == w / 0x1_0000 % 0x1_0000
  {
    hide And, Shr, Pow2;
    FieldWidths();
    ShrDivides(w, 16);
    Low16(w);
    Low16(w / 0x1_0000);
  }

  /** The header of a name reads back its index slot and count modulo 2^16. */
  lemma HeaderReadsBack(k: nat, count: nat)
    ensures HeaderEntry(HeaderWord(k, count)) == 4 * k % 0x1_0000
    ensures HeaderCount(HeaderWord(k, count)) == count % 0x1_0000
    ensures HeaderWord(k, count) < WORD32
  {
    hide HeaderWord, HeaderEntry, HeaderCount;
    HeaderWordIs(k, count);
    HeaderIs(HeaderWord(k, count));
  }

  // (n & 0xFFF) | ((size >> 2) << 12)
  function CountWord(n: nat, size: nat): nat
  {
    Or(And(n, 0xFFF), size / 4 * 0x1000 % WORD32)
  }

  function CountOf(w: nat): nat { And(w, 0xFFF) }

  /** The first word of either section reads back the number of imports, modulo 4096, and the
      size when its word count fits 20 bits. */
  lemma CountReadsBack(n: nat, size: nat)
    ensures CountOf(CountWord(n, size)) == n % 0x1000
    ensures CountWord(n, size) / 0x1000 * 4 == size <==> size % 4 == 0 && size < 0x40_0000
    ensures CountWord(n, size) < WORD32
  {
    hide And, Or, Pow2;
    var hi, lo := size / 4 % 0x10_0000, n % 0x1000;
    Low12(n);
    ShiftMod(size / 4, 0x1000, 0x10_0000);
    FieldWidths();
    Join(hi, lo, 12, 0x1000);
    Low12(CountWord(n, size));
  }

  function RelocWords(relocs: seq<Reloc>): (r: seq<nat>)
    ensures |r| == |relocs|
  {
    if |relocs| == 0 then [] else [RelocWord(relocs[0])] + RelocWords(relocs[1..])
  }

  // The words for the imports, the first of which has index slot k.
  function RelocTail(imports: seq<Import>, k: nat): seq<nat>
  {
    if |imports| == 0 then []
    else
      var relocs := Fuse(imports[0].refs);
      [HeaderWord(k, |relocs|)] + RelocWords(relocs) + RelocTail(imports[1..], k + 1)
  }

  function RelocSection(imports: seq<Import>): seq<nat>
  {
    var tail := RelocTail(imports, 1);
    [CountWord(|imports|, 4 * (1 + |tail|))] + tail
  }

  // ---------------------------------------------------------------- the names section

  function StringBytes(imports: seq<Import>): seq<nat>
  {
    if |imports| == 0 then [] else imports[0].name + [0] + StringBytes(imports[1..])
  }

  // One word per import: where its string starts, the first at head.
  function IndexBytes(imports: seq<Import>, head: nat): (r: seq<nat>)
    ensures |r| == 4 * |imports|
  {
    if |imports| == 0 then []
    else LittleEndian(head) + IndexBytes(imports[1..], head + |imports[0].name| + 1)
  }

  function NamesEnd(imports: seq<Import>): nat
  {
    4 * (1 + |imports|) + |StringBytes(imports)|
  }

  function NameSection(imports: seq<Import>): seq<nat>
  {
    var end := NamesEnd(imports);
    LittleEndian(CountWord(|imports|, Align4(end))) + IndexBytes(imports, 4 * (1 + |imports|))
    + StringBytes(imports) + Zeros(Align4(end) - end)
  }

  // ---------------------------------------------------------------- the reader

  datatype Listing = Listing(name: seq<nat>, relocs: seq<Reloc>)

  // ((char *) ImportNames) + ImportNames[entry >> 2]
  function NameAt(names: seq<nat>, entry: nat): Option<seq<nat>>
  {
    var at := entry / 4 * 4;
    if at + 4 > |names| then None else CString(names, Word(names, at))
  }

  function ReadRelocs(words: seq<nat>): (r: seq<Reloc>)
    ensures |r| == |words|
  {
    if |words| == 0 then [] else [ReadReloc(words[0])] + ReadRelocs(words[1..])
  }

  // What the disassembler lists: n imports from the front of the tail; None for a section cut short.
  function ListTail(names: seq<nat>, tail: seq<nat>, n: nat): Option<seq<Listing>>
    decreases n
  {
    if n == 0 then Some([])
    else if |tail| == 0 || 1 + HeaderCount(tail[0]) > |tail| then None
    else
      var count := HeaderCount(tail[0]);
      var name := NameAt(names, HeaderEntry(tail[0]));
      var rest := ListTail(names, tail[1 + count..], n - 1);
      if name.None? || rest.None? then None
      else Some([Listing(name.value, ReadRelocs(tail[1..1 + count]))] + rest.value)
  }

  function ListImports(names: seq<nat>, relocs: seq<nat>): Option<seq<Listing>>
  {
    if |relocs| == 0 then None else ListTail(names, relocs[1..], CountOf(relocs[0]))
  }

  // ---------------------------------------------------------------- round trip

  predicate Known(r: Ref)
  {
    r.kind != OTHER && r.offset % 2 == 0 && r.offset < 0x2000_0000
  }

  // Field sizes of the format: 12-bit import count, 16-bit relocation counts, 29-bit even offsets.
  predicate InRange(imports: seq<Import>)
  {
    && |imports| < 0x1000 && NamesEnd(imports) < WORD32
    && (forall i :: 0 <= i < |imports| ==> CText(imports[i].name) && Packs(imports[i].refs))
  }

  predicate Packs(refs: seq<Ref>)
  {
    |Fuse(refs)| < 0x1_0000 && forall j :: 0 <= j < |refs| ==> Known(refs[j])
  }

  function Listings(imports: seq<Import>): seq<Listing>
  {
    if |imports| == 0 then []
    else [Listing(imports[0].name, Fuse(imports[0].refs))] + Listings(imports[1..])
  }

  lemma {:induction false} FuseKnown(refs: seq<Ref>)
    requires forall j :: 0 <= j < |refs| ==> Known(refs[j])
    ensures ReadRelocs(RelocWords(Fuse(refs))) == Fuse(refs)
  {
    if |refs| == 0 {
    } else if Paired(refs) {
      FuseKnown(refs[2..]);
      ReadFirst(Reloc(REL_HI20_LO12_I, refs[0].offset), Fuse(refs[2..]));
    } else {
      FuseKnown(refs[1..]);
      ReadFirst(Reloc(Code(refs[0].kind), refs[0].offset), Fuse(refs[1..]));
    }
  }

  lemma ReadFirst(r: Reloc, rest: seq<Reloc>)
    requires 0 <= r.code < 16 && r.offset % 2 == 0 && r.offset < 0x2000_0000
    requires ReadRelocs(RelocWords(rest)) == rest
    ensures ReadRelocs(RelocWords([r] + rest)) == [r] + rest
  {
    hide RelocWord, ReadReloc;
    RelocReadsBack(r);
    var all := [r] + rest;
    assert all[1..] == rest;
    assert RelocWords(all)[1..] == RelocWords(rest);
  }

  // Every import's index slot leads to its name.
  predicate Named(names: seq<nat>, imports: seq<Import>, k: nat)
  {
    forall i :: 0 <= i < |imports| ==> NameAt(names, 4 * (k + i)) == Some(imports[i].name)
  }

  lemma {:induction false} TailReadsBack(names: seq<nat>, imports: seq<Import>, k: nat)
    requires Named(names, imports, k) && k + |imports| <= 0x1000
    requires forall i :: 0 <= i < |imports| ==> Packs(imports[i].refs)
    ensures ListTail(names, RelocTail(imports, k), |imports|) == Some(Listings(imports))
    decreases |imports|
  {
    hide *;
    TailFirst(imports, k);
    if |imports| == 0 {
      ListNothing(names, RelocTail(imports, k));
    } else {
      var relocs, rest := Fuse(imports[0].refs), imports[1..];
      NamedRest(names, imports, k);
      TailReadsBack(names, rest, k + 1);
      HeaderReadsBack(k, |relocs|);
      PacksReads(imports[0].refs);
      ListFirst(names, HeaderWord(k, |relocs|), RelocWords(relocs), RelocTail(rest, k + 1), |imports|);
    }
  }

  lemma TailFirst(imports: seq<Import>, k: nat)
    ensures |imports| > 0 ==>
              var relocs := Fuse(imports[0].refs);
              && RelocTail(imports, k) == [HeaderWord(k, |relocs|)] + RelocWords(relocs)
                + RelocTail(imports[1..], k + 1)
              && Listings(imports) == [Listing(imports[0].name, relocs)] + Listings(imports[1..])
    ensures |imports| == 0 ==> Listings(imports) == []
  {
  }

  lemma ListNothing(names: seq<nat>, tail: seq<nat>)
    ensures ListTail(names, tail, 0) == Some([])
  {
  }

  // Reading one import off the front of the tail.
  lemma ListFirst(names: seq<nat>, header: nat, words: seq<nat>, rest: seq<nat>, n: nat)
    requires n > 0 && HeaderCount(header) == |words|
    requires NameAt(names, HeaderEntry(header)).Some? && ListTail(names, rest, n - 1).Some?
    ensures ListTail(names, [header] + words + rest, n)
         == Some([Listing(NameAt(names, HeaderEntry(header)).value, ReadRelocs(words))]
                 + ListTail(names, rest, n - 1).value)
  {
    hide HeaderCount, HeaderEntry, NameAt, ReadRelocs;
    var tail := [header] + words + rest;
    assert tail[1..1 + |words|] == words && tail[1 + |words|..] == rest;
  }

  lemma PacksReads(refs: seq<Ref>)
    requires Packs(refs)
    ensures |Fuse(refs)| < 0x1_0000 && ReadRelocs(RelocWords(Fuse(refs))) == Fuse(refs)
  {
    FuseKnown(refs);
  }

  lemma NamedRest(names: seq<nat>, imports: seq<Import>, k: nat)
    requires |imports| > 0 && Named(names, imports, k)
    ensures Named(names, imports[1..], k + 1) && NameAt(names, 4 * (k + 0)) == Some(imports[0].name)
  {
    hide NameAt;
    forall i | 0 <= i < |imports[1..]| ensures NameAt(names, 4 * (k + 1 + i)) == Some(imports[1..][i].name) {
      assert NameAt(names, 4 * (k + (i + 1))) == Some(imports[i + 1].name);
    }
  }

  // Names whose index words start at `slot` and whose strings start at `head` are found.
  lemma {:induction false} NamesFound(b: seq<nat>, imports: seq<Import>, k: nat, head: nat)
    requires forall i :: 0 <= i < |imports| ==> CText(imports[i].name)
    requires 4 * k + 4 * |imports| <= |b| && head + |StringBytes(imports)| <= |b| <= WORD32
    requires b[4 * k..4 * k + 4 * |imports|] == IndexBytes(imports, head)
    requires b[head..head + |StringBytes(imports)|] == StringBytes(imports)
    ensures Named(b, imports, k)
    decreases |imports|
  {
    hide Word, LittleEndian, CString;
    if |imports| == 0 {
    } else {
      NameFound(b, imports, k, head);
      NamesRest(b, imports, k, head);
      var rest := imports[1..];
      NamesFound(b, rest, k + 1, head + |imports[0].name| + 1);
      forall i | 0 <= i < |imports| ensures NameAt(b, 4 * (k + i)) == Some(imports[i].name) {
        if i > 0 {
          assert NameAt(b, 4 * (k + 1 + (i - 1))) == Some(rest[i - 1].name);
        }
      }
    }
  }

  lemma NamesRest(b: seq<nat>, imports: seq<Import>, k: nat, head: nat)
    requires |imports| > 0
    requires 4 * k + 4 * |imports| <= |b| && head + |StringBytes(imports)| <= |b|
    requires b[4 * k..4 * k + 4 * |imports|] == IndexBytes(imports, head)
    requires b[head..head + |StringBytes(imports)|] == StringBytes(imports)
    ensures var rest, next := imports[1..], head + |imports[0].name| + 1;
            next + |StringBytes(rest)| <= |b|
            && b[4 * (k + 1)..4 * (k + 1) + 4 * |rest|] == IndexBytes(rest, next)
            && b[next..next + |StringBytes(rest)|] == StringBytes(rest)
  {
    hide LittleEndian;
    var rest, n := imports[1..], |imports[0].name| + 1;
    var index, strings := IndexBytes(imports, head), StringBytes(imports);
    assert |LittleEndian(head)| == 4 by { LittleEndianLength(head); }
    assert index[4..] == IndexBytes(rest, head + n);
    assert strings[n..] == StringBytes(rest);
    assert b[4 * (k + 1)..4 * (k + 1) + 4 * |rest|] == b[4 * k..4 * k + 4 * |imports|][4..];
    assert b[head + n..head + n + |StringBytes(rest)|] == b[head..head + |strings|][n..];
  }

  lemma NameFound(b: seq<nat>, imports: seq<Import>, k: nat, head: nat)
    requires |imports| > 0 && CText(imports[0].name)
    requires 4 * k + 4 * |imports| <= |b| && head + |StringBytes(imports)| <= |b| <= WORD32
    requires b[4 * k..4 * k + 4 * |imports|] == IndexBytes(imports, head)
    requires b[head..head + |StringBytes(imports)|] == StringBytes(imports)
    ensures NameAt(b, 4 * k) == Some(imports[0].name)
  {
    hide *;
    var name := imports[0].name;
    NameBytes(b, imports, k, head);
    WordMoves(b, 4 * k, IndexBytes(imports, head), LittleEndian(head));
    LittleEndianReads(head);
    CStringReads(b, head, name);
    NameAtMeans(b, 4 * k);
  }

  lemma NameBytes(b: seq<nat>, imports: seq<Import>, k: nat, head: nat)
    requires |imports| > 0
    requires 4 * k + 4 * |imports| <= |b| && head + |StringBytes(imports)| <= |b|
    requires b[4 * k..4 * k + 4 * |imports|] == IndexBytes(imports, head)
    requires b[head..head + |StringBytes(imports)|] == StringBytes(imports)
    ensures IndexBytes(imports, head)[..4] == LittleEndian(head) && |LittleEndian(head)| == 4
    ensures var name := imports[0].name;
            head + |name| < |b| && b[head..head + |name|] == name && b[head + |name|] == 0
  {
    var name, strings := imports[0].name, StringBytes(imports);
    assert b[head..head + |name|] == strings[..|name|] == name;
    assert b[head + |name|] == strings[|name|] == 0;
  }

  lemma NameAtMeans(b: seq<nat>, entry: nat)
    requires entry % 4 == 0 && entry + 4 <= |b|
    ensures NameAt(b, entry) == CString(b, Word(b, entry))
  {
    hide CString, Word;
  }

  /** Reading what the writer wrote gives every imported name, in bucket and chain order, with
      its relocations, adjacent pairs fused. */
  lemma ImportsReadBack(imports: seq<Import>)
    requires InRange(imports)
    ensures ListImports(NameSection(imports), RelocSection(imports)) == Some(Listings(imports))
  {
    hide ListTail, RelocTail, Listings, CountWord, CountOf, NameSection, NamesEnd, Packs, CText;
    var names, relocs := NameSection(imports), RelocSection(imports);
    NamesOf(imports);
    TailReadsBack(names, imports, 1);
    CountReadsBack(|imports|, 4 * |relocs|);
    assert relocs[1..] == RelocTail(imports, 1);
  }

  // What is read is the imports: names in order, each with relocations that unfold to its
  // references and hold no pair that could still be packed.
  predicate IsRead(imports: seq<Import>, read: seq<Listing>)
  {
    && |read| == |imports|
    && forall i :: 0 <= i < |read| ==>
         read[i].name == imports[i].name && Expand(read[i].relocs) == imports[i].refs && NoPairs(read[i].relocs)
  }

  /** The written sections read back as the imports, with every pair packed and nothing else. */
  lemma ImportsArePacked(imports: seq<Import>)
    requires InRange(imports)
    ensures var read := ListImports(NameSection(imports), RelocSection(imports));
      read.Some? && IsRead(imports, read.value)
  {
    hide NameSection, RelocSection, ListImports, Listings, Expand, Fuse;
    ImportsReadBack(imports);
    ListingsArePacked(imports);
  }

  lemma {:induction false} ListingsArePacked(imports: seq<Import>)
    requires forall i :: 0 <= i < |imports| ==> Packs(imports[i].refs)
    ensures IsRead(imports, Listings(imports))
  {
    hide Expand, Fuse, NoPairs;
    if |imports| == 0 {
    } else {
      PacksSmall(imports[0].refs);
      FuseExpands(imports[0].refs);
      FuseLeavesNoPair(imports[0].refs);
      ListingsArePacked(imports[1..]);
      assert forall i :: 0 < i < |imports| ==> Listings(imports)[i] == Listings(imports[1..])[i - 1];
    }
  }

  lemma PacksSmall(refs: seq<Ref>)
    requires Packs(refs)
    ensures forall i :: 0 <= i < |refs| ==> refs[i].offset < WORD64
  {
    hide Fuse;
    assert forall i :: 0 <= i < |refs| ==> Known(refs[i]);
  }

  lemma NamesOf(imports: seq<Import>)
    requires InRange(imports)
    ensures Named(NameSection(imports), imports, 1)
  {
    hide Named, StringBytes, IndexBytes, LittleEndian, CountWord, Packs, CText;
    var b, n, end := NameSection(imports), 4 * (1 + |imports|), NamesEnd(imports);
    LittleEndianLength(CountWord(|imports|, Align4(end)));
    assert b[4..n] == IndexBytes(imports, n);
    assert b[n..n + |StringBytes(imports)|] == StringBytes(imports);
    SizeBelow(end);
    NamesFound(b, imports, 1, n);
  }

  lemma SizeBelow(end: nat)
    requires end < WORD32
    ensures Align4(end) <= WORD32
  {
  }

  // ---------------------------------------------------------------- rebasing

  function AdjustWords(words: seq<nat>, base: nat): (r: seq<nat>)
    ensures |r| == |words|
  {
    if |words| == 0 then [] else [AdjustWord(words[0], base)] + AdjustWords(words[1..], base)
  }

  // The tail describes n imports without running past its end.
  predicate Holds(tail: seq<nat>, n: nat)
    decreases n
  {
    n == 0 || (|tail| > 0 && 1 + HeaderCount(tail[0]) <= |tail| && Holds(tail[1 + HeaderCount(tail[0])..], n - 1))
  }

  function AdjustTail(tail: seq<nat>, n: nat, base: nat): (r: seq<nat>)
    requires Holds(tail, n)
    ensures |r| == |tail|
    decreases n
  {
    if n == 0 then tail
    else
      var count := HeaderCount(tail[0]);
      [tail[0]] + AdjustWords(tail[1..1 + count], base) + AdjustTail(tail[1 + count..], n - 1, base)
  }

  // A listing whose relocations can all be moved by the base.
  predicate Movable(l: Listing, base: nat)
  {
    forall j :: 0 <= j < |l.relocs| ==> l.relocs[j].offset + base < 0x2000_0000
  }

  function MoveRelocs(relocs: seq<Reloc>, base: nat): (r: seq<Reloc>)
    ensures |r| == |relocs|
  {
    seq(|relocs|, j requires 0 <= j < |relocs| => Reloc(relocs[j].code, relocs[j].offset + base))
  }

  function MoveAll(all: seq<Listing>, base: nat): (r: seq<Listing>)
    ensures |r| == |all|
  {
    seq(|all|, i requires 0 <= i < |all| => Listing(all[i].name, MoveRelocs(all[i].relocs, base)))
  }

  lemma {:induction false} ReadAdjusted(words: seq<nat>, base: nat)
    requires base < WORD32 && base % 2 == 0
    requires forall i :: 0 <= i < |words| ==> words[i] < WORD32
    requires forall j :: 0 <= j < |words| ==> ReadReloc(words[j]).offset + base < 0x2000_0000
    ensures ReadRelocs(AdjustWords(words, base)) == MoveRelocs(ReadRelocs(words), base)
  {
    hide *;
    WordsFirst(words, base);
    if |words| == 0 {
    } else {
      ReadAdjusted(words[1..], base);
      AdjustMoves(words[0], base);
      var moved := AdjustWords(words[1..], base);
      WordsFirst([AdjustWord(words[0], base)] + moved, 0);
      assert ([AdjustWord(words[0], base)] + moved)[1..] == moved;
      MoveFirst(ReadReloc(words[0]), ReadRelocs(words[1..]), base);
    }
  }

  lemma WordsFirst(words: seq<nat>, base: nat)
    ensures |words| == 0 ==> ReadRelocs(AdjustWords(words, base)) == MoveRelocs(ReadRelocs(words), base)
    ensures |words| > 0 ==>
              && ReadRelocs(words) == [ReadReloc(words[0])] + ReadRelocs(words[1..])
              && AdjustWords(words, base) == [AdjustWord(words[0], base)] + AdjustWords(words[1..], base)
  {
    hide ReadReloc, AdjustWord;
  }

  lemma MoveFirst(r: Reloc, rest: seq<Reloc>, base: nat)
    ensures MoveRelocs([r] + rest, base) == [Reloc(r.code, r.offset + base)] + MoveRelocs(rest, base)
  {
  }

  lemma {:induction false} ReadRelocsAt(words: seq<nat>, j: nat)
    requires j < |words|
    ensures ReadRelocs(words)[j] == ReadReloc(words[j])
  {
    hide ReadReloc;
    if j == 0 {
    } else {
      ReadRelocsAt(words[1..], j - 1);
    }
  }

  /** Rebasing and reading commute: names, indexes, counts and types stay, every offset moves by
      the base. */
  lemma {:induction false} RebaseCommutes(names: seq<nat>, tail: seq<nat>, n: nat, base: nat)
    requires base < WORD32 && base % 2 == 0 && forall i :: 0 <= i < |tail| ==> tail[i] < WORD32
    requires ListTail(names, tail, n).Some?
    requires forall l :: l in ListTail(names, tail, n).value ==> Movable(l, base)
    ensures Holds(tail, n)
    ensures ListTail(names, AdjustTail(tail, n, base), n) == Some(MoveAll(ListTail(names, tail, n).value, base))
    decreases n
  {
    hide *;
    if n == 0 {
      NothingListed(names, tail, base);
    } else {
      ListSplits(names, tail, n);
      var h, rest, count := tail[0], tail[1 + HeaderCount(tail[0])..], HeaderCount(tail[0]);
      var words := tail[1..1 + count];
      var first := Listing(NameAt(names, HeaderEntry(h)).value, ReadRelocs(words));
      var others := ListTail(names, rest, n - 1).value;
      assert forall l :: l in others ==> l in [first] + others;
      assert first in [first] + others;
      RebaseCommutes(names, rest, n - 1, base);
      ReadMovable(first, words, base);
      AdjustedParts(tail, n, base);
      ListFirst(names, h, AdjustWords(words, base), AdjustTail(rest, n - 1, base), n);
      MoveAllFirst(first, others, base);
    }
  }

  lemma NothingListed(names: seq<nat>, tail: seq<nat>, base: nat)
    ensures Holds(tail, 0)
    ensures ListTail(names, AdjustTail(tail, 0, base), 0) == Some(MoveAll([], base))
             && ListTail(names, tail, 0) == Some([])
  {
  }

  lemma ListSplits(names: seq<nat>, tail: seq<nat>, n: nat)
    requires n > 0 && ListTail(names, tail, n).Some?
    ensures |tail| > 0 && 1 + HeaderCount(tail[0]) <= |tail|
    ensures var count, rest := HeaderCount(tail[0]), tail[1 + HeaderCount(tail[0])..];
            && NameAt(names, HeaderEntry(tail[0])).Some? && ListTail(names, rest, n - 1).Some?
            && ListTail(names, tail, n).value
               == [Listing(NameAt(names, HeaderEntry(tail[0])).value, ReadRelocs(tail[1..1 + count]))]
                  + ListTail(names, rest, n - 1).value
  {
    hide HeaderEntry, HeaderCount, NameAt, ReadRelocs;
  }

  lemma AdjustedParts(tail: seq<nat>, n: nat, base: nat)
    requires n > 0 && |tail| > 0 && 1 + HeaderCount(tail[0]) <= |tail| && Holds(tail[1 + HeaderCount(tail[0])..], n - 1)
    ensures Holds(tail, n)
    ensures var count := HeaderCount(tail[0]);
            AdjustTail(tail, n, base)
            == [tail[0]] + AdjustWords(tail[1..1 + count], base) + AdjustTail(tail[1 + count..], n - 1, base)
  {
    hide HeaderCount, AdjustWords;
  }

  lemma MoveAllFirst(l: Listing, rest: seq<Listing>, base: nat)
    ensures MoveAll([l] + rest, base) == [Listing(l.name, MoveRelocs(l.relocs, base))] + MoveAll(rest, base)
  {
    hide MoveRelocs;
  }

  lemma ReadMovable(l: Listing, words: seq<nat>, base: nat)
    requires base < WORD32 && base % 2 == 0 && forall i :: 0 <= i < |words| ==> words[i] < WORD32
    requires l.relocs == ReadRelocs(words) && Movable(l, base)
    ensures ReadRelocs(AdjustWords(words, base)) == MoveRelocs(l.relocs, base)
  {
    hide ReadReloc, AdjustWords, MoveRelocs;
    forall j | 0 <= j < |words| ensures ReadReloc(words[j]).offset + base < 0x2000_0000 {
      ReadRelocsAt(words, j);
    }
    ReadAdjusted(words, base);
  }

  // ---------------------------------------------------------------- the bytes of a small table

  function SmallTable(): seq<Import> { [Import([0x66], [Ref(HI20, 0), Ref(LO12_I, 4)])] }

  /** The sections for one import "f" with an adjacent pair, byte for byte and word for word. */
  lemma SmallSections()
    ensures NameSection(SmallTable()) == [0x01, 0x30, 0, 0, 8, 0, 0, 0, 0x66, 0, 0, 0]
    ensures RelocSection(SmallTable()) == [0x3001, 0x1_0004, 0x1000_0000]
  {
    hide CountWord, HeaderWord, RelocWord, Fuse;
    SmallWords();
    SmallFuse();
    var e := SmallTable();
    assert e[1..] == [];
    assert StringBytes(e) == [0x66] + [0] + [];
    assert NamesEnd(e) == 10 && Align4(10) == 12 && Zeros(2) == [0, 0];
    assert LittleEndian(0x3001) == [0x01, 0x30, 0, 0] && LittleEndian(8) == [8, 0, 0, 0];
    assert IndexBytes(e, 8) == LittleEndian(8) + [];
    assert RelocTail(e, 1) == [HeaderWord(1, 1)] + RelocWords([Reloc(1, 0)]) + [];
    assert RelocWords([Reloc(1, 0)]) == [RelocWord(Reloc(1, 0))];
  }

  lemma SmallFuse()
    ensures Fuse(SmallTable()[0].refs) == [Reloc(1, 0)]
  {
    var refs := SmallTable()[0].refs;
    assert refs[2..] == [];
  }

  lemma SmallWords()
    ensures CountWord(1, 12) == 0x3001 && HeaderWord(1, 1) == 0x1_0004 && RelocWord(Reloc(1, 0)) == 0x1000_0000
  {
    hide CountWord, HeaderWord, RelocWord, CountOf;
    CountReadsBack(1, 12);
    CountSmall();
    HeaderWordIs(1, 1);
    RelocWordIs(Reloc(1, 0));
  }

  lemma CountSmall()
    ensures CountWord(1, 12) % 0x1000 == CountOf(CountWord(1, 12))
  {
    hide CountWord, And;
    Low12(CountWord(1, 12));
  }
}
