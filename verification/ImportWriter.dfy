/** The loops that size, fill and rebase the import sections, over the buffers they write. */
module ImportWriter {
  import opened Bits
  import opened Buffers
  import opened ImportSections

  // The entries that have references: the others are skipped by every pass.
  function Used(imports: seq<Import>): seq<Import>
  {
    if |imports| == 0 then []
    else (if |imports[0].refs| == 0 then [] else [imports[0]]) + Used(imports[1..])
  }

  /** Entries are kept in order, those with references and no others. */
  lemma {:induction false} UsedParts(a: seq<Import>, e: Import, b: seq<Import>)
    ensures Used([]) == [] && Used(a + [e] + b) == Used(a) + (if e.refs == [] then [] else [e]) + Used(b)
  {
    hide Used;
    UsedFirst(e, b);
    if |a| == 0 {
      assert a + [e] + b == [e] + b && a == [];
    } else {
      assert a + [e] + b == [a[0]] + (a[1..] + [e] + b) && a == [a[0]] + a[1..];
      UsedFirst(a[0], a[1..] + [e] + b);
      UsedFirst(a[0], a[1..]);
      UsedParts(a[1..], e, b);
    }
  }

  lemma UsedFirst(e: Import, rest: seq<Import>)
    ensures Used([]) == [] && Used([e] + rest) == (if e.refs == [] then [] else [e]) + Used(rest)
  {
    assert ([e] + rest)[1..] == rest;
  }

  // ---------------------------------------------------------------- one reference list

  // The packed relocations still to come at position j, the next reference skipped or not.
  function Left(refs: seq<Ref>, j: nat, skip: bool): seq<Reloc>
    requires j <= |refs| && (skip ==> j < |refs|)
  {
    Fuse(refs[if skip then j + 1 else j..])
  }

  lemma LeftStep(refs: seq<Ref>, j: nat)
    requires j < |refs|
    ensures Paired(refs[j..]) ==> j + 1 < |refs|
    ensures Left(refs, j, false)
         == [Reloc(if Paired(refs[j..]) then REL_HI20_LO12_I else Code(refs[j].kind), refs[j].offset)]
            + Left(refs, j + 1, Paired(refs[j..]))
  {
    hide Paired;
    assert refs[j..][1..] == refs[j + 1..];
    if Paired(refs[j..]) {
      PairedHasTwo(refs[j..]);
      assert refs[j..][2..] == refs[j + 2..];
    }
  }

  lemma PairedHasTwo(refs: seq<Ref>)
    requires Paired(refs)
    ensures |refs| > 1
  {
  }

  lemma LeftEnds(refs: seq<Ref>)
    ensures Left(refs, 0, false) == Fuse(refs) && Left(refs, |refs|, false) == []
  {
    assert refs[0..] == refs && refs[|refs|..] == [];
  }

  // The source's test on PtRef and PtRef->Next.
  method IsPair(refs: seq<Ref>, j: nat) returns (r: bool)
    requires j < |refs|
    ensures r == Paired(refs[j..])
  {
    r := refs[j].kind == HI20 && j + 1 < |refs| && refs[j + 1].kind == LO12_I
         && (refs[j + 1].offset - refs[j].offset) % WORD64 == 4;
  }

  /** The size pass over one list adds a word for each packed relocation, and ends with nothing
      left to skip. */
  method PackedSize(refs: seq<Ref>, refSize: nat) returns (refSize': nat, skip: bool)
    requires refSize < WORD32
    ensures !skip && refSize' == Low32(refSize + 4 * |Fuse(refs)|)
  {
    hide *;
    refSize', skip := refSize, false;
    ghost var done := 0;
    LeftEnds(refs);
    var j := 0;
    while j < |refs|
      invariant 0 <= j <= |refs| && (skip ==> j < |refs|)
      invariant done + |Left(refs, j, skip)| == |Fuse(refs)|
      invariant refSize' == Low32(refSize + 4 * done)
    {
      if skip {
        SkipNext(refs, j);
        skip := false;
      } else {
        LeftStep(refs, j);
        skip := IsPair(refs, j);
        AddOn(refSize + 4 * done, 4);
        refSize' := Low32(refSize' + 4);
        done := done + 1;
      }
      j := j + 1;
    }
  }

  lemma SkipNext(refs: seq<Ref>, j: nat)
    requires j < |refs|
    ensures Left(refs, j, true) == Left(refs, j + 1, false)
  {
  }

  // ---------------------------------------------------------------- the size pass

  lemma UsedNext(imports: seq<Import>, i: nat)
    requires i < |imports|
    ensures Used(imports[i..])
         == if |imports[i].refs| == 0 then Used(imports[i + 1..]) else [imports[i]] + Used(imports[i + 1..])
  {
    assert imports[i..][1..] == imports[i + 1..];
  }

  // Bytes the two sections need for some entries, the fixed first words not counted.
  function RelocBytes(used: seq<Import>): nat
  {
    if |used| == 0 then 0 else 4 + 4 * |Fuse(used[0].refs)| + RelocBytes(used[1..])
  }

  function NamesBytes(used: seq<Import>): nat
  {
    if |used| == 0 then 0 else 4 + |used[0].name| + 1 + NamesBytes(used[1..])
  }

  lemma {:induction false} RelocBytesIs(used: seq<Import>, k: nat)
    ensures RelocBytes(used) == 4 * |RelocTail(used, k)|
    decreases |used|
  {
    hide Fuse, RelocWord;
    if |used| == 0 {
    } else {
      RelocBytesIs(used[1..], k + 1);
    }
  }

  lemma {:induction false} NamesBytesIs(used: seq<Import>)
    ensures NamesBytes(used) == 4 * |used| + |StringBytes(used)|
  {
    if |used| == 0 {
    } else {
      NamesBytesIs(used[1..]);
    }
  }

  // One entry of the size pass: an index word and a string, a header word and relocations.
  method EntrySizes(e: Import, ghost names: nat, ghost refs: nat, nameSize: nat, refSize: nat)
    returns (nameSize': nat, refSize': nat, skip: bool)
    requires nameSize == Low32(names) && refSize == Low32(refs)
    ensures !skip && nameSize' == Low32(names + 4 + |e.name| + 1)
    ensures refSize' == Low32(refs + 4 + 4 * |Fuse(e.refs)|)
  {
    hide Fuse, Low32;
    refSize' := Low32(refSize + 2);
    refSize' := Low32(refSize' + 2);
    nameSize' := Low32(nameSize + 4);
    nameSize' := Low32(nameSize' + |e.name| + 1);
    AddOn(refs, 2);
    AddOn(refs + 2, 2);
    AddOn(names, 4);
    AddOn(names + 4, |e.name| + 1);
    AddOn(refs + 4, 4 * |Fuse(e.refs)|);
    refSize', skip := PackedSize(e.refs, refSize');
  }

  /** The sizes of the two sections and the number of imports, on 32 bits. */
  method PulpImportSectionsSize(imports: seq<Import>) returns (secName: nat, secReloc: nat, n: nat)
    ensures n == |Used(imports)|
    ensures secReloc == Low32(4 * |RelocSection(Used(imports))|)
    ensures secName == Low32(Align4(Low32(NamesEnd(Used(imports)))))
  {
    hide *;
    var nameSize, refSize, skip := 4, 4, false;
    n := 0;
    ghost var names: nat, refs: nat := 4, 4;
    assert imports[0..] == imports && imports[|imports|..] == [];
    var i := 0;
    FourFits();
    while i < |imports|
      invariant 0 <= i <= |imports| && !skip
      invariant n + |Used(imports[i..])| == |Used(imports)|
      invariant names + NamesBytes(Used(imports[i..])) == 4 + NamesBytes(Used(imports))
      invariant refs + RelocBytes(Used(imports[i..])) == 4 + RelocBytes(Used(imports))
      invariant nameSize == Low32(names) && refSize == Low32(refs)
    {
      var e := imports[i];
      UsedNext(imports, i);
      if |e.refs| != 0 {
        SizesFirst(e, Used(imports[i + 1..]));
        n := n + 1;
        nameSize, refSize, skip := EntrySizes(e, names, refs, nameSize, refSize);
        names, refs := names + 4 + |e.name| + 1, refs + 4 + 4 * |Fuse(e.refs)|;
      }
      i := i + 1;
    }
    Totals(Used(imports));
    secName := AlignUp(nameSize);
    secReloc := refSize;
  }

  lemma SizesFirst(e: Import, rest: seq<Import>)
    ensures RelocBytes([e] + rest) == 4 + 4 * |Fuse(e.refs)| + RelocBytes(rest)
    ensures NamesBytes([e] + rest) == 4 + |e.name| + 1 + NamesBytes(rest)
  {
    hide Fuse;
    assert ([e] + rest)[1..] == rest;
  }

  lemma Totals(used: seq<Import>)
    ensures Used([]) == [] && RelocBytes([]) == 0 && NamesBytes([]) == 0
    ensures 4 + RelocBytes(used) == 4 * |RelocSection(used)|
    ensures 4 + NamesBytes(used) == NamesEnd(used)
  {
    hide RelocTail, StringBytes, CountWord;
    RelocBytesIs(used, 1);
    NamesBytesIs(used);
  }

  // ---------------------------------------------------------------- writing one reference list

  predicate AllKnown(relocs: seq<Reloc>)
  {
    forall j :: 0 <= j < |relocs| ==> relocs[j].code != REL_UNKNOWN
  }

  /** Writes the packed relocations of one list from `head` on, up to one whose type the format
      does not know or a store that misses the buffer; nothing is left to skip at the end. */
  method WriteRelocs(relocs: array<nat>, refs: seq<Ref>, head: nat)
    returns (outcome: Outcome, head': nat, relCount: nat, skip: bool)
    modifies relocs
    ensures outcome == Written ==> AllKnown(Fuse(refs)) && (head + |Fuse(refs)| <= relocs.Length || Fuse(refs) == [])
    ensures outcome == Unknown ==> !AllKnown(Fuse(refs))
    ensures outcome == Overrun ==> head + |Fuse(refs)| > relocs.Length
    ensures outcome == Written ==> !skip && relCount == |Fuse(refs)| && head' == head + relCount
    ensures outcome == Written && head + |Fuse(refs)| <= relocs.Length ==>
              relocs[..] == Splice(old(relocs[..]), head, RelocWords(Fuse(refs)))
  {
    hide *;
    outcome, head', relCount, skip := Written, head, 0, false;
    ghost var b0, done: seq<Reloc> := relocs[..], [];
    LeftEnds(refs);
    WordsEnd();
    if head <= |b0| {
      SpliceNothing(b0, head);
    }
    var j := 0;
    while j < |refs|
      invariant 0 <= j <= |refs| && (skip ==> j < |refs|)
      invariant done + Left(refs, j, skip) == Fuse(refs) && AllKnown(done)
      invariant relCount == |done| && head' == head + |done| && |RelocWords(done)| == |done|
      invariant done != [] ==> head' <= relocs.Length
      invariant head' <= relocs.Length ==> relocs[..] == Splice(b0, head, RelocWords(done))
    {
      if skip {
        SkipNext(refs, j);
        skip := false;
      } else {
        LeftStep(refs, j);
        skip := IsPair(refs, j);
        ghost var left := Left(refs, j + 1, skip);
        var rel := if skip then REL_HI20_LO12_I else Code(refs[j].kind);
        var r := Reloc(rel, refs[j].offset);
        KnownSplit(done, r, left);
        assert done + ([r] + left) == done + [r] + left;
        if rel == REL_UNKNOWN {
          return Unknown, head', relCount, skip;
        }
        var inside := Store(relocs, head', RelocWord(r));
        if !inside {
          return Overrun, head', relCount, skip;
        }
        WordsSnoc(done, r);
        SpliceMore(b0, head, RelocWords(done), [RelocWord(r)]);
        done, head', relCount := done + [r], head' + 1, relCount + 1;
      }
      j := j + 1;
    }
    assert done + [] == done;
  }

  lemma WordsEnd()
    ensures RelocWords([]) == [] && AllKnown([])
  {
  }

  lemma KnownSplit(done: seq<Reloc>, r: Reloc, left: seq<Reloc>)
    ensures AllKnown(done + [r]) <==> AllKnown(done) && r.code != REL_UNKNOWN
    ensures r.code == REL_UNKNOWN ==> !AllKnown(done + ([r] + left))
  {
    assert (done + [r])[|done|] == r;
    assert (done + ([r] + left))[|done|] == r;
    assert forall j :: 0 <= j < |done| ==> (done + [r])[j] == done[j];
  }

  lemma {:induction false} WordsSnoc(done: seq<Reloc>, r: Reloc)
    ensures RelocWords(done + [r]) == RelocWords(done) + [RelocWord(r)]
  {
    hide RelocWord;
    if |done| == 0 {
      assert done + [r] == [r] && [r][1..] == [];
    } else {
      assert (done + [r])[1..] == done[1..] + [r];
      WordsSnoc(done[1..], r);
    }
  }

  // ---------------------------------------------------------------- the names section

  // The buffer when the first k names are in: index words and strings so far, zeros elsewhere.
  function NamesFilled(used: seq<Import>, k: nat): seq<nat>
    requires k <= |used|
  {
    var first, strings := 4 * (1 + |used|), StringBytes(used[..k]);
    LittleEndian(CountWord(|used|, Align4(NamesEnd(used)))) + IndexBytes(used[..k], first) + Zeros(4 * (|used| - k))
    + strings + Zeros(|StringBytes(used[k..])| + Align4(NamesEnd(used)) - NamesEnd(used))
  }

  lemma {:induction false} StringsAppend(a: seq<Import>, b: seq<Import>)
    ensures StringBytes(a + b) == StringBytes(a) + StringBytes(b)
  {
    if |a| == 0 {
      assert a + b == b;
    } else {
      assert (a + b)[1..] == a[1..] + b;
      StringsAppend(a[1..], b);
    }
  }

  lemma {:induction false} IndexAppend(a: seq<Import>, b: seq<Import>, head: nat)
    ensures IndexBytes(a + b, head) == IndexBytes(a, head) + IndexBytes(b, head + |StringBytes(a)|)
    decreases |a|
  {
    hide LittleEndian;
    if |a| == 0 {
      assert a + b == b;
    } else {
      assert (a + b)[1..] == a[1..] + b;
      IndexAppend(a[1..], b, head + |a[0].name| + 1);
    }
  }

  lemma OneImport(e: Import, head: nat)
    ensures StringBytes([e]) == e.name + [0] && IndexBytes([e], head) == LittleEndian(head)
    ensures |LittleEndian(head)| == 4
  {
    assert [e][1..] == [];
  }

  lemma NamesParts(used: seq<Import>, k: nat)
    requires k < |used|
    ensures StringBytes(used[..k + 1]) == StringBytes(used[..k]) + (used[k].name + [0])
    ensures StringBytes(used[k..]) == (used[k].name + [0]) + StringBytes(used[k + 1..])
    ensures IndexBytes(used[..k + 1], 4 * (1 + |used|))
         == IndexBytes(used[..k], 4 * (1 + |used|)) + LittleEndian(4 * (1 + |used|) + |StringBytes(used[..k])|)
  {
    hide *;
    var first := 4 * (1 + |used|);
    OneImport(used[k], first + |StringBytes(used[..k])|);
    assert used[..k + 1] == used[..k] + [used[k]] && used[k..] == [used[k]] + used[k + 1..];
    StringsAppend(used[..k], [used[k]]);
    StringsAppend([used[k]], used[k + 1..]);
    IndexAppend(used[..k], [used[k]], first);
  }

  // Storing the next index word and then its string leads to the next buffer.
  lemma NamesStep(used: seq<Import>, k: nat)
    requires k < |used|
    ensures var b, head := NamesFilled(used, k), 4 * (1 + |used|) + |StringBytes(used[..k])|;
            && 4 * (1 + k) + 4 <= |b| && head + |used[k].name| + 1 <= |b|
            && Splice(Splice(b, 4 * (1 + k), LittleEndian(head)), head, used[k].name + [0]) == NamesFilled(used, k + 1)
  {
    hide LittleEndian, IndexBytes, StringBytes, Splice, Align4, CountWord, NamesEnd;
    NamesParts(used, k);
    var first, pad, s := 4 * (1 + |used|), Align4(NamesEnd(used)) - NamesEnd(used), StringBytes(used[..k]);
    var t, u, head := used[k].name + [0], StringBytes(used[k + 1..]), first + |s|;
    LittleEndianLength(CountWord(|used|, Align4(NamesEnd(used))));
    LittleEndianLength(head);
    var x, w := LittleEndian(CountWord(|used|, Align4(NamesEnd(used)))) + IndexBytes(used[..k], first),
        LittleEndian(head);
    var m := Zeros(4 * (|used| - k - 1));
    assert NamesFilled(used, k) == x + Zeros(4) + (m + s + (Zeros(|t|) + Zeros(|u| + pad)));
    SpliceMiddle(x, Zeros(4), m + s + (Zeros(|t|) + Zeros(|u| + pad)), w);
    assert x + w + (m + s + (Zeros(|t|) + Zeros(|u| + pad))) == (x + w + m + s) + Zeros(|t|) + Zeros(|u| + pad);
    SpliceMiddle(x + w + m + s, Zeros(|t|), Zeros(|u| + pad), t);
    assert (x + w) + m + (s + t) + Zeros(|u| + pad) == (x + w + m + s) + t + Zeros(|u| + pad);
  }

  lemma NamesStart(used: seq<Import>)
    ensures |Zeros(Align4(NamesEnd(used)))| >= 4
    ensures Splice(Zeros(Align4(NamesEnd(used))), 0, LittleEndian(CountWord(|used|, Align4(NamesEnd(used)))))
             == NamesFilled(used, 0)
    ensures StringBytes(used[..0]) == []
  {
    hide LittleEndian, CountWord, Splice, Align4;
    var end := Align4(NamesEnd(used));
    var w := LittleEndian(CountWord(|used|, end));
    LittleEndianLength(CountWord(|used|, end));
    assert used[..0] == [] && used[0..] == used;
    assert Zeros(end) == [] + Zeros(4) + Zeros(end - 4);
    SpliceMiddle([], Zeros(4), Zeros(end - 4), w);
  }

  lemma NamesDone(used: seq<Import>)
    ensures NamesFilled(used, |used|) == NameSection(used)
  {
    hide LittleEndian, CountWord, Align4;
    assert used[..|used|] == used && used[|used|..] == [];
  }

  /** Writes the names section over a cleared buffer.  All positions are 32-bit numbers, as in the
      source; every store is inside if and only if the buffer has the size the section needs. */
  method FillNames(names: array<nat>, imports: seq<Import>, nImport: nat) returns (inside: bool)
    requires nImport == |Used(imports)|
    requires names.Length % 4 == 0 && names.Length < WORD32 && names[..] == Zeros(names.Length)
    requires names.Length <= Align4(NamesEnd(Used(imports)))
    modifies names
    ensures inside <==> names.Length == Align4(NamesEnd(Used(imports)))
    ensures inside ==> names[..] == NameSection(Used(imports))
  {
    hide Used, StringBytes, Zeros, Splice, NamesFilled, NameSection, CountWord, Low32, NamesEnd, Align4, LittleEndian;
    ghost var used := Used(imports);
    NamesStart(used);
    NamesEndIs(used);
    ZerosLength(Align4(NamesEnd(used)));
    ghost var full := names.Length == Align4(NamesEnd(used));
    inside := StoreWord(names, 0, CountWord(nImport, names.Length));
    if !inside {
      return false;
    }
    var head, nImp, i := Low32((1 + nImport) * 4), 0, 0;
    ghost var at := 4 * (1 + |used|);
    assert imports[0..] == imports && used[0..] == used;
    while i < |imports|
      invariant 0 <= i <= |imports| && nImp <= |used| && Used(imports[i..]) == used[nImp..]
      invariant full ==> names[..] == NamesFilled(used, nImp)
      invariant at == 4 * (1 + |used|) + |StringBytes(used[..nImp])| && head == Low32(at)
      invariant 4 * (1 + nImp) <= names.Length
      invariant 4 * (1 + |used|) <= names.Length ==> at <= names.Length
    {
      var e := imports[i];
      UsedHere(imports, i, used, nImp);
      if |e.refs| != 0 {
        NamesStep(used, nImp);
        NamesParts(used, nImp);
        inside := StoreWord(names, 4 * (1 + nImp), head);
        if !inside {
          return false;
        }
        inside := StoreString(names, head, e.name);
        if !inside {
          return false;
        }
        AddOn(at, |e.name| + 1);
        nImp, head, at := nImp + 1, Low32(head + (|e.name| + 1)), at + |e.name| + 1;
      }
      i := i + 1;
    }
    UsedOver(imports, used, nImp);
    NamesDone(used);
  }

  lemma NamesEndIs(used: seq<Import>)
    ensures NamesEnd(used) == 4 * (1 + |used|) + |StringBytes(used)| && used[..|used|] == used
    ensures forall n: nat :: n % 4 == 0 && NamesEnd(used) <= n <= Align4(NamesEnd(used)) ==> n == Align4(NamesEnd(used))
  {
    hide StringBytes;
  }

  // The next entry is either skipped or the next used one.
  lemma UsedHere(imports: seq<Import>, i: nat, used: seq<Import>, k: nat)
    requires i < |imports| && k <= |used| && Used(imports[i..]) == used[k..]
    ensures |imports[i].refs| == 0 ==> Used(imports[i + 1..]) == used[k..]
    ensures |imports[i].refs| != 0 ==> k < |used| && used[k] == imports[i] && Used(imports[i + 1..]) == used[k + 1..]
  {
    hide Used;
    UsedNext(imports, i);
    if |imports[i].refs| != 0 {
      assert used[k..][0] == imports[i];
      assert used[k..][1..] == used[k + 1..];
    }
  }

  lemma UsedOver(imports: seq<Import>, used: seq<Import>, k: nat)
    requires k <= |used| && Used(imports[|imports|..]) == used[k..]
    ensures k == |used|
  {
  }

  // ---------------------------------------------------------------- the relocs section

  predicate ImportsKnown(used: seq<Import>)
  {
    forall i :: 0 <= i < |used| ==> AllKnown(Fuse(used[i].refs))
  }

  // The buffer when the first k entries are in.
  function RelocsFilled(used: seq<Import>, k: nat): seq<nat>
    requires k <= |used|
  {
    [CountWord(|used|, 4 * |RelocSection(used)|)] + RelocTail(used[..k], 1) + Zeros(|RelocTail(used[k..], 1 + k)|)
  }

  lemma {:induction false} TailAppend(a: seq<Import>, b: seq<Import>, k: nat)
    ensures RelocTail(a + b, k) == RelocTail(a, k) + RelocTail(b, k + |a|)
    decreases |a|
  {
    hide HeaderWord, RelocWords, Fuse;
    if |a| == 0 {
      assert a + b == b;
    } else {
      assert (a + b)[1..] == a[1..] + b;
      TailAppend(a[1..], b, k + 1);
    }
  }

  lemma OneTail(e: Import, k: nat)
    ensures RelocTail([e], k) == [HeaderWord(k, |Fuse(e.refs)|)] + RelocWords(Fuse(e.refs))
    ensures RelocTail([], k) == []
  {
    hide HeaderWord, RelocWords, Fuse;
    assert [e][1..] == [];
  }

  lemma TailParts(used: seq<Import>, k: nat)
    requires k < |used|
    ensures RelocTail(used[..k + 1], 1)
         == RelocTail(used[..k], 1) + ([HeaderWord(1 + k, |Fuse(used[k].refs)|)] + RelocWords(Fuse(used[k].refs)))
    ensures |RelocTail(used[k..], 1 + k)| == 1 + |RelocWords(Fuse(used[k].refs))| + |RelocTail(used[k + 1..], 2 + k)|
  {
    hide *;
    assert used[..k + 1] == used[..k] + [used[k]] && used[k..] == [used[k]] + used[k + 1..];
    TailAppend(used[..k], [used[k]], 1);
    TailAppend([used[k]], used[k + 1..], 1 + k);
    OneTail(used[k], 1 + k);
  }

  // Writing the next entry's words, then its header, leads to the next buffer.
  lemma RelocsStep(used: seq<Import>, k: nat)
    requires k < |used|
    ensures var b, head, words := RelocsFilled(used, k), 1 + |RelocTail(used[..k], 1)|, RelocWords(Fuse(used[k].refs));
            && head + 1 + |words| <= |b|
            && Splice(Splice(b, head + 1, words), head, [HeaderWord(1 + k, |Fuse(used[k].refs)|)])
              == RelocsFilled(used, k + 1)
  {
    hide HeaderWord, RelocWords, Fuse, Splice, RelocTail, CountWord, RelocSection;
    TailParts(used, k);
    var words, h := RelocWords(Fuse(used[k].refs)), HeaderWord(1 + k, |Fuse(used[k].refs)|);
    var x := [CountWord(|used|, 4 * |RelocSection(used)|)] + RelocTail(used[..k], 1);
    var z := Zeros(|RelocTail(used[k + 1..], 2 + k)|);
    assert RelocsFilled(used, k) == (x + [0]) + Zeros(|words|) + z;
    SpliceMiddle(x + [0], Zeros(|words|), z, words);
    assert (x + [0]) + words + z == x + [0] + (words + z);
    SpliceMiddle(x, [0], words + z, [h]);
    assert x + [h] + (words + z) == [CountWord(|used|, 4 * |RelocSection(used)|)] + RelocTail(used[..k + 1], 1) + z;
  }

  lemma RelocsEnds(used: seq<Import>)
    ensures Splice(Zeros(|RelocSection(used)|), 0, [CountWord(|used|, 4 * |RelocSection(used)|)])
             == RelocsFilled(used, 0)
    ensures RelocsFilled(used, |used|) == RelocSection(used)
    ensures |RelocTail(used[..0], 1)| == 0
  {
    hide CountWord, HeaderWord, Splice;
    var n, w := |RelocSection(used)|, CountWord(|used|, 4 * |RelocSection(used)|);
    assert used[..0] == [] && used[0..] == used && used[..|used|] == used && used[|used|..] == [];
    assert Zeros(n) == [] + Zeros(1) + Zeros(n - 1);
    SpliceMiddle([], Zeros(1), Zeros(n - 1), [w]);
  }

  lemma KnownHere(used: seq<Import>, k: nat)
    requires k < |used|
    ensures !AllKnown(Fuse(used[k].refs)) ==> !ImportsKnown(used)
    ensures AllKnown(Fuse(used[k].refs)) && ImportsKnown(used[..k]) ==> ImportsKnown(used[..k + 1])
  {
    hide AllKnown, Fuse;
    assert used[..k + 1] == used[..k] + [used[k]];
  }

  lemma KnownEnds(used: seq<Import>)
    ensures ImportsKnown(used[..0])
    ensures ImportsKnown(used[..|used|]) == ImportsKnown(used)
  {
    hide AllKnown, Fuse;
    assert used[..|used|] == used;
  }

  /** Writes the relocs section over a cleared buffer: as specified when the buffer has the size
      the section needs and all types are known, up to an unknown type or a store that misses the
      buffer otherwise. */
  method FillRelocs(relocs: array<nat>, imports: seq<Import>, nImport: nat) returns (outcome: Outcome)
    requires nImport == |Used(imports)|
    requires relocs[..] == Zeros(relocs.Length) && relocs.Length <= |RelocSection(Used(imports))|
    modifies relocs
    ensures outcome == Written ==> relocs.Length == |RelocSection(Used(imports))| && ImportsKnown(Used(imports))
    ensures outcome == Unknown ==> !ImportsKnown(Used(imports))
    ensures outcome == Overrun ==> relocs.Length < |RelocSection(Used(imports))|
    ensures outcome == Written ==> relocs[..] == RelocSection(Used(imports))
  {
    hide *;
    ghost var used := Used(imports);
    ZerosLength(|RelocSection(used)|);
    RelocsEnds(used);
    KnownEnds(used);
    ghost var full := relocs.Length == |RelocSection(used)|;
    var inside := Store(relocs, 0, CountWord(nImport, 4 * relocs.Length));
    if !inside {
      SectionNotEmpty(used);
      return Overrun;
    }
    var nImp, headRel, skip, i := 0, 1, false, 0;
    assert imports[0..] == imports && used[0..] == used;
    while i < |imports|
      invariant 0 <= i <= |imports| && nImp <= |used| && Used(imports[i..]) == used[nImp..] && !skip
      invariant ImportsKnown(used[..nImp])
      invariant full ==> relocs[..] == RelocsFilled(used, nImp)
      invariant headRel == 1 + |RelocTail(used[..nImp], 1)| <= relocs.Length
    {
      var e := imports[i];
      UsedHere(imports, i, used, nImp);
      if |e.refs| != 0 {
        RelocsStep(used, nImp);
        TailParts(used, nImp);
        KnownHere(used, nImp);
        RoomFor(used, nImp);
        FuseNotEmpty(e.refs);
        WordsLength(Fuse(e.refs));
        var base, relCount := headRel, 0;
        outcome, headRel, relCount, skip := WriteRelocs(relocs, e.refs, headRel + 1);
        if outcome != Written {
          return;
        }
        inside := Store(relocs, base, HeaderWord(1 + nImp, relCount));
        nImp := nImp + 1;
      }
      i := i + 1;
    }
    UsedOver(imports, used, nImp);
    SectionIs(used);
    outcome := Written;
  }

  // The words up to entry k and those of entry k are part of the section.
  lemma RoomFor(used: seq<Import>, k: nat)
    requires k < |used|
    ensures 2 + |RelocTail(used[..k], 1)| + |Fuse(used[k].refs)| <= |RelocSection(used)|
  {
    hide HeaderWord, RelocWords, Fuse, RelocTail, CountWord;
    WordsLength(Fuse(used[k].refs));
    TailParts(used, k);
    assert used[..k] + used[k..] == used;
    TailAppend(used[..k], used[k..], 1);
  }

  lemma SectionIs(used: seq<Import>)
    ensures |RelocSection(used)| == 1 + |RelocTail(used[..|used|], 1)|
  {
    hide CountWord, RelocTail;
    assert used[..|used|] == used;
  }

  lemma FuseNotEmpty(refs: seq<Ref>)
    requires refs != []
    ensures Fuse(refs) != []
  {
  }

  lemma SectionNotEmpty(used: seq<Import>)
    ensures |RelocSection(used)| > 0
  {
  }

  lemma WordsLength(relocs: seq<Reloc>)
    ensures |RelocWords(relocs)| == |relocs|
  {
  }

  // The bytes both sections of a table need.
  function NamesSize(imports: seq<Import>): nat { Align4(NamesEnd(Used(imports))) }

  function RelocsSize(imports: seq<Import>): nat { 4 * |RelocSection(Used(imports))| }

  /** PulpImportCreateNameAndRelocSections: buffers of the computed 32-bit sizes, cleared and
      filled.  With all types known a store misses a buffer exactly when a section needs 2^32
      bytes or more; otherwise it fails exactly when a reference has an unknown type. */
  method CreateNameAndRelocSections(imports: seq<Import>)
    returns (outcome: Outcome, names: array<nat>, relocs: array<nat>, nImport: nat)
    ensures nImport == |Used(imports)| && fresh(names) && fresh(relocs)
    ensures names.Length == Low32(NamesSize(imports)) && 4 * relocs.Length == Low32(RelocsSize(imports))
    ensures outcome == Overrun ==> NamesSize(imports) >= WORD32 || RelocsSize(imports) >= WORD32
    ensures NamesSize(imports) >= WORD32 ==> outcome == Overrun
    ensures RelocsSize(imports) >= WORD32 && ImportsKnown(Used(imports)) ==> outcome == Overrun
    ensures outcome == Unknown ==> !ImportsKnown(Used(imports))
    ensures outcome == Written ==>
              && ImportsKnown(Used(imports))
              && names[..] == NameSection(Used(imports)) && relocs[..] == RelocSection(Used(imports))
  {
    hide Used, RelocSection, NameSection, ImportsKnown, NamesEnd, Zeros, Align4, Low32;
    var secName, secReloc;
    secName, secReloc, nImport := PulpImportSectionsSize(imports);
    AlignLow(NamesEnd(Used(imports)));
    LowMultiple(RelocsSize(imports));
    names := new nat[secName](k => 0);
    relocs := new nat[secReloc / 4](k => 0);
    AreZeros(names[..]);
    AreZeros(relocs[..]);
    var inside := FillNames(names, imports, nImport);
    if !inside {
      return Overrun, names, relocs, nImport;
    }
    outcome := FillRelocs(relocs, imports, nImport);
  }

  lemma AreZeros(s: seq<nat>)
    requires forall i :: 0 <= i < |s| ==> s[i] == 0
    ensures s == Zeros(|s|)
  {
  }

  /** An import whose name alone fills 2^32 bytes: the names buffer wraps, and is too small. */
  lemma LongNameWraps(e: Import)
    requires |e.refs| > 0
    ensures NamesSize([e]) >= WORD32 <==> |e.name| >= 0xFFFF_FFF4
    ensures |e.name| == 0xFFFF_FFF7 ==> Low32(NamesSize([e])) == 0
  {
    assert [e][1..] == [];
    OneImport(e, 8);
    assert Used([e]) == [e];
    assert NamesEnd([e]) == 9 + |e.name|;
  }

  // ---------------------------------------------------------------- rebasing in place

  lemma {:induction false} AdjustWordsAt(words: seq<nat>, base: nat, j: nat)
    requires j < |words|
    ensures AdjustWords(words, base)[j] == AdjustWord(words[j], base)
  {
    hide AdjustWord;
    if j == 0 {
    } else {
      AdjustWordsAt(words[1..], base, j - 1);
    }
  }

  // Adjusting one more word of a run.
  lemma AdjustOne(words: seq<nat>, base: nat, j: nat)
    requires j < |words|
    ensures AdjustWords(words[..j + 1], base) == AdjustWords(words[..j], base) + [AdjustWord(words[j], base)]
  {
    hide AdjustWord, AdjustWords;
    AdjustWordsLengths(words, base, j);
    forall i | 0 <= i < j
      ensures AdjustWords(words[..j + 1], base)[i] == AdjustWords(words[..j], base)[i]
    {
      AdjustWordsAt(words[..j + 1], base, i);
      AdjustWordsAt(words[..j], base, i);
    }
    AdjustWordsAt(words[..j + 1], base, j);
  }

  lemma AdjustWordsLengths(words: seq<nat>, base: nat, j: nat)
    requires j < |words|
    ensures |AdjustWords(words[..j + 1], base)| == j + 1 && |AdjustWords(words[..j], base)| == j
  {
  }

  // The inner loop of AdjustRelocsImport.
  method AdjustRun(relocs: array<nat>, addr: nat, count: nat, base: nat) returns (addr': nat)
    requires addr + count <= relocs.Length
    modifies relocs
    ensures addr' == addr + count
    ensures relocs[..] == Splice(old(relocs[..]), addr, AdjustWords(old(relocs[addr..addr + count]), base))
  {
    hide *;
    ghost var b0, words := relocs[..], relocs[addr..addr + count];
    addr' := addr;
    var j := 0;
    NothingAdjusted(base);
    SpliceNothing(b0, addr);
    assert words[..0] == [];
    while j < count
      invariant 0 <= j <= count && addr' == addr + j
      invariant |AdjustWords(words[..j], base)| == j
      invariant relocs[..] == Splice(b0, addr, AdjustWords(words[..j], base))
    {
      SpliceAfter(b0, addr, AdjustWords(words[..j], base), addr');
      assert relocs[addr'] == b0[addr'] == words[j];
      AdjustOne(words, base, j);
      Put(relocs, addr', AdjustWord(relocs[addr'], base));
      SpliceMore(b0, addr, AdjustWords(words[..j], base), [AdjustWord(words[j], base)]);
      addr', j := addr' + 1, j + 1;
    }
    assert words[..j] == words;
  }

  lemma NothingAdjusted(base: nat)
    ensures AdjustWords([], base) == []
  {
  }

  lemma SpliceAfter(b: seq<nat>, at: nat, s: seq<nat>, k: nat)
    requires at + |s| <= k < |b|
    ensures Splice(b, at, s)[k] == b[k]
  {
  }

  /** Rebases every relocation in place; a missing section is left alone. */
  method AdjustRelocsImport(importRelocs: array?<nat>, baseText: nat)
    requires importRelocs != null ==> importRelocs.Length > 0 && Holds(importRelocs[1..], CountOf(importRelocs[0]))
    modifies importRelocs
    ensures importRelocs != null ==>
              importRelocs[..] == old(importRelocs[..1])
                + AdjustTail(old(importRelocs[1..]), CountOf(old(importRelocs[0])), baseText)
  {
    hide *;
    if importRelocs == null {
      return;
    }
    ghost var b0 := importRelocs[..];
    var nImport, addr, i := CountOf(importRelocs[0]), 1, 0;
    ghost var tail := b0[1..];
    assert b0[1..] == importRelocs[1..] && b0[..1] == importRelocs[..1];
    ghost var all := AdjustTail(tail, nImport, baseText);
    TailLength(tail, nImport, baseText);
    assert importRelocs[..1] + all == importRelocs[..addr] + AdjustTail(importRelocs[addr..], nImport - i, baseText);
    while i < nImport
      invariant 0 <= i <= nImport && 1 <= addr <= importRelocs.Length
      invariant Holds(importRelocs[addr..], nImport - i)
      invariant b0[..1] + all == importRelocs[..addr] + AdjustTail(importRelocs[addr..], nImport - i, baseText)
    {
      ghost var b := importRelocs[..];
      assert importRelocs[addr..] == b[addr..] && importRelocs[..addr] == b[..addr];
      RunStep(b, addr, nImport - i, baseText);
      var relCount := HeaderCount(importRelocs[addr]);
      assert importRelocs[addr + 1..addr + 1 + relCount] == b[addr + 1..addr + 1 + relCount];
      addr := AdjustRun(importRelocs, addr + 1, relCount, baseText);
      assert importRelocs[addr..] == importRelocs[..][addr..] && importRelocs[..addr] == importRelocs[..][..addr];
      i := i + 1;
    }
    NothingLeft(importRelocs[addr..], baseText);
    assert importRelocs[..addr] + importRelocs[addr..] == importRelocs[..];
  }

  lemma TailLength(tail: seq<nat>, n: nat, base: nat)
    requires Holds(tail, n)
    ensures |AdjustTail(tail, n, base)| == |tail|
  {
  }

  lemma NothingLeft(tail: seq<nat>, base: nat)
    ensures Holds(tail, 0) && AdjustTail(tail, 0, base) == tail
  {
  }

  // One import of the outer loop.
  lemma RunStep(b: seq<nat>, addr: nat, n: nat, base: nat)
    requires n > 0 && addr <= |b| && Holds(b[addr..], n)
    ensures addr < |b| && addr + 1 + HeaderCount(b[addr]) <= |b|
    ensures var next, words := addr + 1 + HeaderCount(b[addr]), b[addr + 1..addr + 1 + HeaderCount(b[addr])];
            && |AdjustWords(words, base)| == |words|
            && var c := Splice(b, addr + 1, AdjustWords(words, base));
               && Holds(c[next..], n - 1)
               && c[..next] + AdjustTail(c[next..], n - 1, base) == b[..addr] + AdjustTail(b[addr..], n, base)
  {
    hide *;
    var tail := b[addr..];
    HoldsFirst(tail, n);
    var count := HeaderCount(tail[0]);
    var words := b[addr + 1..addr + 1 + count];
    WordsAdjustedLength(words, base);
    RunParts(b, addr, count);
    SpliceRun(b, addr, AdjustWords(words, base));
    AdjustedParts(tail, n, base);
    var rest := AdjustTail(tail[1 + count..], n - 1, base);
    assert b[..addr] + ([b[addr]] + AdjustWords(words, base) + rest)
           == b[..addr] + ([b[addr]] + AdjustWords(words, base)) + rest;
  }

  lemma HoldsFirst(tail: seq<nat>, n: nat)
    requires n > 0 && Holds(tail, n)
    ensures |tail| > 0 && 1 + HeaderCount(tail[0]) <= |tail| && Holds(tail[1 + HeaderCount(tail[0])..], n - 1)
  {
  }

  lemma RunParts(b: seq<nat>, addr: nat, count: nat)
    requires addr + 1 + count <= |b|
    ensures b[addr..][0] == b[addr] && b[addr..][1..1 + count] == b[addr + 1..addr + 1 + count]
    ensures b[addr..][1 + count..] == b[addr + 1 + count..]
  {
  }

  lemma SpliceRun(b: seq<nat>, addr: nat, s: seq<nat>)
    requires addr + 1 + |s| <= |b|
    ensures var c, next := Splice(b, addr + 1, s), addr + 1 + |s|;
            c[next..] == b[next..] && c[..next] == b[..addr] + ([b[addr]] + s)
  {
  }

  lemma WordsAdjustedLength(words: seq<nat>, base: nat)
    ensures |AdjustWords(words, base)| == |words|
  {
  }

  // ---------------------------------------------------------------- written, rebased, read

  lemma {:induction false} TailWords(imports: seq<Import>, k: nat)
    requires forall i :: 0 <= i < |imports| ==> Packs(imports[i].refs)
    ensures forall i :: 0 <= i < |RelocTail(imports, k)| ==> RelocTail(imports, k)[i] < WORD32
    decreases |imports|
  {
    hide HeaderWord, RelocWords, Fuse, Packs;
    if |imports| == 0 {
    } else {
      HeaderReadsBack(k, |Fuse(imports[0].refs)|);
      FusedWords(imports[0].refs);
      TailWords(imports[1..], k + 1);
    }
  }

  lemma FusedWords(refs: seq<Ref>)
    requires Packs(refs)
    ensures forall i :: 0 <= i < |RelocWords(Fuse(refs))| ==> RelocWords(Fuse(refs))[i] < WORD32
  {
    PackedWords(refs);
  }

  lemma {:induction false} PackedWords(refs: seq<Ref>)
    requires forall j :: 0 <= j < |refs| ==> Known(refs[j])
    ensures forall i :: 0 <= i < |RelocWords(Fuse(refs))| ==> RelocWords(Fuse(refs))[i] < WORD32
  {
    hide RelocWord;
    if |refs| == 0 {
    } else {
      var pair := Paired(refs);
      var r, rest := Reloc(if pair then REL_HI20_LO12_I else Code(refs[0].kind), refs[0].offset),
          refs[if pair then 2 else 1..];
      RelocReadsBack(r);
      PackedWords(rest);
      assert ([r] + Fuse(rest))[1..] == Fuse(rest);
      assert RelocWords(Fuse(refs)) == [RelocWord(r)] + RelocWords(Fuse(rest));
    }
  }

  /** What a linker run leaves behind: the sections written for the imports, the relocations
      rebased to an even text base, read as the imports with every offset moved by the base. */
  lemma RebasedImportsRead(imports: seq<Import>, base: nat)
    requires InRange(imports) && base < WORD32 && base % 2 == 0
    requires forall l :: l in Listings(imports) ==> Movable(l, base)
    ensures var relocs := RelocSection(imports);
            && Holds(relocs[1..], CountOf(relocs[0]))
            && ListImports(NameSection(imports), relocs[..1] + AdjustTail(relocs[1..], CountOf(relocs[0]), base))
               == Some(MoveAll(Listings(imports), base))
  {
    hide NameSection, RelocTail, Listings, Movable, CountWord, CountOf, Packs, MoveAll, CText, NamesEnd;
    var names, relocs := NameSection(imports), RelocSection(imports);
    ImportsReadBack(imports);
    CountReadsBack(|imports|, 4 * |relocs|);
    TailWords(imports, 1);
    var tail := relocs[1..];
    assert tail == RelocTail(imports, 1);
    RebaseCommutes(names, tail, CountOf(relocs[0]), base);
    var adjusted := relocs[..1] + AdjustTail(tail, CountOf(relocs[0]), base);
    assert adjusted[1..] == AdjustTail(tail, CountOf(relocs[0]), base);
  }
}
