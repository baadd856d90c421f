/** The ROM section: headers that point at where the segments of a binary land in the flash. */
module Rom {
  import opened Bits
  import opened Buffers
  import opened Structs
  import opened FlashSection

  // BinarySegment and Binary: what the ELF parser hands over.
  datatype Segment = Segment(base: nat, data: seq<nat>)

  datatype Binary = Binary(entry: nat, segments: seq<Segment>)

  // The fields of the structure classes, in declaration order.
  const ROM_EMPTY: seq<string> := ["rom_header_size"]
  const ROM_HEADER: seq<string> := ["rom_header_size", "nb_segments", "entry", "unused"]
  const SEGMENT_HEADER: seq<string> := ["flash_offset", "mem_addr", "size", "crc"]
  const SEGMENT: seq<string> := ["data"]
  const WORDS: seq<Format> := [Scalar(4), Scalar(4), Scalar(4), Scalar(4)]

  lemma NamesDiffer()
    ensures DistinctNames(ROM_EMPTY) && DistinctNames(ROM_HEADER) && DistinctNames(SEGMENT_HEADER)
             && DistinctNames(SEGMENT)
  {
    assert |"size"| != |"crc"|;
  }

  lemma WordsWidth()
    ensures |WORDS| == 4 && Width(WORDS) == 16
    ensures Width(WORDS[..0]) == 0 && Width(WORDS[..1]) == 4 && Width(WORDS[..2]) == 8 && Width(WORDS[..3]) == 12
  {
    WidthOne(Scalar(4));
    assert WORDS[..0] == [] && WORDS[..1] == [Scalar(4)];
    assert WORDS[..2] == [Scalar(4)] + [Scalar(4)];
    WidthAppend([Scalar(4)], [Scalar(4)]);
    assert WORDS[..3] == WORDS[..2] + [Scalar(4)];
    WidthAppend(WORDS[..2], [Scalar(4)]);
    assert WORDS == WORDS[..3] + [Scalar(4)];
    WidthAppend(WORDS[..3], [Scalar(4)]);
  }

  // ---------------------------------------------------------------- the declared structures

  // Bytes of the first i segments.
  function Sizes(segments: seq<Segment>, i: nat): nat
    requires i <= |segments|
  {
    if i == 0 then 0 else Sizes(segments, i - 1) + |segments[i - 1].data|
  }

  // Where segment i of a section at `at` lands in the flash.
  function DataAt(at: nat, segments: seq<Segment>, i: nat): nat
    requires i <= |segments|
  {
    at + 16 + 16 * |segments| + Sizes(segments, i)
  }

  function Header(at: nat, size: nat, b: Binary): Struct
  {
    Record(ROM_HEADER, WORDS, [Number(size), Number(|b.segments|), Number(b.entry), Number(0)], at)
  }

  // The header of segment i: its flash offset, load address, size, and number of 4K blocks.
  function SegmentHeader(at: nat, segments: seq<Segment>, i: nat): Struct
    requires i < |segments|
  {
    var g := segments[i];
    Record(SEGMENT_HEADER, WORDS,
           [Number(DataAt(at, segments, i)), Number(g.base), Number(|g.data|), Number((|g.data| + 4096 - 1) / 4096)],
           at + 16 + 16 * i)
  }

  function SegmentData(at: nat, segments: seq<Segment>, i: nat): Struct
    requires i < |segments|
  {
    Record(SEGMENT, [Array(|segments[i].data|)], [Data(segments[i].data)], DataAt(at, segments, i))
  }

  // As declared, before the fields are filled in.
  function BlankWords(names: seq<string>, at: nat): Struct
    requires |names| == 4
  {
    Record(names, WORDS, Initials(WORDS), at)
  }

  function BlankData(at: nat, segments: seq<Segment>, i: nat): Struct
    requires i < |segments|
  {
    Record(SEGMENT, [Array(|segments[i].data|)], Initials([Array(|segments[i].data|)]), DataAt(at, segments, i))
  }

  // h segment headers and d segments declared after the main header, the first f of each filled in.
  function Partly(main: Struct, at: nat, segments: seq<Segment>, h: nat, d: nat, f: nat): (r: seq<Struct>)
    requires h <= |segments| && d <= |segments|
    ensures |r| == 1 + h + d
  {
    [main]
    + seq(h, i requires 0 <= i < h =>
            if i < f then SegmentHeader(at, segments, i) else BlankWords(SEGMENT_HEADER, at + 16 + 16 * i))
    + seq(d, i requires 0 <= i < d => if i < f then SegmentData(at, segments, i) else BlankData(at, segments, i))
  }

  // The structures of a filled-in section.
  function RomStructs(at: nat, size: nat, binary: Option<Binary>): seq<Struct>
  {
    match binary
    case None => [Record(ROM_EMPTY, [Scalar(4)], [Number(size)], at)]
    case Some(b) =>
      var n := |b.segments|;
      Partly(Header(at, size, b), at, b.segments, n, n, n)
  }

  // ---------------------------------------------------------------- set_content

  lemma OneMoreHeader(main: Struct, at: nat, segments: seq<Segment>, h: nat)
    requires h < |segments|
    ensures Partly(main, at, segments, h + 1, 0, 0)
         == Partly(main, at, segments, h, 0, 0) + [BlankWords(SEGMENT_HEADER, at + 16 + 16 * h)]
  {
    hide BlankWords, SegmentHeader, SegmentData, BlankData;
  }

  lemma OneMoreSegment(main: Struct, at: nat, segments: seq<Segment>, d: nat)
    requires d < |segments|
    ensures Partly(main, at, segments, |segments|, d + 1, 0)
         == Partly(main, at, segments, |segments|, d, 0) + [BlankData(at, segments, d)]
  {
    hide BlankWords, SegmentHeader, SegmentData, BlankData;
  }

  lemma OneMoreFilled(main: Struct, at: nat, segments: seq<Segment>, f: nat)
    requires f < |segments|
    ensures var n, s := |segments|, Partly(main, at, segments, |segments|, |segments|, f);
            && s[1 + f] == BlankWords(SEGMENT_HEADER, at + 16 + 16 * f) && s[1 + n + f] == BlankData(at, segments, f)
            && s[1 + f := SegmentHeader(at, segments, f)][1 + n + f := SegmentData(at, segments, f)]
               == Partly(main, at, segments, n, n, f + 1)
  {
    hide BlankWords, SegmentHeader, SegmentData, BlankData;
    var n, s, t := |segments|, Partly(main, at, segments, |segments|, |segments|, f),
        Partly(main, at, segments, |segments|, |segments|, f + 1);
    var u := s[1 + f := SegmentHeader(at, segments, f)][1 + n + f := SegmentData(at, segments, f)];
    assert forall k :: 0 <= k < |u| ==> u[k] == t[k];
  }

  // A structure of four words whose first fields are set.
  function SomeWords(names: seq<string>, at: nat, v: seq<Value>): Struct
    requires |names| == 4 && |v| <= 4
  {
    Record(names, WORDS, v + Initials(WORDS)[|v|..], at)
  }

  /** Sets the first fields of a structure of four words, in order. */
  method SetWords(s: Section, j: nat, names: seq<string>, ghost at: nat, v: seq<Value>)
    requires |names| == 4 && DistinctNames(names) && |v| <= 4
    requires j < |s.structs| && s.structs[j] == BlankWords(names, at) && s.AsView().Valid()
    modifies s`structs
    ensures s.AsView() == old(s.AsView()).(structs := old(s.structs)[j := SomeWords(names, at, v)])
    ensures s.AsView().Valid()
  {
    hide Record, DistinctNames, Initials;
    ghost var b := s.structs;
    var k := 0;
    assert v[..0] + Initials(WORDS)[0..] == Initials(WORDS);
    assert b[j := b[j]] == b;
    while k < |v|
      invariant 0 <= k <= |v| && s.AsView().Valid()
      invariant s.AsView() == old(s.AsView()).(structs := b[j := SomeWords(names, at, v[..k])])
    {
      ghost var w := v[..k] + Initials(WORDS)[k..];
      SetIn(s, j, s.structs[j], names, WORDS, w, at, k, v[k]);
      assert w[k := v[k]] == v[..k + 1] + Initials(WORDS)[k + 1..];
      k := k + 1;
    }
    assert v[..k] == v;
  }

  // The section while its headers and segments are declared.
  ghost function Declaring(v: View, main: Struct, segments: seq<Segment>, h: nat, d: nat): View
    requires h <= |segments| && d <= |segments|
  {
    v.(structs := Partly(main, v.offset, segments, h, d, 0),
       current := v.offset + 16 + 16 * h + Sizes(segments, d))
  }

  method DeclareSegments(s: Section, ghost main: Struct, segments: seq<Segment>)
    requires s.AsView().Valid() && s.structs == [main] && s.currentOffset == s.offset + 16
    modifies s`structs, s`currentOffset
    ensures s.AsView().Valid()
    ensures s.AsView() == Declaring(old(s.AsView()), main, segments, |segments|, |segments|)
  {
    hide Record, DistinctNames, BlankWords, BlankData, SegmentHeader, SegmentData;
    NamesDiffer();
    WordsWidth();
    ghost var v := s.AsView();
    var h := 0;
    NoneDeclared(main, v.offset, segments);
    while h < |segments|
      invariant 0 <= h <= |segments| && s.AsView().Valid() && s.AsView() == Declaring(v, main, segments, h, 0)
    {
      OneMoreHeader(main, v.offset, segments, h);
      BlankIs(v.offset + 16 + 16 * h);
      DeclareStruct(s, SEGMENT_HEADER, WORDS);
      h := h + 1;
    }
    var d := 0;
    while d < |segments|
      invariant 0 <= d <= |segments| && s.AsView().Valid() && s.AsView() == Declaring(v, main, segments, |segments|, d)
    {
      OneMoreSegment(main, v.offset, segments, d);
      BlankDataIs(v.offset, segments, d);
      WidthOne(Array(|segments[d].data|));
      DeclareStruct(s, SEGMENT, [Array(|segments[d].data|)]);
      d := d + 1;
    }
  }

  lemma BlankIs(at: nat)
    ensures |WORDS| == 4 && BlankWords(SEGMENT_HEADER, at) == Record(SEGMENT_HEADER, WORDS, Initials(WORDS), at)
  {
  }

  lemma BlankDataIs(at: nat, segments: seq<Segment>, d: nat)
    requires d < |segments|
    ensures BlankData(at, segments, d)
         == Record(SEGMENT, [Array(|segments[d].data|)], Initials([Array(|segments[d].data|)]),
           at + 16 + 16 * |segments| + Sizes(segments, d))
  {
    hide Record, Initials, Sizes;
  }

  lemma NoneDeclared(main: Struct, at: nat, segments: seq<Segment>)
    ensures Partly(main, at, segments, 0, 0, 0) == [main] && Sizes(segments, 0) == 0
  {
  }

  // The per-segment loop: header fields, then content.
  method FillSegments(s: Section, ghost main: Struct, segments: seq<Segment>)
    requires s.AsView().Valid() && s.structs == Partly(main, s.offset, segments, |segments|, |segments|, 0)
    modifies s`structs
    ensures s.AsView().Valid()
    ensures s.AsView() == old(s.AsView()).(structs :=
             Partly(main, s.offset, segments, |segments|, |segments|, |segments|))
  {
    hide *;
    ghost var v := s.AsView();
    var f := 0;
    SectionFields(s, v);
    while f < |segments|
      invariant 0 <= f <= |segments| && s.AsView().Valid()
      invariant s.AsView() == v.(structs := Partly(main, v.offset, segments, |segments|, |segments|, f))
    {
      FillSegment(s, v, main, segments, f);
      f := f + 1;
    }
  }

  method FillSegment(s: Section, ghost v: View, ghost main: Struct, segments: seq<Segment>, f: nat)
    requires f < |segments| && s.AsView().Valid()
    requires s.AsView() == v.(structs := Partly(main, v.offset, segments, |segments|, |segments|, f))
    modifies s`structs
    ensures s.AsView().Valid()
    ensures s.AsView() == v.(structs := Partly(main, v.offset, segments, |segments|, |segments|, f + 1))
  {
    hide Record, DistinctNames, Initials, SegmentHeader, SegmentData, BlankWords, BlankData, Partly, SomeWords, Sizes;
    var n, g := |segments|, segments[f];
    NamesDiffer();
    OneMoreFilled(main, v.offset, segments, f);
    ghost var at, b := v.offset, s.structs;
    FourNames();
    FieldOffset(at, segments, f);
    // segment.get_field('data').get_offset()
    var dataOffset := s.structs[1 + n + f].fields[0].offset;
    var words := [Number(dataOffset), Number(g.base), Number(|g.data|), Number((|g.data| + 4096 - 1) / 4096)];
    SegmentHeaderIs(at, segments, f);
    SetWords(s, 1 + f, SEGMENT_HEADER, at + 16 + 16 * f, words);
    BlankDataIs(at, segments, f);
    SetIn(s, 1 + n + f, s.structs[1 + n + f], SEGMENT, [Array(|g.data|)], Initials([Array(|g.data|)]),
          DataAt(at, segments, f), 0, Data(g.data));
    SegmentDataIs(at, segments, f);
  }

  lemma FourNames()
    ensures |SEGMENT_HEADER| == 4 && |ROM_HEADER| == 4 && |SEGMENT| == 1 && SEGMENT[0] == "data" && |WORDS| == 4
  {
  }

  lemma FieldOffset(at: nat, segments: seq<Segment>, i: nat)
    requires i < |segments|
    ensures |BlankData(at, segments, i).fields| == 1
             && BlankData(at, segments, i).fields[0].offset == DataAt(at, segments, i)
  {
    hide Sizes, Initials;
    assert [Array(|segments[i].data|)][..0] == [];
  }

  lemma SegmentHeaderIs(at: nat, segments: seq<Segment>, i: nat)
    requires i < |segments|
    ensures var g := segments[i];
            SegmentHeader(at, segments, i)
            == SomeWords(SEGMENT_HEADER, at + 16 + 16 * i,
                         [Number(DataAt(at, segments, i)), Number(g.base), Number(|g.data|),
                           Number((|g.data| + 4096 - 1) / 4096)])
  {
    hide Sizes, Record, DataAt;
    var g := segments[i];
    var v := [Number(DataAt(at, segments, i)), Number(g.base), Number(|g.data|), Number((|g.data| + 4096 - 1) / 4096)];
    assert v + Initials(WORDS)[4..] == v;
  }

  lemma SegmentDataIs(at: nat, segments: seq<Segment>, i: nat)
    requires i < |segments|
    ensures |Initials([Array(|segments[i].data|)])| == 1
    ensures SegmentData(at, segments, i)
         == Record(SEGMENT, [Array(|segments[i].data|)],
           Initials([Array(|segments[i].data|)])[0 := Data(segments[i].data)], DataAt(at, segments, i))
  {
    hide Sizes, Record, DataAt;
    assert Initials([Array(|segments[i].data|)])[0 := Data(segments[i].data)] == [Data(segments[i].data)];
  }

  // Bytes declared for a binary, or for none.
  function Used(binary: Option<Binary>): nat
  {
    match binary case None => 4 case Some(b) => 16 + 16 * |b.segments| + Sizes(b.segments, |b.segments|)
  }

  // The filled-in section; None when it has no valid size.
  function Content(v: View, offset: nat, sizeProperty: Option<int>, binary: Option<Binary>): Option<View>
  {
    var at := Rounded(offset, v.startAlign);
    var sized := v.(offset := at, current := at + Used(binary), sizeProperty := sizeProperty);
    match sized.Size()
    case None => None
    case Some(n) => Some(sized.(structs := RomStructs(at, n, binary)))
  }

  /** set_content: declares everything, so that the offsets are known, and then fills it in. It
      fails exactly when the content does not fit the requested size. */
  method SetContent(s: Section, offset: nat, sizeProperty: Option<int>, binary: Option<Binary>) returns (ok: bool)
    requires |s.structs| == 0 && Alignment(s.startAlign) && Alignment(s.sizeAlign)
    modifies s
    ensures ok == Content(old(s.AsView()), offset, sizeProperty, binary).Some?
    ensures ok ==> s.AsView() == Content(old(s.AsView()), offset, sizeProperty, binary).value && s.AsView().Valid()
  {
    hide Record, Initials, RoundUp, Alignment, SizeFor, Sizes, Partly, BlankWords, SomeWords;
    NamesDiffer();
    WordsWidth();
    FourNames();
    s.SetContent(offset, sizeProperty);
    ghost var at := s.offset;
    if binary == None {
      WidthOne(Scalar(4));
      DeclareStruct(s, ROM_EMPTY, [Scalar(4)]);
      var size := s.GetSize();
      if size == None {
        return false;
      }
      SetIn(s, 0, s.structs[0], ROM_EMPTY, [Scalar(4)], Initials([Scalar(4)]), at, 0, Number(size.value));
      EmptyIs(at, size.value);
      return true;
    }
    var b := binary.value;
    DeclareStruct(s, ROM_HEADER, WORDS);
    BlankHeaderIs(at);
    ghost var blank := BlankWords(ROM_HEADER, at);
    DeclareSegments(s, blank, b.segments);
    var size := s.GetSize();
    if size == None {
      return false;
    }
    PartlyFirst(blank, Header(at, size.value, b), at, b.segments);
    SetWords(s, 0, ROM_HEADER, at, [Number(size.value), Number(|b.segments|), Number(b.entry)]);
    HeaderIs(at, size.value, b);
    FillSegments(s, Header(at, size.value, b), b.segments);
    return true;
  }

  lemma EmptyIs(at: nat, size: nat)
    ensures |Initials([Scalar(4)])| == 1
    ensures RomStructs(at, size, None) == [Record(ROM_EMPTY, [Scalar(4)], Initials([Scalar(4)])[0 := Number(size)], at)]
  {
    hide Record;
    assert Initials([Scalar(4)])[0 := Number(size)] == [Number(size)];
  }

  lemma BlankHeaderIs(at: nat)
    ensures BlankWords(ROM_HEADER, at) == Record(ROM_HEADER, WORDS, Initials(WORDS), at)
  {
  }

  lemma HeaderIs(at: nat, size: nat, b: Binary)
    ensures Header(at, size, b) == SomeWords(ROM_HEADER, at, [Number(size), Number(|b.segments|), Number(b.entry)])
  {
    hide Record;
    var v := [Number(size), Number(|b.segments|), Number(b.entry)];
    assert Initials(WORDS)[3..] == [Number(0)];
    assert v + [Number(0)] == [Number(size), Number(|b.segments|), Number(b.entry), Number(0)];
  }

  lemma PartlyFirst(a: Struct, b: Struct, at: nat, segments: seq<Segment>)
    ensures var n := |segments|;
            && Partly(a, at, segments, n, n, 0)[0] == a
            && Partly(a, at, segments, n, n, 0)[0 := b] == Partly(b, at, segments, n, n, 0)
  {
    hide SegmentHeader, SegmentData, BlankWords, BlankData;
  }

  // Where structure k of a filled-in section starts.
  function StructAt(at: nat, segments: seq<Segment>, k: nat): nat
    requires k <= 1 + 2 * |segments|
  {
    if k == 0 then at
    else if k <= |segments| then at + 16 * k
    else DataAt(at, segments, k - 1 - |segments|)
  }

  lemma StructLaid(at: nat, size: nat, b: Binary, k: nat)
    requires k < 1 + 2 * |b.segments|
    ensures var s := RomStructs(at, size, Some(b))[k];
            Laid(s, StructAt(at, b.segments, k)) && StructAt(at, b.segments, k + 1)
              == StructAt(at, b.segments, k) + s.size
  {
    hide Record, Laid, BlankWords, BlankData, Header, SegmentHeader, SegmentData, Sizes;
    var n, g := |b.segments|, b.segments;
    NoSizes(g);
    if k == 0 {
      HeaderLaid(at, size, b);
    } else if k <= n {
      SegmentHeaderLaid(at, g, k - 1);
    } else {
      SegmentDataLaid(at, g, k - 1 - n);
    }
  }

  lemma NoSizes(segments: seq<Segment>)
    ensures Sizes(segments, 0) == 0
  {
  }

  lemma HeaderLaid(at: nat, size: nat, b: Binary)
    ensures Laid(Header(at, size, b), at) && Header(at, size, b).size == 16
  {
    hide Width, Laid;
    WordsWidth();
    RecordLaid(ROM_HEADER, WORDS, [Number(size), Number(|b.segments|), Number(b.entry), Number(0)], at);
  }

  lemma SegmentHeaderLaid(at: nat, segments: seq<Segment>, i: nat)
    requires i < |segments|
    ensures Laid(SegmentHeader(at, segments, i), at + 16 + 16 * i) && SegmentHeader(at, segments, i).size == 16
  {
    hide Width, Laid, DataAt;
    WordsWidth();
    var g := segments[i];
    RecordLaid(SEGMENT_HEADER, WORDS,
               [Number(DataAt(at, segments, i)), Number(g.base), Number(|g.data|),
                 Number((|g.data| + 4096 - 1) / 4096)],
               at + 16 + 16 * i);
  }

  lemma SegmentDataLaid(at: nat, segments: seq<Segment>, i: nat)
    requires i < |segments|
    ensures Laid(SegmentData(at, segments, i), DataAt(at, segments, i))
    ensures SegmentData(at, segments, i).size == |segments[i].data|
    ensures DataAt(at, segments, i + 1) == DataAt(at, segments, i) + |segments[i].data|
  {
    hide Width, Laid;
    WidthOne(Array(|segments[i].data|));
    RecordLaid(SEGMENT, [Array(|segments[i].data|)], [Data(segments[i].data)], DataAt(at, segments, i));
  }

  lemma RomStacked(at: nat, size: nat, b: Binary)
    ensures Stacked(RomStructs(at, size, Some(b)), at)
    ensures EndOf(RomStructs(at, size, Some(b)), at) == at + Used(Some(b))
  {
    hide Record, Laid, BlankWords, BlankData, Width, SegmentHeader, SegmentData, Header, Sizes;
    var structs, n := RomStructs(at, size, Some(b)), 1 + 2 * |b.segments|;
    var offsets := seq(n + 1, k requires 0 <= k < n + 1 => StructAt(at, b.segments, k));
    forall k | 0 <= k < n ensures Laid(structs[k], offsets[k]) && offsets[k + 1] == offsets[k] + structs[k].size {
      StructLaid(at, size, b, k);
    }
    StackedAt(structs, offsets);
  }

  lemma EmptyStacked(at: nat, size: nat)
    ensures Stacked(RomStructs(at, size, None), at) && EndOf(RomStructs(at, size, None), at) == at + 4
  {
    hide Laid, Width;
    WidthOne(Scalar(4));
    RecordLaid(ROM_EMPTY, [Scalar(4)], [Number(size)], at);
    OneStruct(Record(ROM_EMPTY, [Scalar(4)], [Number(size)], at), at);
  }

  /** The section that set_content leaves is laid out without gaps, and has a size. */
  lemma ContentValid(v: View, offset: nat, sizeProperty: Option<int>, binary: Option<Binary>)
    requires Alignment(v.startAlign) && Alignment(v.sizeAlign)
    requires Content(v, offset, sizeProperty, binary).Some?
    ensures Content(v, offset, sizeProperty, binary).value.Valid()
    ensures Content(v, offset, sizeProperty, binary).value.Size().Some?
  {
    hide RomStructs, Stacked, EndOf, Rounded, SizeFor, Alignment, Used;
    var r := Content(v, offset, sizeProperty, binary).value;
    var at, n := r.offset, r.Size().value;
    EmptyStacked(at, n);
    UsedNothing();
    if binary.Some? {
      RomStacked(at, n, binary.value);
    }
  }

  lemma UsedNothing()
    ensures Used(None) == 4
  {
  }

  // ---------------------------------------------------------------- what a reader finds

  // The section set_content leaves.
  ghost predicate Filled(v: View, binary: Option<Binary>)
  {
    v.Valid() && v.Size().Some? && v.structs == RomStructs(v.offset, v.Size().value, binary)
  }

  // Everything the headers of a section at `at` must hold fits a 32-bit field.
  predicate FieldsFit(at: nat, size: nat, binary: Option<Binary>)
  {
    size < WORD32
    && match binary
       case None => true
       case Some(b) =>
         && |b.segments| < WORD32 && b.entry < WORD32
         && forall i :: 0 <= i < |b.segments| ==> SegmentFits(at, b.segments, i)
  }

  predicate SegmentFits(at: nat, segments: seq<Segment>, i: nat)
    requires i < |segments|
  {
    DataAt(at, segments, i) < WORD32 && segments[i].base < WORD32 && |segments[i].data| < WORD32
  }

  lemma FourPack(names: seq<string>, a: nat, b: nat, c: nat, d: nat, at: nat)
    requires |names| == 4
    ensures |WORDS| == 4
    ensures Pack(Record(names, WORDS, [Number(a), Number(b), Number(c), Number(d)], at)).Some?
       <==> a < WORD32 && b < WORD32 && c < WORD32 && d < WORD32
  {
    hide Record, Pack, PackItem;
    var v := [Number(a), Number(b), Number(c), Number(d)];
    RecordPacks(names, WORDS, v, at);
    WordPacks(a);
    WordPacks(b);
    WordPacks(c);
    WordPacks(d);
    var p := PackItem(Scalar(4), v[0]).Some? && PackItem(Scalar(4), v[1]).Some?
             && PackItem(Scalar(4), v[2]).Some? && PackItem(Scalar(4), v[3]).Some?;
    assert AllPack(WORDS, v) ==> p by {
      assert WORDS[0] == WORDS[1] == WORDS[2] == WORDS[3] == Scalar(4);
    }
    assert p ==> AllPack(WORDS, v);
  }

  lemma HeaderPacks(at: nat, size: nat, b: Binary)
    ensures Pack(Header(at, size, b)).Some? <==> size < WORD32 && |b.segments| < WORD32 && b.entry < WORD32
  {
    hide Record, Pack;
    FourNames();
    FourPack(ROM_HEADER, size, |b.segments|, b.entry, 0, at);
  }

  lemma SegmentHeaderPacks(at: nat, segments: seq<Segment>, i: nat)
    requires i < |segments|
    ensures Pack(SegmentHeader(at, segments, i)).Some? <==> SegmentFits(at, segments, i)
  {
    hide Record, Pack, DataAt;
    FourNames();
    var g := segments[i];
    FourPack(SEGMENT_HEADER, DataAt(at, segments, i), g.base, |g.data|, (|g.data| + 4096 - 1) / 4096, at + 16 + 16 * i);
  }

  lemma SegmentDataPacks(at: nat, segments: seq<Segment>, i: nat)
    requires i < |segments|
    ensures Pack(SegmentData(at, segments, i)).Some?
  {
    hide Record, Pack, PackItem, DataAt;
    var data := segments[i].data;
    RecordPacks(SEGMENT, [Array(|data|)], [Data(data)], DataAt(at, segments, i));
    ItemPacks(Array(|data|), Data(data));
  }

  lemma {:induction false} SizesBound(segments: seq<Segment>, i: nat)
    requires i < |segments|
    ensures Sizes(segments, i) + |segments[i].data| <= Sizes(segments, |segments|)
  {
    SizesGrow(segments, i + 1, |segments|);
  }

  lemma {:induction false} SizesGrow(segments: seq<Segment>, i: nat, j: nat)
    requires i <= j <= |segments|
    ensures Sizes(segments, i) <= Sizes(segments, j)
    decreases j
  {
    if i == j {
    } else {
      SizesGrow(segments, i, j - 1);
    }
  }

  lemma EmptyPacks(at: nat, size: nat)
    ensures EachPacks(RomStructs(at, size, None)) <==> size < WORD32
  {
    hide Record, Pack, PackItem;
    RecordPacks(ROM_EMPTY, [Scalar(4)], [Number(size)], at);
    WordPacks(size);
    var s := RomStructs(at, size, None);
    assert AllPack([Scalar(4)], [Number(size)]) <==> PackItem([Scalar(4)][0], [Number(size)][0]).Some?;
    assert EachPacks(s) <==> Pack(s[0]).Some?;
  }

  lemma BinaryPacks(at: nat, size: nat, b: Binary)
    ensures EachPacks(RomStructs(at, size, Some(b))) <==> FieldsFit(at, size, Some(b))
  {
    hide Record, Pack, Header, SegmentHeader, SegmentData, BlankWords, BlankData, SegmentFits;
    var s, n := RomStructs(at, size, Some(b)), |b.segments|;
    HeaderPacks(at, size, b);
    forall i | 0 <= i < n
      ensures s[1 + i] == SegmentHeader(at, b.segments, i) && s[1 + n + i] == SegmentData(at, b.segments, i)
      ensures Pack(s[1 + i]).Some? <==> SegmentFits(at, b.segments, i)
      ensures Pack(s[1 + n + i]).Some?
    {
      SegmentHeaderPacks(at, b.segments, i);
      SegmentDataPacks(at, b.segments, i);
    }
    assert s[0] == Header(at, size, b);
    if EachPacks(s) {
      forall i | 0 <= i < n ensures SegmentFits(at, b.segments, i) {
        assert Pack(s[1 + i]).Some?;
      }
    }
    if FieldsFit(at, size, Some(b)) {
      forall k | 0 <= k < |s| ensures Pack(s[k]).Some? {
        if 1 <= k <= n {
          assert Pack(s[1 + (k - 1)]).Some?;
        } else if n < k {
          assert Pack(s[1 + n + (k - 1 - n)]).Some?;
        }
      }
    }
  }

  // Below 2^32 only the entry and the load addresses can be too large.
  lemma SmallFits(at: nat, size: nat, b: Binary)
    requires Used(Some(b)) <= size && at + size < WORD32
    ensures FieldsFit(at, size, Some(b))
       <==> b.entry < WORD32 && forall k :: 0 <= k < |b.segments| ==> b.segments[k].base < WORD32
  {
    hide Sizes;
    var g := b.segments;
    forall i | 0 <= i < |g| ensures SegmentFits(at, g, i) <==> g[i].base < WORD32 {
      SizesBound(g, i);
    }
    if FieldsFit(at, size, Some(b)) {
      forall k | 0 <= k < |g| ensures g[k].base < WORD32 {
        assert SegmentFits(at, g, k);
      }
    }
  }

  /** There is an image of the section exactly when its size, the segment count, the entry and,
      for every segment, its flash offset, load address and size fit their 32-bit fields. */
  lemma ImageExists(v: View, binary: Option<Binary>)
    requires Filled(v, binary)
    ensures v.Image().Some? <==> FieldsFit(v.offset, v.Size().value, binary)
  {
    hide RomStructs, EachPacks, SizeFor, ImageFor, Stacked, EndOf, Alignment, SegmentFits;
    ImageWhen(v);
    EmptyPacks(v.offset, v.Size().value);
    if binary.Some? {
      BinaryPacks(v.offset, v.Size().value, binary.value);
    }
  }

  // A filled-in section for a binary whose values fit.
  ghost predicate Holds(v: View, b: Binary)
  {
    Filled(v, Some(b)) && FieldsFit(v.offset, v.Size().value, Some(b))
  }

  lemma HoldsParts(v: View, b: Binary, i: nat)
    requires Filled(v, Some(b))
    ensures |v.structs| == 1 + 2 * |b.segments| && v.structs[0] == Header(v.offset, v.Size().value, b)
    ensures i < |b.segments| ==>
              && v.structs[1 + i] == SegmentHeader(v.offset, b.segments, i)
              && v.structs[1 + |b.segments| + i] == SegmentData(v.offset, b.segments, i)
  {
    hide Header, SegmentHeader, SegmentData, BlankWords, BlankData, SizeFor, ImageFor;
  }

  /** The main header gives the size of the section, the number of segments and the entry. */
  lemma RomHeaderReadsBack(v: View, b: Binary)
    requires Holds(v, b)
    ensures v.Image().Some?
    ensures var image := v.Image().value;
            && |image| == v.Size().value && |image| >= 16
            && Read32(image, 0) == |image| && Read32(image, 4) == |b.segments| && Read32(image, 8) == b.entry
            && Read32(image, 12) == 0
  {
    hide *;
    HoldsMeans(v, b);
    HoldsParts(v, b, 0);
    HeaderMeans(v.offset, v.Size().value, b);
    WordsWidth();
    var values := [Number(v.Size().value), Number(|b.segments|), Number(b.entry), Number(0)];
    WordLands(v, 0, ROM_HEADER, WORDS, values, v.offset, 0, v.Size().value);
    WordLands(v, 0, ROM_HEADER, WORDS, values, v.offset, 1, |b.segments|);
    WordLands(v, 0, ROM_HEADER, WORDS, values, v.offset, 2, b.entry);
    WordLands(v, 0, ROM_HEADER, WORDS, values, v.offset, 3, 0);
    ImageFits(v);
  }

  /** An empty ROM holds nothing but its size. */
  lemma EmptyReadsBack(v: View)
    requires Filled(v, None) && v.Size().value < WORD32
    ensures v.Image().Some? && |v.Image().value| == v.Size().value >= 4
    ensures Read32(v.Image().value, 0) == |v.Image().value|
  {
    hide Stacked, EndOf, PackStructs, SizeFor, ImageFor, Record, Alignment;
    ImageExists(v, None);
    var n := v.Size().value;
    NamesDiffer();
    EmptyStruct(v.offset, n);
    WordLands(v, 0, ROM_EMPTY, [Scalar(4)], [Number(n)], v.offset, 0, n);
    PacksOf(v);
    ImageFits(v);
  }

  lemma EmptyStruct(at: nat, size: nat)
    ensures RomStructs(at, size, None) == [Record(ROM_EMPTY, [Scalar(4)], [Number(size)], at)] && |ROM_EMPTY| == 1
  {
  }

  lemma PacksOf(v: View)
    requires v.Image().Some?
    ensures PackStructs(v.structs).Some?
  {
  }

  lemma HoldsMeans(v: View, b: Binary)
    requires Holds(v, b)
    ensures Filled(v, Some(b)) && v.Valid() && v.Image().Some? && v.Size().Some? && PackStructs(v.structs).Some?
  {
    hide PackStructs, SizeFor, Stacked, EndOf, RomStructs, FieldsFit, Alignment;
    ImageExists(v, Some(b));
  }

  lemma HeaderMeans(at: nat, size: nat, b: Binary)
    ensures |ROM_HEADER| == 4 && |WORDS| == 4 && forall k :: 0 <= k < 4 ==> WORDS[k] == Scalar(4)
    ensures Header(at, size, b) == Record(ROM_HEADER, WORDS,
             [Number(size), Number(|b.segments|), Number(b.entry), Number(0)], at)
  {
    hide Record;
  }

  lemma SegmentMeans(at: nat, segments: seq<Segment>, i: nat)
    requires i < |segments|
    ensures |SEGMENT_HEADER| == 4 && |WORDS| == 4 && |SEGMENT| == 1 && forall k :: 0 <= k < 4 ==> WORDS[k] == Scalar(4)
    ensures var g := segments[i];
            && SegmentHeader(at, segments, i)
               == Record(SEGMENT_HEADER, WORDS,
                         [Number(DataAt(at, segments, i)), Number(g.base), Number(|g.data|),
                           Number((|g.data| + 4096 - 1) / 4096)],
                         at + 16 + 16 * i)
            && SegmentData(at, segments, i) == Record(SEGMENT, [Array(|g.data|)], [Data(g.data)],
              DataAt(at, segments, i))
  {
    hide Record, DataAt;
  }

  /** The header of every segment gives its load address, its size and its number of 4K blocks,
      and its flash offset and size select exactly its data. */
  lemma SegmentReadsBack(v: View, b: Binary, i: nat)
    requires Holds(v, b) && i < |b.segments|
    ensures v.Image().Some?
    ensures var image, g, h := v.Image().value, b.segments[i], 16 + 16 * i;
            && h + 16 <= |image|
            && Read32(image, h + 4) == g.base && Read32(image, h + 8) == |g.data|
            && Read32(image, h + 12) == (|g.data| + 4095) / 4096
            && var at := Read32(image, h);
               v.offset <= at && at - v.offset + |g.data| <= |image|
                 && image[at - v.offset..at - v.offset + |g.data|] == g.data
  {
    hide *;
    var g, at, n := b.segments[i], v.offset + 16 + 16 * i, |b.segments|;
    HoldsMeans(v, b);
    HoldsParts(v, b, i);
    SegmentMeans(v.offset, b.segments, i);
    WordsWidth();
    var values := [Number(DataAt(v.offset, b.segments, i)), Number(g.base), Number(|g.data|),
        Number((|g.data| + 4096 - 1) / 4096)];
    WordLands(v, 1 + i, SEGMENT_HEADER, WORDS, values, at, 0, DataAt(v.offset, b.segments, i));
    WordLands(v, 1 + i, SEGMENT_HEADER, WORDS, values, at, 1, g.base);
    WordLands(v, 1 + i, SEGMENT_HEADER, WORDS, values, at, 2, |g.data|);
    WordLands(v, 1 + i, SEGMENT_HEADER, WORDS, values, at, 3, (|g.data| + 4096 - 1) / 4096);
    DataLands(v, 1 + n + i, b.segments, i);
  }

  lemma DataLands(v: View, j: nat, segments: seq<Segment>, i: nat)
    requires v.Valid() && v.Image().Some? && j < |v.structs| && i < |segments|
    requires v.structs[j] == SegmentData(v.offset, segments, i)
    ensures var x, image, data := DataAt(v.offset, segments, i), v.Image().value, segments[i].data;
            v.offset <= x && x - v.offset + |data| <= |image| && image[x - v.offset..x - v.offset + |data|] == data
  {
    hide Stacked, EndOf, SizeFor, ImageFor, Sizes, Record, PackItem;
    var data := segments[i].data;
    SegmentMeans(v.offset, segments, i);
    RecordLands(v, j, SEGMENT, [Array(|data|)], [Data(data)], DataAt(v.offset, segments, i), 0);
    WholeArray(data);
    assert [Array(|data|)][..0] == [];
    WidthNone();
  }

  lemma WholeArray(data: seq<nat>)
    ensures PackItem(Array(|data|), Data(data)) == Some(data)
  {
    assert data[..|data|] == data;
  }
}
