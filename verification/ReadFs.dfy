/** The ReadFS section: a file-system image and a reader for it. */
module ReadFs {
  import opened Bits
  import opened Buffers
  import opened Structs
  import opened FlashSection

  // A file of the image: its name as code points, and its content.
  datatype File = File(name: seq<nat>, data: seq<nat>)

  const FS_HEADER: seq<string> := ["fs_size", "nb_files"]
  const FS_FORMATS: seq<Format> := [Scalar(8), Scalar(4)]
  const FILE_HEADER: seq<string> := ["offset", "file_size", "name_len", "name"]
  const FILE: seq<string> := ["data"]

  function FileFormats(f: File): (r: seq<Format>)
    ensures |r| == 4
  {
    [Scalar(4), Scalar(4), Scalar(4), Array(|f.name| + 1)]
  }

  lemma NamesDiffer()
    ensures DistinctNames(FS_HEADER) && DistinctNames(FILE_HEADER) && DistinctNames(FILE)
    ensures |FS_HEADER| == |FS_FORMATS| == 2 && |FILE_HEADER| == 4 && |FILE| == 1
  {
    assert |"offset"| != |"file_size"| && |"name"| != |"offset"|;
  }

  lemma HeaderWidths(f: File)
    ensures Width(FS_FORMATS) == 12 && Width(FS_FORMATS[..0]) == 0 && Width(FS_FORMATS[..1]) == 8
    ensures Width(FileFormats(f)) == 13 + |f.name|
    ensures Width(FileFormats(f)[..0]) == 0 && Width(FileFormats(f)[..1]) == 4 && Width(FileFormats(f)[..2]) == 8
    ensures Width(FileFormats(f)[..3]) == 12
  {
    WidthOne(Scalar(8));
    WidthOne(Scalar(4));
    var last := Array(|f.name| + 1);
    WidthOne(last);
    assert FS_FORMATS[..0] == [] && FS_FORMATS[..1] == [Scalar(8)] && FS_FORMATS == [Scalar(8)] + [Scalar(4)];
    WidthAppend([Scalar(8)], [Scalar(4)]);
    var w := FileFormats(f);
    assert w[..0] == [] && w[..1] == [Scalar(4)] && w[..2] == w[..1] + [Scalar(4)];
    WidthAppend(w[..1], [Scalar(4)]);
    assert w[..3] == w[..2] + [Scalar(4)] && w == w[..3] + [last];
    WidthAppend(w[..2], [Scalar(4)]);
    WidthAppend(w[..3], [last]);
  }

  // ---------------------------------------------------------------- names

  // filename.encode('utf-8'), section 3 of RFC 3629
  function EncodeChar(c: nat): seq<nat>
  {
    if c < 0x80 then [c]
    else if c < 0x800 then [0xC0 + c / 64, 0x80 + c % 64]
    else if c < 0x1_0000 then [0xE0 + c / 4096, 0x80 + c / 64 % 64, 0x80 + c % 64]
    else [0xF0 + c / 262144, 0x80 + c / 4096 % 64, 0x80 + c / 64 % 64, 0x80 + c % 64]
  }

  function Utf8(name: seq<nat>): seq<nat>
  {
    if |name| == 0 then [] else EncodeChar(name[0]) + Utf8(name[1..])
  }

  /** The four examples of section 7 of RFC 3629 with one, two, three and four bytes a character. */
  lemma StandardExamples()
    ensures Utf8([0x41, 0x2262, 0x0391, 0x2E]) == [0x41, 0xE2, 0x89, 0xA2, 0xCE, 0x91, 0x2E]
    ensures Utf8([0x2_33B4]) == [0xF0, 0xA3, 0x8E, 0xB4]
  {
    assert Utf8([0x2E]) == [0x2E];
    assert Utf8([0x0391, 0x2E]) == [0xCE, 0x91] + Utf8([0x2E]);
    assert Utf8([0x2262, 0x0391, 0x2E]) == [0xE2, 0x89, 0xA2] + Utf8([0x0391, 0x2E]);
    assert Utf8([0x41, 0x2262, 0x0391, 0x2E]) == [0x41] + Utf8([0x2262, 0x0391, 0x2E]);
    assert EncodeChar(0x2_33B4) == [0xF0, 0xA3, 0x8E, 0xB4];
    assert Utf8([0x2_33B4]) == EncodeChar(0x2_33B4) + Utf8([]);
  }

  predicate NulFree(name: seq<nat>)
  {
    forall i :: 0 <= i < |name| ==> 0 < name[i] < 0x11_0000
  }

  predicate Ascii(name: seq<nat>)
  {
    forall i :: 0 <= i < |name| ==> name[i] < 0x80
  }

  /** The encoding has as many bytes as the name has characters exactly for ASCII names. */
  lemma {:induction false} Utf8Length(name: seq<nat>)
    requires NulFree(name)
    ensures |Utf8(name)| >= |name| && (|Utf8(name)| == |name| <==> Ascii(name))
    ensures Ascii(name) ==> Utf8(name) == name
    ensures forall i :: 0 <= i < |Utf8(name)| ==> 0 < Utf8(name)[i] < 256
  {
    if |name| == 0 {
    } else {
      var rest := name[1..];
      Utf8Length(rest);
      CharLength(name[0]);
      assert Ascii(name) <==> name[0] < 0x80 && Ascii(rest) by {
        assert forall i :: 0 < i < |name| ==> name[i] == rest[i - 1];
      }
    }
  }

  lemma CharLength(c: nat)
    requires 0 < c < 0x11_0000
    ensures |EncodeChar(c)| >= 1 && (|EncodeChar(c)| == 1 <==> c < 0x80) && (c < 0x80 ==> EncodeChar(c) == [c])
    ensures forall i :: 0 <= i < |EncodeChar(c)| ==> 0 < EncodeChar(c)[i] < 256
  {
  }

  // The bytes of the name field: it is sized in characters and filled with the encoding.
  function NameField(name: seq<nat>): seq<nat>
  {
    var b := Utf8(name) + [0];
    if |b| >= |name| + 1 then b[..|name| + 1] else b + Zeros(|name| + 1 - |b|)
  }

  lemma {:induction false} CStringNone(b: seq<nat>, at: nat)
    requires forall i :: at <= i < |b| ==> b[i] != 0
    ensures CString(b, at) == None
    decreases |b| - at
  {
    if at >= |b| {
    } else {
      CStringNone(b, at + 1);
    }
  }

  /** The name field holds the terminated name exactly for ASCII names; for any other the
      terminator is cut off. */
  lemma NameReadsBack(name: seq<nat>)
    requires NulFree(name)
    ensures |NameField(name)| == |name| + 1
    ensures CString(NameField(name), 0) == if Ascii(name) then Some(name) else None
  {
    Utf8Length(name);
    var b := NameField(name);
    if Ascii(name) {
      assert b == name + [0];
      CStringReads(b, 0, name);
    } else {
      assert forall i :: 0 <= i < |b| ==> b[i] == Utf8(name)[i];
      CStringNone(b, 0);
    }
  }

  // ---------------------------------------------------------------- the declared structures

  // Bytes of the first i file headers, and of the first i contents.
  function Headers(files: seq<File>, i: nat): nat
    requires i <= |files|
  {
    if i == 0 then 0 else Headers(files, i - 1) + 13 + |files[i - 1].name|
  }

  function Sizes(files: seq<File>, i: nat): nat
    requires i <= |files|
  {
    if i == 0 then 0 else Sizes(files, i - 1) + |files[i - 1].data|
  }

  // Where file i's content is, counted from the start of the section.
  function DataAt(files: seq<File>, i: nat): nat
    requires i <= |files|
  {
    12 + Headers(files, |files|) + Sizes(files, i)
  }

  function FsValues(files: seq<File>): (r: seq<Value>)
    ensures |r| == 2
  {
    [Number(12 + Headers(files, |files|)), Number(|files|)]
  }

  function FsHeader(at: nat, files: seq<File>): Struct
  {
    Record(FS_HEADER, FS_FORMATS, FsValues(files), at)
  }

  function HeaderValues(files: seq<File>, i: nat): (r: seq<Value>)
    requires i < |files|
    ensures |r| == 4
  {
    var f := files[i];
    [Number(DataAt(files, i)), Number(|f.data|), Number(|f.name| + 1), Data(Utf8(f.name) + [0])]
  }

  function FileHeader(at: nat, files: seq<File>, i: nat): Struct
    requires i < |files|
  {
    Record(FILE_HEADER, FileFormats(files[i]), HeaderValues(files, i), at + 12 + Headers(files, i))
  }

  function FileData(at: nat, files: seq<File>, i: nat): Struct
    requires i < |files|
  {
    Record(FILE, [Array(|files[i].data|)], [Data(files[i].data)], at + DataAt(files, i))
  }

  function BlankHeader(at: nat, files: seq<File>, i: nat): Struct
    requires i < |files|
  {
    Record(FILE_HEADER, FileFormats(files[i]), Initials(FileFormats(files[i])), at + 12 + Headers(files, i))
  }

  function BlankData(at: nat, files: seq<File>, i: nat): Struct
    requires i < |files|
  {
    Record(FILE, [Array(|files[i].data|)], Initials([Array(|files[i].data|)]), at + DataAt(files, i))
  }

  // h file headers and d contents declared after the main header, the first f of each filled in.
  function Partly(main: Struct, at: nat, files: seq<File>, h: nat, d: nat, f: nat): (r: seq<Struct>)
    requires h <= |files| && d <= |files|
    ensures |r| == 1 + h + d
  {
    [main]
    + seq(h, i requires 0 <= i < h => if i < f then FileHeader(at, files, i) else BlankHeader(at, files, i))
    + seq(d, i requires 0 <= i < d => if i < f then FileData(at, files, i) else BlankData(at, files, i))
  }

  function FsStructs(at: nat, files: seq<File>): seq<Struct>
  {
    var n := |files|;
    Partly(FsHeader(at, files), at, files, n, n, n)
  }

  lemma OneMoreHeader(main: Struct, at: nat, files: seq<File>, h: nat)
    requires h < |files|
    ensures Partly(main, at, files, h + 1, 0, 0) == Partly(main, at, files, h, 0, 0) + [BlankHeader(at, files, h)]
  {
    hide BlankHeader, FileHeader, FileData, BlankData;
  }

  lemma OneMoreFile(main: Struct, at: nat, files: seq<File>, d: nat)
    requires d < |files|
    ensures Partly(main, at, files, |files|, d + 1, 0)
             == Partly(main, at, files, |files|, d, 0) + [BlankData(at, files, d)]
  {
    hide BlankHeader, FileHeader, FileData, BlankData;
  }

  lemma OneMoreFilled(main: Struct, at: nat, files: seq<File>, f: nat)
    requires f < |files|
    ensures var n, s := |files|, Partly(main, at, files, |files|, |files|, f);
            && s[1 + f] == BlankHeader(at, files, f) && s[1 + n + f] == BlankData(at, files, f)
            && s[1 + f := FileHeader(at, files, f)][1 + n + f := FileData(at, files, f)]
               == Partly(main, at, files, n, n, f + 1)
  {
    hide BlankHeader, FileHeader, FileData, BlankData;
    var n, s, t := |files|, Partly(main, at, files, |files|, |files|, f),
        Partly(main, at, files, |files|, |files|, f + 1);
    var u := s[1 + f := FileHeader(at, files, f)][1 + n + f := FileData(at, files, f)];
    assert forall k :: 0 <= k < |u| ==> u[k] == t[k];
  }

  lemma PartlyFirst(a: Struct, b: Struct, at: nat, files: seq<File>)
    ensures var n := |files|;
            && Partly(a, at, files, n, n, 0)[0] == a
            && Partly(a, at, files, n, n, 0)[0 := b] == Partly(b, at, files, n, n, 0)
  {
    hide BlankHeader, FileHeader, FileData, BlankData, Headers, Sizes;
    var n := |files|;
    var s, t := Partly(a, at, files, n, n, 0), Partly(b, at, files, n, n, 0);
    assert s[0] == a;
    assert forall k :: 0 < k < |s| ==> s[k] == t[k];
  }

  lemma NoneDeclared(main: Struct, at: nat, files: seq<File>)
    ensures Partly(main, at, files, 0, 0, 0) == [main] && Headers(files, 0) == 0 && Sizes(files, 0) == 0
  {
    hide BlankHeader, FileHeader, FileData, BlankData;
  }

  // ---------------------------------------------------------------- set_content

  // The section while its headers and files are declared.
  ghost function Declaring(v: View, main: Struct, files: seq<File>, h: nat, d: nat): View
    requires h <= |files| && d <= |files|
  {
    v.(structs := Partly(main, v.offset, files, h, d, 0),
      current := v.offset + 12 + Headers(files, h) + Sizes(files, d))
  }

  method DeclareFiles(s: Section, ghost main: Struct, files: seq<File>)
    requires s.AsView().Valid() && s.structs == [main] && s.currentOffset == s.offset + 12
    modifies s`structs, s`currentOffset
    ensures s.AsView().Valid()
    ensures s.AsView() == Declaring(old(s.AsView()), main, files, |files|, |files|)
  {
    hide Record, DistinctNames, BlankHeader, BlankData, FileHeader, FileData, Width, Initials, FileFormats;
    NamesDiffer();
    ghost var v := s.AsView();
    var h := 0;
    NoneDeclared(main, v.offset, files);
    while h < |files|
      invariant 0 <= h <= |files| && s.AsView().Valid() && s.AsView() == Declaring(v, main, files, h, 0)
    {
      OneMoreHeader(main, v.offset, files, h);
      BlankHeaderIs(v.offset, files, h);
      HeaderWidths(files[h]);
      DeclareStruct(s, FILE_HEADER, FileFormats(files[h]));
      h := h + 1;
    }
    var d := 0;
    while d < |files|
      invariant 0 <= d <= |files| && s.AsView().Valid() && s.AsView() == Declaring(v, main, files, |files|, d)
    {
      OneMoreFile(main, v.offset, files, d);
      BlankDataIs(v.offset, files, d);
      WidthOne(Array(|files[d].data|));
      DeclareStruct(s, FILE, [Array(|files[d].data|)]);
      d := d + 1;
    }
  }

  lemma BlankHeaderIs(at: nat, files: seq<File>, h: nat)
    requires h < |files|
    ensures BlankHeader(at, files, h)
         == Record(FILE_HEADER, FileFormats(files[h]), Initials(FileFormats(files[h])), at + 12 + Headers(files, h))
  {
    hide Record, Initials, Headers, FileFormats;
  }

  lemma BlankDataIs(at: nat, files: seq<File>, d: nat)
    requires d < |files|
    ensures BlankData(at, files, d)
         == Record(FILE, [Array(|files[d].data|)], Initials([Array(|files[d].data|)]),
                   at + 12 + Headers(files, |files|) + Sizes(files, d))
  {
    hide Record, Initials, Headers, Sizes;
  }

  // header.get_size() plus that of every file header
  method HeaderSize(s: Section, ghost main: Struct, files: seq<File>) returns (size: nat)
    requires s.structs == Partly(main, s.offset, files, |files|, |files|, 0) && main.size == 12
    ensures size == 12 + Headers(files, |files|)
  {
    hide BlankData, FileHeader, FileData, BlankHeader;
    size := s.structs[0].size;
    var i := 0;
    while i < |files|
      invariant 0 <= i <= |files| && size == 12 + Headers(files, i)
    {
      BlankHeaderSize(s.offset, files, i);
      size := size + s.structs[1 + i].size;
      i := i + 1;
    }
  }

  lemma BlankHeaderSize(at: nat, files: seq<File>, i: nat)
    requires i < |files|
    ensures BlankHeader(at, files, i).size == 13 + |files[i].name|
  {
    hide Width, Initials, FileFormats, Headers;
    HeaderWidths(files[i]);
  }

  method FillFiles(s: Section, ghost main: Struct, files: seq<File>)
    requires s.AsView().Valid() && s.structs == Partly(main, s.offset, files, |files|, |files|, 0)
    modifies s`structs
    ensures s.AsView().Valid()
    ensures s.AsView() == old(s.AsView()).(structs := Partly(main, s.offset, files, |files|, |files|, |files|))
  {
    hide *;
    ghost var v := s.AsView();
    var f := 0;
    SectionFields(s, v);
    while f < |files|
      invariant 0 <= f <= |files| && s.AsView().Valid()
      invariant s.AsView() == v.(structs := Partly(main, v.offset, files, |files|, |files|, f))
    {
      FillFile(s, v, main, files, f);
      f := f + 1;
    }
  }

  method FillFile(s: Section, ghost v: View, ghost main: Struct, files: seq<File>, f: nat)
    requires f < |files| && s.AsView().Valid()
    requires s.AsView() == v.(structs := Partly(main, v.offset, files, |files|, |files|, f))
    modifies s`structs
    ensures s.AsView().Valid()
    ensures s.AsView() == v.(structs := Partly(main, v.offset, files, |files|, |files|, f + 1))
  {
    hide Record, DistinctNames, Initials, FileHeader, FileData, BlankHeader, BlankData, Partly, Headers, Sizes, Utf8,
         HeaderValues, FileFormats;
    var n, g := |files|, files[f];
    NamesDiffer();
    OneMoreFilled(main, v.offset, files, f);
    ghost var at := v.offset;
    DataOffset(at, files, f);
    BlankHeaderIs(at, files, f);
    // file.get_offset() - self.get_offset()
    var offset := s.structs[1 + n + f].fields[0].offset - s.offset;
    var values := [Number(offset), Number(|g.data|), Number(|g.name| + 1), Data(Utf8(g.name) + [0])];
    HeaderValuesAre(files, f);
    SetFileHeader(s, 1 + f, g, at + 12 + Headers(files, f), values);
    FileHeaderIs(at, files, f);
    BlankDataIs(at, files, f);
    SetIn(s, 1 + n + f, s.structs[1 + n + f], FILE, [Array(|g.data|)], Initials([Array(|g.data|)]),
          at + DataAt(files, f), 0, Data(g.data));
    FileDataIs(at, files, f);
  }

  method SetFileHeader(s: Section, j: nat, g: File, ghost at: nat, v: seq<Value>)
    requires |v| == 4 && |FILE_HEADER| == 4 && DistinctNames(FILE_HEADER) && s.AsView().Valid()
    requires j < |s.structs| && s.structs[j] == Record(FILE_HEADER, FileFormats(g), Initials(FileFormats(g)), at)
    modifies s`structs
    ensures s.AsView() == old(s.AsView()).(structs := old(s.structs)[j := Record(FILE_HEADER, FileFormats(g), v, at)])
    ensures s.AsView().Valid()
  {
    hide Record, DistinctNames, Initials, FileFormats;
    ghost var b, w := s.structs, Initials(FileFormats(g));
    var k := 0;
    assert v[..0] + w[0..] == w;
    assert b[j := b[j]] == b;
    while k < 4
      invariant 0 <= k <= 4 && s.AsView().Valid()
      invariant s.AsView() == old(s.AsView()).(structs :=
                b[j := Record(FILE_HEADER, FileFormats(g), v[..k] + w[k..], at)])
    {
      SetIn(s, j, s.structs[j], FILE_HEADER, FileFormats(g), v[..k] + w[k..], at, k, v[k]);
      assert (v[..k] + w[k..])[k := v[k]] == v[..k + 1] + w[k + 1..];
      k := k + 1;
    }
    assert v[..4] + w[4..] == v;
  }

  lemma DataOffset(at: nat, files: seq<File>, i: nat)
    requires i < |files|
    ensures |BlankData(at, files, i).fields| == 1 && BlankData(at, files, i).fields[0].offset == at + DataAt(files, i)
  {
    hide Sizes, Headers, Initials;
    assert [Array(|files[i].data|)][..0] == [];
  }

  lemma HeaderValuesAre(files: seq<File>, i: nat)
    requires i < |files|
    ensures var f := files[i];
            HeaderValues(files, i)
            == [Number(DataAt(files, i)), Number(|f.data|), Number(|f.name| + 1), Data(Utf8(f.name) + [0])]
  {
  }

  lemma FileHeaderIs(at: nat, files: seq<File>, i: nat)
    requires i < |files|
    ensures FileHeader(at, files, i)
         == Record(FILE_HEADER, FileFormats(files[i]), HeaderValues(files, i), at + 12 + Headers(files, i))
  {
    hide Record, HeaderValues, FileFormats, Headers;
  }

  lemma FileDataIs(at: nat, files: seq<File>, i: nat)
    requires i < |files|
    ensures |Initials([Array(|files[i].data|)])| == 1
    ensures FileData(at, files, i)
         == Record(FILE, [Array(|files[i].data|)], Initials([Array(|files[i].data|)])[0 := Data(files[i].data)],
           at + DataAt(files, i))
    ensures FileData(at, files, i) == Record(FILE, [Array(|files[i].data|)], [Data(files[i].data)],
             at + DataAt(files, i))
  {
    hide Record, DataAt;
    assert Initials([Array(|files[i].data|)])[0 := Data(files[i].data)] == [Data(files[i].data)];
  }

  // The filled-in section.
  function Content(v: View, offset: nat, sizeProperty: Option<int>, files: seq<File>): View
  {
    var at := Rounded(offset, v.startAlign);
    v.(offset := at, current := at + DataAt(files, |files|), sizeProperty := sizeProperty,
      structs := FsStructs(at, files))
  }

  /** set_content: declares the headers and files, so that the offsets are known, and then fills
      them in. */
  method SetContent(s: Section, offset: nat, sizeProperty: Option<int>, files: seq<File>)
    requires |s.structs| == 0 && Alignment(s.startAlign) && Alignment(s.sizeAlign)
    modifies s
    ensures s.AsView() == Content(old(s.AsView()), offset, sizeProperty, files) && s.AsView().Valid()
  {
    hide Record, Initials, RoundUp, Alignment, Headers, Sizes, Partly, Width;
    NamesDiffer();
    s.SetContent(offset, sizeProperty);
    ghost var at := s.offset;
    HeaderWidths(File([], []));
    DeclareStruct(s, FS_HEADER, FS_FORMATS);
    ghost var blank := s.structs[0];
    RecordSize(at);
    DeclareFiles(s, blank, files);
    var headerSize := HeaderSize(s, blank, files);
    ghost var header := FsHeader(at, files);
    PartlyFirst(blank, header, at, files);
    ghost var w := Initials(FS_FORMATS);
    SetIn(s, 0, s.structs[0], FS_HEADER, FS_FORMATS, w, at, 0, Number(headerSize));
    SetIn(s, 0, s.structs[0], FS_HEADER, FS_FORMATS, w[0 := Number(headerSize)], at, 1, Number(|files|));
    FsValuesAre(files);
    assert w[0 := Number(headerSize)][1 := Number(|files|)] == FsValues(files);
    assert s.structs == Partly(header, at, files, |files|, |files|, 0);
    FillFiles(s, header, files);
  }

  lemma RecordSize(at: nat)
    ensures |FS_HEADER| == |FS_FORMATS|
    ensures Record(FS_HEADER, FS_FORMATS, Initials(FS_FORMATS), at).size == 12
  {
    hide Width;
    HeaderWidths(File([], []));
  }

  // Where structure k of a filled-in section starts.
  function StructAt(at: nat, files: seq<File>, k: nat): nat
    requires k <= 1 + 2 * |files|
  {
    if k == 0 then at
    else if k <= |files| then at + 12 + Headers(files, k - 1)
    else at + DataAt(files, k - 1 - |files|)
  }

  lemma StructLaid(at: nat, files: seq<File>, k: nat)
    requires k < 1 + 2 * |files|
    ensures var s := FsStructs(at, files)[k];
            Laid(s, StructAt(at, files, k)) && StructAt(at, files, k + 1) == StructAt(at, files, k) + s.size
  {
    hide Record, Laid, BlankHeader, BlankData, FileHeader, FileData, FsHeader, Width, Headers, Sizes;
    var n := |files|;
    NoHeaders(files);
    if k == 0 {
      FsHeaderLaid(at, files);
    } else if k <= n {
      FileHeaderLaid(at, files, k - 1);
    } else {
      FileDataLaid(at, files, k - 1 - n);
    }
  }

  lemma NoHeaders(files: seq<File>)
    ensures Headers(files, 0) == 0 && Sizes(files, 0) == 0
  {
  }

  lemma FsHeaderLaid(at: nat, files: seq<File>)
    ensures Laid(FsHeader(at, files), at) && FsHeader(at, files).size == 12
  {
    hide Width, Laid, FsValues;
    HeaderWidths(File([], []));
    FsHeaderMeans(at, files);
    RecordLaid(FS_HEADER, FS_FORMATS, FsValues(files), at);
  }

  lemma FileHeaderLaid(at: nat, files: seq<File>, i: nat)
    requires i < |files|
    ensures Laid(FileHeader(at, files, i), at + 12 + Headers(files, i))
             && FileHeader(at, files, i).size == 13 + |files[i].name|
    ensures Headers(files, i + 1) == Headers(files, i) + 13 + |files[i].name|
  {
    hide Width, Laid, FileFormats, HeaderValues;
    HeaderWidths(files[i]);
    NamesDiffer();
    RecordLaid(FILE_HEADER, FileFormats(files[i]), HeaderValues(files, i), at + 12 + Headers(files, i));
  }

  lemma FileDataLaid(at: nat, files: seq<File>, i: nat)
    requires i < |files|
    ensures Laid(FileData(at, files, i), at + DataAt(files, i)) && FileData(at, files, i).size == |files[i].data|
    ensures DataAt(files, i + 1) == DataAt(files, i) + |files[i].data|
  {
    hide Width, Laid, Headers;
    WidthOne(Array(|files[i].data|));
    RecordLaid(FILE, [Array(|files[i].data|)], [Data(files[i].data)], at + DataAt(files, i));
  }

  lemma FsStacked(at: nat, files: seq<File>)
    ensures Stacked(FsStructs(at, files), at) && EndOf(FsStructs(at, files), at) == at + DataAt(files, |files|)
  {
    hide Record, Laid, BlankHeader, BlankData, FileHeader, FileData, FsHeader, Width, Headers, Sizes;
    var structs, n := FsStructs(at, files), 1 + 2 * |files|;
    var offsets := seq(n + 1, k requires 0 <= k < n + 1 => StructAt(at, files, k));
    forall k | 0 <= k < n ensures Laid(structs[k], offsets[k]) && offsets[k + 1] == offsets[k] + structs[k].size {
      StructLaid(at, files, k);
    }
    NoHeaders(files);
    StackedAt(structs, offsets);
  }

  /** The section that set_content leaves is laid out without gaps. */
  lemma ContentValid(v: View, offset: nat, sizeProperty: Option<int>, files: seq<File>)
    requires Alignment(v.startAlign) && Alignment(v.sizeAlign)
    ensures Content(v, offset, sizeProperty, files).Valid()
  {
    hide FsStructs, Stacked, EndOf, Rounded, Alignment, DataAt;
    FsStacked(Rounded(offset, v.startAlign), files);
  }

  // ---------------------------------------------------------------- a reader

  // Reads n file headers from offset p on, with the contents they point at; None for an image
  // cut short or a name without terminator.
  function ReadFiles(image: seq<nat>, p: nat, n: nat): Option<seq<File>>
    decreases n
  {
    if n == 0 then Some([])
    else if p + 12 > |image| then None
    else
      var offset, size, len := Read32(image, p), Read32(image, p + 4), Read32(image, p + 8);
      if p + 12 + len > |image| || offset + size > |image| then None
      else match CString(image[p + 12..p + 12 + len], 0)
           case None => None
           case Some(name) =>
             match ReadFiles(image, p + 12 + len, n - 1)
             case None => None
             case Some(rest) => Some([File(name, image[offset..offset + size])] + rest)
  }

  function ReadImage(image: seq<nat>): Option<seq<File>>
  {
    if |image| < 12 then None else ReadFiles(image, 12, Read32(image, 8))
  }

  // ---------------------------------------------------------------- round trip

  // The section set_content leaves, with a size.
  ghost predicate Filled(v: View, files: seq<File>)
  {
    v.Valid() && v.Size().Some? && v.structs == FsStructs(v.offset, files)
  }

  // Everything the headers must hold fits its field.
  predicate FieldsFit(files: seq<File>)
  {
    && 12 + Headers(files, |files|) < WORD64 && |files| < WORD32
    && forall i :: 0 <= i < |files| ==> FileFits(files, i)
  }

  predicate FileFits(files: seq<File>, i: nat)
    requires i < |files|
  {
    DataAt(files, i) < WORD32 && |files[i].data| < WORD32 && |files[i].name| + 1 < WORD32
  }

  lemma SizesBound(files: seq<File>, i: nat)
    requires i < |files|
    ensures Sizes(files, i) + |files[i].data| <= Sizes(files, |files|)
    ensures Headers(files, i) + 13 + |files[i].name| <= Headers(files, |files|)
  {
    SizesGrow(files, i + 1, |files|);
  }

  lemma {:induction false} SizesGrow(files: seq<File>, i: nat, j: nat)
    requires i <= j <= |files|
    ensures Sizes(files, i) <= Sizes(files, j) && Headers(files, i) <= Headers(files, j)
    decreases j
  {
    if i == j {
    } else {
      SizesGrow(files, i, j - 1);
    }
  }

  // Every file takes at least its fixed header.
  lemma HeadersBound(files: seq<File>)
    ensures Headers(files, |files|) >= 13 * |files|
  {
    HeadersAtLeast(files, |files|);
  }

  lemma {:induction false} HeadersAtLeast(files: seq<File>, i: nat)
    requires i <= |files|
    ensures Headers(files, i) >= 13 * i
  {
    if i == 0 {
    } else {
      HeadersAtLeast(files, i - 1);
    }
  }

  lemma FsHeaderPacks(at: nat, files: seq<File>)
    ensures Pack(FsHeader(at, files)).Some? <==> 12 + Headers(files, |files|) < WORD64 && |files| < WORD32
  {
    hide *;
    var v := FsValues(files);
    FsHeaderMeans(at, files);
    FsFormats();
    FsValuesAre(files);
    RecordPacks(FS_HEADER, FS_FORMATS, v, at);
    PairPacks(FS_FORMATS, v);
    LongPacks(12 + Headers(files, |files|));
    WordPacks(|files|);
  }

  lemma PairPacks(format: seq<Format>, values: seq<Value>)
    requires |format| == |values| == 2
    ensures AllPack(format, values) <==> PackItem(format[0], values[0]).Some? && PackItem(format[1], values[1]).Some?
  {
    hide PackItem;
  }

  lemma LongPacks(n: nat)
    ensures PackItem(Scalar(8), Number(n)).Some? <==> n < WORD64
  {
    hide Pow2;
    ItemPacks(Scalar(8), Number(n));
    Pow2Words();
  }

  lemma FileHeaderPacks(at: nat, files: seq<File>, i: nat)
    requires i < |files|
    ensures Pack(FileHeader(at, files, i)).Some? <==> FileFits(files, i)
  {
    hide Record, Pack, PackItem, HeaderValues, FileFormats, Utf8, DataAt, Headers;
    var f, w, v := files[i], FileFormats(files[i]), HeaderValues(files, i);
    FileMeans(at, files, i);
    FileHeaderIs(at, files, i);
    RecordPacks(FILE_HEADER, w, v, at + 12 + Headers(files, i));
    WordPacks(DataAt(files, i));
    WordPacks(|f.data|);
    WordPacks(|f.name| + 1);
    ItemPacks(w[3], v[3]);
    assert AllPack(w, v) <==> PackItem(w[0], v[0]).Some? && PackItem(w[1], v[1]).Some? && PackItem(w[2], v[2]).Some?
                              && PackItem(w[3], v[3]).Some?;
  }

  lemma FileDataPacks(at: nat, files: seq<File>, i: nat)
    requires i < |files|
    ensures Pack(FileData(at, files, i)).Some?
  {
    hide Record, Pack, PackItem, DataAt;
    var data := files[i].data;
    RecordPacks(FILE, [Array(|data|)], [Data(data)], at + DataAt(files, i));
    ItemPacks(Array(|data|), Data(data));
  }

  lemma FilesPack(at: nat, files: seq<File>)
    ensures EachPacks(FsStructs(at, files)) <==> FieldsFit(files)
  {
    hide Record, Pack, FsHeader, FileHeader, FileData, BlankHeader, BlankData, FileFits, Headers;
    var s, n := FsStructs(at, files), |files|;
    FsHeaderPacks(at, files);
    forall i | 0 <= i < n
      ensures s[1 + i] == FileHeader(at, files, i) && s[1 + n + i] == FileData(at, files, i)
      ensures Pack(s[1 + i]).Some? <==> FileFits(files, i)
      ensures Pack(s[1 + n + i]).Some?
    {
      FileHeaderPacks(at, files, i);
      FileDataPacks(at, files, i);
    }
    assert s[0] == FsHeader(at, files);
    if EachPacks(s) {
      forall i | 0 <= i < n ensures FileFits(files, i) {
        assert Pack(s[1 + i]).Some?;
      }
    }
    if FieldsFit(files) {
      forall k | 0 <= k < |s| ensures Pack(s[k]).Some? {
        if 1 <= k <= n {
          assert Pack(s[1 + (k - 1)]).Some?;
        } else if n < k {
          assert Pack(s[1 + n + (k - 1 - n)]).Some?;
        }
      }
    }
  }

  /** There is an image of the section exactly when the header size, the file count and, for
      every file, its offset, size and name length fit their fields. */
  lemma ImageExists(v: View, files: seq<File>)
    requires Filled(v, files)
    ensures v.Image().Some? <==> FieldsFit(files)
  {
    hide FsStructs, EachPacks, SizeFor, ImageFor, Stacked, EndOf, Alignment, FieldsFit;
    ImageWhen(v);
    FilesPack(v.offset, files);
  }

  // A filled-in section for files whose values fit.
  ghost predicate Holds(v: View, files: seq<File>)
  {
    Filled(v, files) && FieldsFit(files)
  }

  lemma HoldsParts(v: View, files: seq<File>, i: nat)
    requires Holds(v, files)
    ensures v.Valid() && v.Image().Some?
    ensures |v.structs| == 1 + 2 * |files| && v.structs[0] == FsHeader(v.offset, files)
    ensures i < |files| ==>
              && v.structs[1 + i] == FileHeader(v.offset, files, i)
              && v.structs[1 + |files| + i] == FileData(v.offset, files, i)
  {
    hide FsHeader, FileHeader, FileData, BlankHeader, BlankData, SizeFor, ImageFor, Stacked, EndOf, FieldsFit,
         Alignment;
    ImageExists(v, files);
  }

  /** The main header gives the size of all headers and the number of files. */
  lemma FsHeaderReadsBack(v: View, files: seq<File>)
    requires Holds(v, files)
    ensures v.Image().Some?
    ensures var image := v.Image().value;
            |image| >= 12 && FromLittle(image[0..8]) == 12 + Headers(files, |files|) && Read32(image, 8) == |files|
  {
    hide *;
    HoldsParts(v, files, 0);
    FsHeaderMeans(v.offset, files);
    FsFormats();
    HeaderWidths(File([], []));
    FsValuesAre(files);
    var size, values := 12 + Headers(files, |files|), FsValues(files);
    RecordLands(v, 0, FS_HEADER, FS_FORMATS, values, v.offset, 0);
    LongReads(size);
    WordLands(v, 0, FS_HEADER, FS_FORMATS, values, v.offset, 1, |files|);
  }

  lemma FsHeaderMeans(at: nat, files: seq<File>)
    ensures |FS_HEADER| == |FS_FORMATS| == |FsValues(files)|
             && FsHeader(at, files) == Record(FS_HEADER, FS_FORMATS, FsValues(files), at)
  {
    hide Record, FsValues;
  }

  lemma FsValuesAre(files: seq<File>)
    ensures |FsValues(files)| == 2 && FsValues(files)[0] == Number(12 + Headers(files, |files|))
             && FsValues(files)[1] == Number(|files|)
  {
    hide Headers;
  }

  lemma FsFormats()
    ensures |FS_HEADER| == |FS_FORMATS| == 2 && FS_FORMATS[0] == Scalar(8) && FS_FORMATS[1] == Scalar(4)
  {
  }

  lemma LongReads(n: nat)
    requires PackItem(Scalar(8), Number(n)).Some?
    ensures |PackItem(Scalar(8), Number(n)).value| == 8 && FromLittle(PackItem(Scalar(8), Number(n)).value) == n
  {
    hide FromLittle, LittleBytes, Pow2;
    LittleReadsBack(n, 8);
  }

  // The header of file i starts here, counted from the start of the section.
  function HeaderAt(files: seq<File>, i: nat): nat
    requires i <= |files|
  {
    12 + Headers(files, i)
  }

  lemma FileMeans(at: nat, files: seq<File>, i: nat)
    requires i < |files|
    ensures |FILE_HEADER| == 4 && |FileFormats(files[i])| == 4 && |FILE| == 1
    ensures var w := FileFormats(files[i]);
            w[0] == Scalar(4) && w[1] == Scalar(4) && w[2] == Scalar(4) && w[3] == Array(|files[i].name| + 1)
    ensures var v := HeaderValues(files, i);
            && v[0] == Number(DataAt(files, i)) && v[1] == Number(|files[i].data|)
              && v[2] == Number(|files[i].name| + 1)
            && v[3] == Data(Utf8(files[i].name) + [0])
    ensures PackItem(Array(|files[i].name| + 1), Data(Utf8(files[i].name) + [0])) == Some(NameField(files[i].name))
    ensures |NameField(files[i].name)| == |files[i].name| + 1
    ensures PackItem(Array(|files[i].data|), Data(files[i].data)) == Some(files[i].data)
    ensures HeaderAt(files, i) == 12 + Headers(files, i)
             && HeaderAt(files, i + 1) == HeaderAt(files, i) + 13 + |files[i].name|
  {
    hide Utf8, DataAt;
    assert files[i].data[..|files[i].data|] == files[i].data;
  }

  /** What the image holds for one file: offset, size and name length, the name field, and the
      content at the offset. */
  lemma FileLands(v: View, files: seq<File>, i: nat)
    requires Holds(v, files) && i < |files|
    ensures v.Image().Some?
    ensures var image, f, p, at := v.Image().value, files[i], HeaderAt(files, i), DataAt(files, i);
            && p + 12 + |NameField(f.name)| <= |image| && at + |f.data| <= |image|
            && Read32(image, p) == at && Read32(image, p + 4) == |f.data| && Read32(image, p + 8) == |f.name| + 1
            && image[p + 12..p + 12 + |NameField(f.name)|] == NameField(f.name)
            && image[at..at + |f.data|] == f.data
  {
    hide *;
    var f, n, at := files[i], |files|, v.offset + 12 + Headers(files, i);
    HoldsParts(v, files, i);
    FileMeans(v.offset, files, i);
    FileHeaderIs(v.offset, files, i);
    FileDataIs(v.offset, files, i);
    HeaderWidths(f);
    var formats, values := FileFormats(f), HeaderValues(files, i);
    WordLands(v, 1 + i, FILE_HEADER, formats, values, at, 0, DataAt(files, i));
    WordLands(v, 1 + i, FILE_HEADER, formats, values, at, 1, |f.data|);
    WordLands(v, 1 + i, FILE_HEADER, formats, values, at, 2, |f.name| + 1);
    RecordLands(v, 1 + i, FILE_HEADER, formats, values, at, 3);
    RecordLands(v, 1 + n + i, FILE, [Array(|f.data|)], [Data(f.data)], v.offset + DataAt(files, i), 0);
    assert [Array(|f.data|)][..0] == [];
    WidthNone();
  }

  predicate AllNulFree(files: seq<File>)
  {
    forall i :: 0 <= i < |files| ==> NulFree(files[i].name)
  }

  predicate AllAscii(files: seq<File>)
  {
    forall i :: 0 <= i < |files| ==> Ascii(files[i].name)
  }

  // Reading one file off the headers.
  lemma ReadOne(image: seq<nat>, p: nat, n: nat, f: File, at: nat)
    requires n > 0 && NulFree(f.name) && |NameField(f.name)| == |f.name| + 1
    requires p + 12 + |NameField(f.name)| <= |image| && at + |f.data| <= |image|
    requires Read32(image, p) == at && Read32(image, p + 4) == |f.data| && Read32(image, p + 8) == |f.name| + 1
    requires image[p + 12..p + 12 + |NameField(f.name)|] == NameField(f.name) && image[at..at + |f.data|] == f.data
    ensures ReadFiles(image, p, n)
         == var rest := ReadFiles(image, p + 13 + |f.name|, n - 1);
            if !Ascii(f.name) || rest.None? then None else Some([f] + rest.value)
  {
    hide Read32, CString, NameField, Ascii, NulFree;
    NameReadsBack(f.name);
  }

  lemma {:induction false} FilesReadBack(v: View, files: seq<File>, i: nat)
    requires Holds(v, files) && AllNulFree(files) && i <= |files|
    ensures v.Image().Some?
    ensures ReadFiles(v.Image().value, HeaderAt(files, i), |files| - i)
         == if AllAscii(files[i..]) then Some(files[i..]) else None
    decreases |files| - i
  {
    hide *;
    HoldsParts(v, files, i);
    if i == |files| {
      NothingLeft(v.Image().value, HeaderAt(files, i));
      assert files[i..] == [];
    } else {
      FilesReadBack(v, files, i + 1);
      FileLands(v, files, i);
      FileMeans(v.offset, files, i);
      NamesFrom(files, i);
      ReadOne(v.Image().value, HeaderAt(files, i), |files| - i, files[i], DataAt(files, i));
    }
  }

  lemma NothingLeft(image: seq<nat>, p: nat)
    ensures ReadFiles(image, p, 0) == Some([]) && AllAscii([])
  {
  }

  lemma NamesFrom(files: seq<File>, i: nat)
    requires i < |files| && AllNulFree(files)
    ensures NulFree(files[i].name) && files[i..] == [files[i]] + files[i + 1..]
    ensures AllAscii(files[i..]) <==> Ascii(files[i].name) && AllAscii(files[i + 1..])
  {
    hide Ascii, NulFree;
    var all, rest := files[i..], files[i + 1..];
    assert all == [files[i]] + rest;
    assert forall k :: 0 <= k < |rest| ==> rest[k] == all[k + 1];
  }

  /** For files whose values fit the fields there is a section image, and reading it gives
      exactly the files, in order, if and only if all their names are ASCII; otherwise a name has
      lost its terminator and the reader finds none.  Values that do not fit make no image. */
  lemma ImageReadsBack(v: View, files: seq<File>)
    requires Filled(v, files) && AllNulFree(files)
    ensures v.Image().Some? <==> FieldsFit(files)
    ensures FieldsFit(files) ==> ReadImage(v.Image().value) == if AllAscii(files) then Some(files) else None
  {
    hide ReadFiles, Filled, FieldsFit, AllAscii, AllNulFree, Read32, HeaderAt;
    ImageExists(v, files);
    if FieldsFit(files) {
      HoldsParts(v, files, 0);
      FsHeaderReadsBack(v, files);
      FilesReadBack(v, files, 0);
      FirstHeader(files);
    }
  }

  lemma FirstHeader(files: seq<File>)
    ensures HeaderAt(files, 0) == 12 && files[0..] == files
  {
  }
}
