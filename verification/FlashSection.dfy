/** A flash section: an offset allocator for the structures declared in it, and the image they
    are packed into. */
module FlashSection {
  import opened Bits
  import opened Buffers
  import opened Structs

  ghost predicate PowerOfTwo(a: nat)
  {
    exists k: nat :: a == Pow2(k)
  }

  // An alignment that can be rounded to.
  predicate Alignment(a: Option<nat>)
  {
    a.Some? ==> a.value > 0
  }

  // (x + a - 1) & ~(a - 1)
  function RoundUp(x: nat, a: nat): nat
  {
    if a == 0 then 0 else AndNot(x + a - 1, a - 1)
  }

  /** Rounding never goes down, nor up by the alignment or more, whatever the alignment. */
  lemma RoundUpNear(x: nat, a: nat)
    requires a > 0
    ensures x <= RoundUp(x, a) < x + a
  {
    hide AndNot;
    AndNotAtLeast(x + a - 1, a - 1);
    AndNotBelow(x + a - 1, a - 1);
  }

  /** For a power of two the mask rounds up to the next multiple. */
  lemma RoundUpIs(x: nat, a: nat)
    requires PowerOfTwo(a)
    ensures a > 0 && RoundUp(x, a) % a == 0 && x <= RoundUp(x, a) < x + a
  {
    hide AndNot;
    var k :| a == Pow2(k);
    AndNotMask(x + a - 1, k);
    var y := x + a - 1;
    RoundDown(y, a);
  }

  lemma RoundDown(y: nat, a: nat)
    requires a > 0
    ensures (y - y % a) % a == 0 && y - a < y - y % a <= y
  {
    ModUnique(y - y % a, a, y / a, 0);
  }

  // No multiple lies between x and the next one.
  lemma LeastMultiple(x: nat, a: nat, r: nat, m: nat)
    requires a > 0 && r % a == 0 && r < x + a && m % a == 0 && x <= m
    ensures r <= m
  {
    var q, p := r / a, m / a;
    assert r == a * q && m == a * p && a * (p + 1) == a * p + a;
    if p < q {
      MulLe(a, p + 1, q);
    } else {
      MulLe(a, q, p);
    }
  }

  function Rounded(x: nat, a: Option<nat>): nat
  {
    match a case None => x case Some(v) => RoundUp(x, v)
  }

  // get_size for `used` bytes under a size property and the section alignments; None when the
  // content is larger than the requested size, or that size is not aligned.
  function SizeFor(used: nat, property: Option<int>, startAlign: Option<nat>, sizeAlign: Option<nat>): Option<nat>
  {
    if property.None? || property.value == -1 then Some(Rounded(used, sizeAlign))
    else if sizeAlign.Some? && startAlign.None? then None
    else if used > property.value then None
    else
      var p: nat := property.value;
      if sizeAlign.Some? && RoundUp(p, startAlign.value) != p then None
      else Some(Rounded(p, sizeAlign))
  }

  /** A section is never smaller than what was allocated in it. */
  lemma SizeCovers(used: nat, property: Option<int>, startAlign: Option<nat>, sizeAlign: Option<nat>)
    requires Alignment(startAlign) && Alignment(sizeAlign)
    ensures var n := SizeFor(used, property, startAlign, sizeAlign);
            n.Some? ==> n.value >= used && (sizeAlign.Some? && PowerOfTwo(sizeAlign.value) ==>
              n.value % sizeAlign.value == 0)
  {
    hide RoundUp, PowerOfTwo;
    if sizeAlign.Some? {
      var base := if property.Some? && property.value >= 0 then property.value else used;
      RoundUpNear(base, sizeAlign.value);
      if PowerOfTwo(sizeAlign.value) {
        RoundUpIs(base, sizeAlign.value);
      }
    }
  }

  // The size property asks for a size of its own.
  predicate Requested(property: Option<int>)
  {
    property.Some? && property.value != -1
  }

  // The bytes a section must offer at least: what was requested, or what is used.
  function Floor(used: nat, property: Option<int>): int
  {
    if Requested(property) then property.value else used
  }

  /** For power-of-two alignments a size fails exactly when one is requested and it is too small,
      not a multiple of the start alignment, or there is none to check it against; otherwise it
      is the least multiple of the size alignment that is large enough. */
  lemma SizeIsLeast(used: nat, property: Option<int>, startAlign: Option<nat>, sizeAlign: Option<nat>)
    requires startAlign.Some? ==> PowerOfTwo(startAlign.value)
    requires sizeAlign.Some? ==> PowerOfTwo(sizeAlign.value)
    ensures startAlign.Some? ==> startAlign.value > 0
    ensures sizeAlign.Some? ==> sizeAlign.value > 0
    ensures SizeFor(used, property, startAlign, sizeAlign).None?
       <==> Requested(property) && (property.value < used
                                    || (sizeAlign.Some?
                                      && (startAlign.None? || property.value % startAlign.value != 0)))
    ensures var n, floor := SizeFor(used, property, startAlign, sizeAlign), Floor(used, property);
            n.Some? ==>
              && floor <= n.value && (sizeAlign.None? ==> n.value == floor)
              && (sizeAlign.Some? ==> n.value % sizeAlign.value == 0)
              && (sizeAlign.Some? ==> forall m: nat :: floor <= m && m % sizeAlign.value == 0 ==> n.value <= m)
  {
    hide RoundUp, PowerOfTwo;
    var floor := Floor(used, property);
    if startAlign.Some? {
      RoundUpIs(0, startAlign.value);
    }
    if sizeAlign.Some? {
      RoundUpIs(0, sizeAlign.value);
    }
    if floor >= 0 {
      if startAlign.Some? {
        RoundsToItself(floor, startAlign.value);
      }
      if sizeAlign.Some? {
        var a := sizeAlign.value;
        RoundUpIs(floor, a);
        forall m: nat | floor <= m && m % a == 0 ensures RoundUp(floor, a) <= m {
          LeastMultiple(floor, a, RoundUp(floor, a), m);
        }
      }
    }
  }

  lemma RoundsToItself(x: nat, a: nat)
    requires PowerOfTwo(a)
    ensures a > 0 && (RoundUp(x, a) == x <==> x % a == 0)
  {
    hide RoundUp;
    RoundUpIs(x, a);
    if x % a == 0 {
      LeastMultiple(x, a, RoundUp(x, a), x);
    }
  }

  // get_image: the packed structures padded to the size; None when they do not fit it.
  function ImageFor(structs: seq<Struct>, size: Option<nat>): Option<seq<nat>>
  {
    match PackStructs(structs)
    case None => None
    case Some(b) =>
      if size.None? then None
      else if |b| < size.value then Some(b + Zeros(size.value - |b|))
      else if |b| > size.value then None
      else Some(b)
  }

  // What a section holds at one moment.
  datatype View = View(offset: nat, current: nat, structs: seq<Struct>,
                       startAlign: Option<nat>, sizeAlign: Option<nat>, sizeProperty: Option<int>)
  {
    // The structures fill the section from its offset up to the next free one.
    predicate Valid()
    {
      && Stacked(structs, offset) && EndOf(structs, offset) == current && offset <= current
      && Alignment(startAlign) && Alignment(sizeAlign)
    }

    function Size(): Option<nat>
    {
      if current < offset then None else SizeFor(current - offset, sizeProperty, startAlign, sizeAlign)
    }

    function Image(): Option<seq<nat>>
    {
      ImageFor(structs, Size())
    }
  }

  /** The image-too-big branch cannot be taken: once the size is fixed and the values pack, the
      image is the packed structures and zeros up to the size. */
  lemma ImageFits(v: View)
    requires v.Valid() && v.Size().Some? && PackStructs(v.structs).Some?
    ensures v.Image().Some? && |v.Image().value| == v.Size().value
    ensures |PackStructs(v.structs).value| == v.current - v.offset <= v.Size().value
    ensures v.Image().value == PackStructs(v.structs).value + Zeros(v.Size().value - (v.current - v.offset))
  {
    hide SizeFor, Stacked, EndOf, PackStructs;
    StackedLength(v.structs, v.offset);
    SizeCovers(v.current - v.offset, v.sizeProperty, v.startAlign, v.sizeAlign);
  }

  /** A section with a size has an image exactly when all its structures pack. */
  lemma ImageWhen(v: View)
    requires v.Valid() && v.Size().Some?
    ensures v.Image().Some? <==> EachPacks(v.structs)
  {
    hide SizeFor, Stacked, EndOf, PackStructs, EachPacks;
    PackStructsWhen(v.structs);
    if PackStructs(v.structs).Some? {
      ImageFits(v);
    }
  }

  /** Every field is in the section image at its offset, counted from the section's. */
  lemma ImageHoldsField(v: View, j: nat, i: nat)
    requires v.Valid() && v.Size().Some? && PackStructs(v.structs).Some?
    requires j < |v.structs| && i < |v.structs[j].fields|
    ensures v.Image().Some? && Lands(v.Image().value, v.structs[j], i, v.offset)
  {
    hide Stacked, EndOf, PackStructs, PackItem;
    ImageFits(v);
    StackedFieldLands(v.structs, v.offset, j, i);
    var b := PackStructs(v.structs).value;
    var f := v.structs[j].fields[i];
    var x := f.offset - v.offset;
    assert v.Image().value[x..x + f.size] == b[x..x + f.size];
  }

  class Section {
    var offset: nat
    var currentOffset: nat
    var structs: seq<Struct>
    var startAlign: Option<nat>
    var sizeAlign: Option<nat>
    var sizeProperty: Option<int>

    constructor ()
      ensures AsView() == View(0, 0, [], None, None, None)
    {
      offset, currentOffset, structs, startAlign, sizeAlign, sizeProperty := 0, 0, [], None, None, None;
    }

    function AsView(): View
      reads this
    {
      View(offset, currentOffset, structs, startAlign, sizeAlign, sizeProperty)
    }

    method AllocOffset(size: nat) returns (o: nat)
      modifies this`currentOffset
      ensures o == old(currentOffset) && currentOffset == old(currentOffset) + size
    {
      o := currentOffset;
      currentOffset := currentOffset + size;
    }

    /** Rounds the next free offset up; the result is the padding this takes, less than the
        alignment.  For a power of two the new offset is a multiple of it. */
    method AlignOffset(alignment: nat) returns (size: int)
      modifies this`currentOffset
      ensures currentOffset == RoundUp(old(currentOffset), alignment) && size == currentOffset - old(currentOffset)
      ensures alignment > 0 ==> 0 <= size < alignment
      ensures PowerOfTwo(alignment) ==> alignment > 0 && currentOffset % alignment == 0
    {
      hide PowerOfTwo, RoundUp;
      var aligned := RoundUp(currentOffset, alignment);
      if alignment > 0 {
        RoundUpNear(currentOffset, alignment);
      }
      if PowerOfTwo(alignment) {
        RoundUpIs(currentOffset, alignment);
      }
      size := aligned - currentOffset;
      currentOffset := aligned;
    }

    method AddStruct()
      modifies this`structs
      ensures AsView() == old(AsView()).(structs := old(structs) + [EMPTY])
      ensures old(AsView().Valid()) ==> AsView().Valid()
    {
      hide Stacked, EndOf, Alignment;
      structs := structs + [EMPTY];
      EndAppend(old(structs), [EMPTY], offset);
      OneStruct(EMPTY, EndOf(old(structs), offset));
    }

    /** Declares a field in structure j at the next free offset. The structures stay laid out
        when j is the last of them and the name is new in it. */
    method AddField(j: nat, name: string, f: Format)
      requires j < |structs|
      modifies this`structs, this`currentOffset
      ensures AsView() == Declared(old(AsView()), j, name, f)
      ensures old(AsView().Valid()) && j == |structs| - 1 && Fresh(old(structs)[j], name) ==> AsView().Valid()
    {
      hide Declare, Fresh, Stacked, EndOf, Alignment;
      ghost var v := AsView();
      var o := AllocOffset(f.size);
      structs := structs[j := Declare(structs[j], name, f, o)];
      if v.Valid() && j == |structs| - 1 && Fresh(v.structs[j], name) {
        DeclaredValid(v, name, f);
      }
    }

    /** An unnamed gap before the next field, as an array field of the padding's size. */
    method AddPadding(j: nat, name: string, alignment: nat)
      requires alignment > 0 && j < |structs|
      modifies this`structs, this`currentOffset
      ensures currentOffset == RoundUp(old(currentOffset), alignment)
      ensures old(currentOffset) <= currentOffset < old(currentOffset) + alignment
      ensures PowerOfTwo(alignment) ==> currentOffset % alignment == 0
      ensures AsView() == Declared(old(AsView()), j, name, Array(currentOffset - old(currentOffset)))
      ensures old(AsView().Valid()) && j == |structs| - 1 && Fresh(old(structs)[j], name) ==> AsView().Valid()
    {
      hide Declare, Fresh, Stacked, EndOf, Alignment, PowerOfTwo, RoundUp;
      ghost var v := AsView();
      var o := currentOffset;
      var size := AlignOffset(alignment);
      structs := structs[j := Declare(structs[j], name, Array(size), o)];
      if v.Valid() && j == |structs| - 1 && Fresh(v.structs[j], name) {
        DeclaredValid(v, name, Array(size));
      }
    }

    method SetField(j: nat, name: string, value: Value)
      requires j < |structs| && !Fresh(structs[j], name)
      modifies this`structs
      ensures AsView() == old(AsView()).(structs := old(structs)[j := Assign(old(structs)[j], name, value)])
      ensures old(AsView().Valid()) ==> AsView().Valid()
    {
      hide Stacked, EndOf, Alignment, Fresh, Assign;
      if AsView().Valid() {
        StackedAssign(structs, offset, j, name, value);
      }
      structs := structs[j := Assign(structs[j], name, value)];
    }

    method GetSize() returns (size: Option<nat>)
      requires offset <= currentOffset
      ensures size == AsView().Size()
    {
      hide RoundUp;
      var used: int := currentOffset - offset;
      if sizeProperty.Some? && sizeProperty.value != -1 {
        var p := sizeProperty.value;
        if sizeAlign.Some? && startAlign.None? {
          return None;
        }
        if used > p || (sizeAlign.Some? && RoundUp(p, startAlign.value) != p) {
          return None;
        }
        used := p;
      }
      if sizeAlign.Some? {
        used := RoundUp(used, sizeAlign.value);
      }
      return Some(used);
    }

    method GetImage() returns (image: Option<seq<nat>>)
      requires offset <= currentOffset
      ensures image == AsView().Image()
    {
      hide Pack, SizeFor;
      var result, i := [], 0;
      assert structs[0..] == structs;
      PrefixNothing(PackStructs(structs));
      while i < |structs|
        invariant 0 <= i <= |structs|
        invariant PackStructs(structs) == Prefixed(result, PackStructs(structs[i..]))
      {
        PackedNext(structs, i, result);
        var b := Pack(structs[i]);
        if b.None? {
          return None;
        }
        result := result + b.value;
        i := i + 1;
      }
      assert structs[i..] == [] && result + [] == result;
      var size := GetSize();
      if size.None? {
        return None;
      }
      if |result| < size.value {
        result := result + Zeros(size.value - |result|);
      } else if |result| > size.value {
        return None;
      }
      return Some(result);
    }

    method SetAlignments(startAlign: Option<nat>, sizeAlign: Option<nat>)
      modifies this`startAlign, this`sizeAlign
      ensures AsView() == old(AsView()).(startAlign := startAlign, sizeAlign := sizeAlign)
    {
      this.sizeAlign := sizeAlign;
      this.startAlign := startAlign;
    }

    /** The common part of set_content: the size property, and the aligned start. */
    method SetContent(offset: nat, sizeProperty: Option<int>)
      modifies this`offset, this`currentOffset, this`sizeProperty
      ensures AsView() == old(AsView()).(offset := Rounded(offset, startAlign), current := Rounded(offset, startAlign),
                                         sizeProperty := sizeProperty)
    {
      this.sizeProperty := sizeProperty;
      var start := offset;
      if startAlign.Some? {
        start := RoundUp(offset, startAlign.value);
      }
      this.offset := start;
      currentOffset := start;
    }
  }

  // The section with one more field in structure j.
  function Declared(v: View, j: nat, name: string, f: Format): View
    requires j < |v.structs|
  {
    v.(structs := v.structs[j := Declare(v.structs[j], name, f, v.current)], current := v.current + f.size)
  }

  lemma DeclaredValid(v: View, name: string, f: Format)
    requires v.Valid() && |v.structs| > 0 && Fresh(v.structs[|v.structs| - 1], name)
    ensures Declared(v, |v.structs| - 1, name, f).Valid()
  {
    hide Stacked, EndOf, Laid, Fresh;
    var n := |v.structs| - 1;
    var before, s := v.structs[..n], v.structs[n];
    var at, r := EndOf(before, v.offset), Declare(s, name, f, v.current);
    assert v.structs == before + [s];
    EndAppend(before, [s], v.offset);
    OneStruct(s, at);
    DeclareLaid(s, name, f, at);
    EndAppend(before, [r], v.offset);
    OneStruct(r, at);
    assert v.structs[n := r] == before + [r];
  }

  function Prefixed(b: seq<nat>, rest: Option<seq<nat>>): Option<seq<nat>>
  {
    match rest case None => None case Some(t) => Some(b + t)
  }

  lemma PrefixNothing(rest: Option<seq<nat>>)
    ensures Prefixed([], rest) == rest
  {
    if rest.Some? {
      assert [] + rest.value == rest.value;
    }
  }

  lemma PackedNext(structs: seq<Struct>, i: nat, result: seq<nat>)
    requires i < |structs|
    ensures Prefixed(result, PackStructs(structs[i..]))
         == if Pack(structs[i]).None? then None else Prefixed(result + Pack(structs[i]).value,
           PackStructs(structs[i + 1..]))
  {
    hide Pack;
    assert structs[i..][1..] == structs[i + 1..];
    if Pack(structs[i]).Some? && PackStructs(structs[i + 1..]).Some? {
      var b, t := Pack(structs[i]).value, PackStructs(structs[i + 1..]).value;
      assert result + (b + t) == result + b + t;
    }
  }

  // The view with a structure of the first k of the fields at its end.
  ghost function RecordsTo(v: View, names: seq<string>, formats: seq<Format>, k: nat): View
    requires |names| == |formats| && k <= |names|
  {
    v.(structs := v.structs + [Record(names[..k], formats[..k], Initials(formats[..k]), v.current)],
       current := v.current + Width(formats[..k]))
  }

  lemma RecordStart(v: View, names: seq<string>, formats: seq<Format>)
    requires |names| == |formats|
    ensures RecordsTo(v, names, formats, 0) == v.(structs := v.structs + [EMPTY])
  {
    assert names[..0] == [] && formats[..0] == [];
    assert Record([], [], [], v.current).fields == [];
  }

  lemma RecordNext(v: View, names: seq<string>, formats: seq<Format>, k: nat)
    requires |names| == |formats| && k < |names| && DistinctNames(names)
    ensures Fresh(RecordsTo(v, names, formats, k).structs[|v.structs|], names[k])
    ensures Declared(RecordsTo(v, names, formats, k), |v.structs|, names[k], formats[k])
             == RecordsTo(v, names, formats, k + 1)
  {
    hide Record, Declare, Width, Fresh, Initial;
    var n, f := names[..k], formats[..k];
    assert names[..k + 1] == n + [names[k]] && formats[..k + 1] == f + [formats[k]];
    assert Initials(f + [formats[k]]) == Initials(f) + [Initial(formats[k])];
    DeclareRecord(n, f, Initials(f), v.current, names[k], formats[k]);
    WidthAppend(f, [formats[k]]);
    WidthOne(formats[k]);
    var r := RecordsTo(v, names, formats, k);
    assert r.structs[|v.structs| := Declare(r.structs[|v.structs|], names[k], formats[k], r.current)]
        == v.structs + [Record(n + [names[k]], f + [formats[k]], Initials(f) + [Initial(formats[k])], v.current)];
  }

  lemma RecordEnd(v: View, names: seq<string>, formats: seq<Format>)
    requires |names| == |formats|
    ensures RecordsTo(v, names, formats, |names|)
         == v.(structs := v.structs + [Record(names, formats, Initials(formats), v.current)],
           current := v.current + Width(formats))
  {
    assert names[..|names|] == names && formats[..|names|] == formats;
  }

  /** Declares a structure with the given fields: add_field for each, in order. */
  method DeclareStruct(s: Section, names: seq<string>, formats: seq<Format>)
    requires |names| == |formats| && DistinctNames(names) && s.AsView().Valid()
    modifies s`structs, s`currentOffset
    ensures s.AsView().Valid()
    ensures s.AsView() == old(s.AsView()).(
              structs := old(s.structs) + [Record(names, formats, Initials(formats), old(s.currentOffset))],
              current := old(s.currentOffset) + Width(formats))
  {
    hide Record, Width, Initials, RecordsTo;
    ghost var v := s.AsView();
    s.AddStruct();
    var j := |s.structs| - 1;
    var k := 0;
    RecordStart(v, names, formats);
    RecordShape(v, names, formats, 0);
    while k < |names|
      invariant 0 <= k <= |names| && s.AsView().Valid()
      invariant s.AsView() == RecordsTo(v, names, formats, k)
    {
      RecordNext(v, names, formats, k);
      RecordShape(v, names, formats, k);
      s.AddField(j, names[k], formats[k]);
      k := k + 1;
    }
    RecordEnd(v, names, formats);
  }

  lemma RecordShape(v: View, names: seq<string>, formats: seq<Format>, k: nat)
    requires |names| == |formats| && k <= |names|
    ensures |RecordsTo(v, names, formats, k).structs| == |v.structs| + 1
  {
  }

  lemma SectionFields(s: Section, v: View)
    requires s.AsView() == v
    ensures s.structs == v.structs && s.offset == v.offset && v.(structs := v.structs) == v
  {
  }

  /** Sets one field of a structure known to be a record. */
  method SetIn(s: Section, j: nat, ghost r: Struct, names: seq<string>, ghost formats: seq<Format>,
      ghost values: seq<Value>,
               ghost at: nat, i: nat, v: Value)
    requires |names| == |formats| == |values| && DistinctNames(names) && i < |names|
    requires j < |s.structs| && s.structs[j] == r == Record(names, formats, values, at)
    modifies s`structs
    ensures s.AsView() == old(s.AsView()).(structs := old(s.structs)[j := Record(names, formats, values[i := v], at)])
    ensures old(s.AsView().Valid()) ==> s.AsView().Valid()
  {
    hide Record, Assign, Fresh;
    AssignRecord(names, formats, values, at, i, v);
    s.SetField(j, names[i], v);
  }

  // ---------------------------------------------------------------- reading an image

  // The 32-bit word at an offset of the image.
  function Read32(image: seq<nat>, x: nat): nat
    requires x + 4 <= |image|
  {
    FromLittle(image[x..x + 4])
  }

  /** A field of a record is in the section image at its place in the record. */
  lemma RecordLands(v: View, j: nat, names: seq<string>, formats: seq<Format>, values: seq<Value>, at: nat, k: nat)
    requires v.Valid() && v.Image().Some? && j < |v.structs|
    requires |names| == |formats| == |values| && k < |names| && v.structs[j] == Record(names, formats, values, at)
    ensures var x, image := at + Width(formats[..k]), v.Image().value;
            && PackItem(formats[k], values[k]).Some? && v.offset <= x && x - v.offset + formats[k].size <= |image|
            && image[x - v.offset..x - v.offset + formats[k].size] == PackItem(formats[k], values[k]).value
  {
    hide Stacked, EndOf, PackStructs, PackItem, Width, SizeFor, Alignment;
    ImageHoldsField(v, j, k);
  }

  lemma WordPacks(n: nat)
    ensures PackItem(Scalar(4), Number(n)).Some? <==> n < WORD32
  {
    hide Pow2;
    ItemPacks(Scalar(4), Number(n));
    Pow2Words();
  }

  /** A word of a record reads back; an image exists only when the word fits 32 bits. */
  lemma WordLands(v: View, j: nat, names: seq<string>, formats: seq<Format>, values: seq<Value>, at: nat, k: nat,
      n: nat)
    requires v.Valid() && v.Image().Some? && j < |v.structs|
    requires |names| == |formats| == |values| && k < |names| && v.structs[j] == Record(names, formats, values, at)
    requires formats[k] == Scalar(4) && values[k] == Number(n)
    ensures var x, image := at + Width(formats[..k]), v.Image().value;
            n < WORD32 && v.offset <= x && x - v.offset + 4 <= |image| && Read32(image, x - v.offset) == n
  {
    hide Record, Width, LittleBytes, FromLittle, Pow2;
    RecordLands(v, j, names, formats, values, at, k);
    LittleReadsBack(n, 4);
    Pow2Words();
  }
}
