/** The flash: sections laid out one after another, and the image that holds them all. */
module FlashLayout {
  import opened Bits
  import opened Buffers
  import opened Structs
  import opened FlashSection
  import Rom
  import ReadFs

  // One entry of the flash content: its name, its forced size, and what its template is given.
  datatype Content =
    | RomContent(name: string, sizeProperty: Option<int>, binary: Option<Rom.Binary>)
    | FsContent(name: string, sizeProperty: Option<int>, files: seq<ReadFs.File>)

  // flash_attributes
  datatype Alignments = Alignments(start: Option<nat>, size: Option<nat>)

  // ---------------------------------------------------------------- layout

  // The section of a content entry when the space before `at` is taken; None when set_content fails.
  function Placed(c: Content, at: nat, a: Alignments): Option<View>
  {
    var blank := View(0, 0, [], a.start, a.size, None);
    match c
    case RomContent(_, property, binary) => Rom.Content(blank, at, property, binary)
    case FsContent(_, property, files) => Some(ReadFs.Content(blank, at, property, files))
  }

  function End(v: View): nat
    requires v.Size().Some?
  {
    v.offset + v.Size().value
  }

  // The sections of a flash; None when a section cannot be placed, or overflows the flash.
  function Layout(contents: seq<Content>, at: nat, flashSize: nat, a: Alignments): Option<seq<View>>
  {
    if |contents| == 0 then Some([])
    else match Placed(contents[0], at, a)
         case None => None
         case Some(v) =>
           if v.Size().None? || End(v) > flashSize then None
           else match Layout(contents[1..], End(v), flashSize, a)
                case None => None
                case Some(rest) => Some([v] + rest)
  }

  // Start and size are multiples of the alignments that are powers of two.
  ghost predicate AlignedTo(v: View, a: Alignments)
  {
    && (a.start.Some? && PowerOfTwo(a.start.value) ==> a.start.value > 0 && v.offset % a.start.value == 0)
    && (a.size.Some? && PowerOfTwo(a.size.value) ==>
          a.size.value > 0 && v.Size().Some? && v.Size().value % a.size.value == 0)
  }

  // The section starts at the first place its start alignment allows.
  predicate Close(v: View, at: nat, a: Alignments)
  {
    match a.start case None => v.offset == at case Some(n) => at <= v.offset < at + n
  }

  // Sections in order from `at` on, aligned, close together, disjoint, and within the flash.
  ghost predicate Ordered(views: seq<View>, at: nat, flashSize: nat, a: Alignments)
  {
    |views| == 0
    || (var v := views[0];
        && v.Valid() && v.Size().Some? && at <= v.offset && End(v) <= flashSize
        && AlignedTo(v, a) && Close(v, at, a)
        && Ordered(views[1..], End(v), flashSize, a))
  }

  predicate Positive(a: Alignments)
  {
    Alignment(a.start) && Alignment(a.size)
  }

  lemma PlacedValid(c: Content, at: nat, a: Alignments)
    requires Positive(a) && Placed(c, at, a).Some?
    ensures Placed(c, at, a).value.Valid()
    ensures Placed(c, at, a).value.offset == Rounded(at, a.start)
    ensures Placed(c, at, a).value.startAlign == a.start && Placed(c, at, a).value.sizeAlign == a.size
  {
    hide Stacked, EndOf, Alignment, SizeFor, Rounded;
    var blank := View(0, 0, [], a.start, a.size, None);
    match c
    case RomContent(_, property, binary) => Rom.ContentValid(blank, at, property, binary);
    case FsContent(_, property, files) => ReadFs.ContentValid(blank, at, property, files);
  }

  lemma PlacedAligned(v: View, at: nat, a: Alignments)
    requires Positive(a) && v.Valid() && v.Size().Some?
    requires v.offset == Rounded(at, a.start) && v.startAlign == a.start && v.sizeAlign == a.size
    ensures at <= v.offset && AlignedTo(v, a) && Close(v, at, a)
  {
    hide Stacked, EndOf, RoundUp, PowerOfTwo, SizeFor;
    if a.start.Some? {
      RoundUpNear(at, a.start.value);
      if PowerOfTwo(a.start.value) {
        RoundUpIs(at, a.start.value);
      }
    }
    if a.size.Some? && PowerOfTwo(a.size.value) {
      RoundUpIs(0, a.size.value);
    }
    SizeCovers(v.current - v.offset, v.sizeProperty, v.startAlign, v.sizeAlign);
  }

  /** A layout that succeeds is ordered: the sections are valid, aligned, disjoint, in the order of
      the content, and end within the flash. */
  lemma {:induction false} LayoutOrdered(contents: seq<Content>, at: nat, flashSize: nat, a: Alignments)
    requires Positive(a) && Layout(contents, at, flashSize, a).Some?
    ensures Ordered(Layout(contents, at, flashSize, a).value, at, flashSize, a)
    ensures |Layout(contents, at, flashSize, a).value| == |contents|
    decreases |contents|
  {
    hide *;
    LayoutFirst(contents, at, flashSize, a);
    if |contents| == 0 {
      NoneOrdered(at, flashSize, a);
    } else {
      var v := Placed(contents[0], at, a).value;
      PlacedValid(contents[0], at, a);
      PlacedAligned(v, at, a);
      LayoutOrdered(contents[1..], End(v), flashSize, a);
      OrderedFirst(v, Layout(contents[1..], End(v), flashSize, a).value, at, flashSize, a);
    }
  }

  lemma LayoutFirst(contents: seq<Content>, at: nat, flashSize: nat, a: Alignments)
    requires Layout(contents, at, flashSize, a).Some?
    ensures |contents| == 0 ==> Layout(contents, at, flashSize, a).value == []
    ensures |contents| > 0 ==>
              && Placed(contents[0], at, a).Some? && Placed(contents[0], at, a).value.Size().Some?
              && var v := Placed(contents[0], at, a).value;
                 && End(v) <= flashSize && Layout(contents[1..], End(v), flashSize, a).Some?
                 && Layout(contents, at, flashSize, a).value == [v] + Layout(contents[1..], End(v), flashSize, a).value
  {
    hide Placed, SizeFor;
  }

  lemma NoneOrdered(at: nat, flashSize: nat, a: Alignments)
    ensures Ordered([], at, flashSize, a)
  {
  }

  lemma OrderedFirst(v: View, rest: seq<View>, at: nat, flashSize: nat, a: Alignments)
    ensures Ordered([v] + rest, at, flashSize, a)
       <==> (&& v.Valid() && v.Size().Some? && at <= v.offset && End(v) <= flashSize
             && AlignedTo(v, a) && Close(v, at, a)
             && Ordered(rest, End(v), flashSize, a))
  {
    hide SizeFor, Stacked, EndOf, Alignment, AlignedTo, Close;
    assert ([v] + rest)[1..] == rest;
  }

  // The size of a section under the size its content asks for: that size, or else what is used,
  // rounded up to the least multiple of the size alignment.
  ghost predicate SizedFor(v: View, c: Content, a: Alignments)
  {
    && v.Size().Some? && v.offset <= v.current
    && var n, used := v.Size().value, v.current - v.offset;
    && var forced := c.sizeProperty.Some? && c.sizeProperty.value != -1;
    && var floor := if forced then c.sizeProperty.value else used;
    && used <= floor <= n
    && (match a.size
        case None => n == floor
        case Some(m) => m > 0 && n % m == 0 && forall k: nat :: floor <= k && k % m == 0 ==> n <= k)
  }

  // Power-of-two alignments.
  ghost predicate Regular(a: Alignments)
  {
    && (a.start.Some? ==> a.start.value > 0 && PowerOfTwo(a.start.value))
    && (a.size.Some? ==> a.size.value > 0 && PowerOfTwo(a.size.value))
  }

  /** Every section of a layout has the size its own content asks for. */
  lemma SectionSizes(contents: seq<Content>, flashSize: nat, a: Alignments, i: nat)
    requires Regular(a) && i < |contents| && Layout(contents, 0, flashSize, a).Some?
    ensures var views := Layout(contents, 0, flashSize, a).value;
      |views| == |contents| && SizedFor(views[i], contents[i], a)
  {
    hide *;
    RegularMeans(a);
    var views := Layout(contents, 0, flashSize, a).value;
    LayoutOrdered(contents, 0, flashSize, a);
    OrderedSize(views, 0, flashSize, a, i);
    var at := LayoutAt(contents, 0, flashSize, a, i);
    PlacedSized(contents[i], at, a);
  }

  lemma RegularMeans(a: Alignments)
    requires Regular(a)
    ensures Positive(a)
  {
  }

  lemma PlacedSized(c: Content, at: nat, a: Alignments)
    requires Regular(a) && Placed(c, at, a).Some? && Placed(c, at, a).value.Size().Some?
    ensures SizedFor(Placed(c, at, a).value, c, a)
  {
    hide Rom.RomStructs, ReadFs.FsStructs, SizeFor, Stacked, EndOf, Rounded, PowerOfTwo, Rom.Used, ReadFs.DataAt;
    RegularMeans(a);
    PlacedValid(c, at, a);
    var v := Placed(c, at, a).value;
    assert v.sizeProperty == c.sizeProperty;
    SizeIsLeast(v.current - v.offset, c.sizeProperty, a.start, a.size);
  }

  // A content that no forced size keeps from being placed: one that holds it and, where sizes are
  // aligned, can be checked against the start alignment and meets it.
  predicate Sizable(c: Content, a: Alignments)
  {
    c.sizeProperty.Some? && c.sizeProperty.value != -1 ==>
      && c.sizeProperty.value >= Needed(c)
      && (a.size.Some? ==> a.start.Some? && a.start.value > 0 && c.sizeProperty.value % a.start.value == 0)
  }

  /** Wherever it goes, a section is placed and sized exactly when its content is sizable. */
  lemma PlacedFails(c: Content, at: nat, a: Alignments)
    requires Regular(a)
    ensures Placed(c, at, a).Some? && Placed(c, at, a).value.Size().Some? <==> Sizable(c, a)
  {
    hide Rom.RomStructs, ReadFs.FsStructs, SizeFor, PowerOfTwo, Rom.Used, ReadFs.DataAt, RoundUp;
    RegularMeans(a);
    SizeIsLeast(Needed(c), c.sizeProperty, a.start, a.size);
  }

  /** Which flashes have room: in the roomy one there is a layout exactly when every content is
      sizable, and any other flash has one, the same, exactly when no section of it ends behind
      that flash. */
  lemma {:induction false} LayoutExists(contents: seq<Content>, at: nat, flashSize: nat, a: Alignments)
    returns (roomy: nat)
    requires Regular(a)
    ensures Layout(contents, at, roomy, a).Some? <==> forall i :: 0 <= i < |contents| ==> Sizable(contents[i], a)
    ensures Layout(contents, at, flashSize, a).Some? ==>
              Layout(contents, at, roomy, a) == Layout(contents, at, flashSize, a)
    ensures Layout(contents, at, roomy, a).Some? ==>
              (Layout(contents, at, flashSize, a).Some? <==> EndBefore(Layout(contents, at, roomy, a).value, flashSize))
    decreases |contents|
  {
    hide *;
    LayoutParts(contents, at, flashSize, a);
    if |contents| == 0 {
      roomy := 0;
      LayoutParts(contents, at, roomy, a);
      NoneEnd(flashSize);
    } else {
      PlacedFails(contents[0], at, a);
      AllSizable(contents, a);
      if !Sizable(contents[0], a) {
        roomy := 0;
        LayoutParts(contents, at, roomy, a);
      } else {
        var v := Placed(contents[0], at, a).value;
        var enough := LayoutExists(contents[1..], End(v), flashSize, a);
        roomy := if enough > End(v) then enough else End(v);
        MoreRoom(contents[1..], End(v), enough, roomy, a);
        LayoutParts(contents, at, roomy, a);
        var _ := LayoutExists(contents[1..], End(v), roomy, a);
        if Layout(contents[1..], End(v), roomy, a).Some? {
          FirstEnds(v, Layout(contents[1..], End(v), roomy, a).value, flashSize);
        }
      }
    }
  }

  // Every section ends in the flash.
  predicate EndBefore(views: seq<View>, flashSize: nat)
  {
    forall i :: 0 <= i < |views| ==> views[i].Size().Some? && views[i].offset + views[i].Size().value <= flashSize
  }

  lemma NoneEnd(flashSize: nat)
    ensures EndBefore([], flashSize)
  {
  }

  lemma FirstEnds(v: View, rest: seq<View>, flashSize: nat)
    requires v.Size().Some?
    ensures EndBefore([v] + rest, flashSize) <==> End(v) <= flashSize && EndBefore(rest, flashSize)
  {
    hide SizeFor;
    var all := [v] + rest;
    assert all[0] == v && all[1..] == rest;
    assert forall i :: 0 <= i < |rest| ==> rest[i] == all[i + 1];
    assert forall i :: 0 < i < |all| ==> all[i] == rest[i - 1];
  }

  lemma AllSizable(contents: seq<Content>, a: Alignments)
    requires |contents| > 0
    ensures (forall i :: 0 <= i < |contents| ==> Sizable(contents[i], a))
       <==> Sizable(contents[0], a) && forall i :: 0 <= i < |contents[1..]| ==> Sizable(contents[1..][i], a)
  {
    hide Sizable;
    assert forall i :: 0 < i < |contents| ==> contents[i] == contents[1..][i - 1];
  }

  lemma LayoutParts(contents: seq<Content>, at: nat, flashSize: nat, a: Alignments)
    ensures |contents| == 0 ==> Layout(contents, at, flashSize, a) == Some([])
    ensures |contents| > 0 && (Placed(contents[0], at, a).None? || Placed(contents[0], at, a).value.Size().None?) ==>
              Layout(contents, at, flashSize, a) == None
    ensures |contents| > 0 && Placed(contents[0], at, a).Some? && Placed(contents[0], at, a).value.Size().Some? ==>
              var v := Placed(contents[0], at, a).value;
              Layout(contents, at, flashSize, a)
              == if End(v) > flashSize || Layout(contents[1..], End(v), flashSize, a).None? then None
                 else Some([v] + Layout(contents[1..], End(v), flashSize, a).value)
  {
    hide Placed, SizeFor;
  }

  lemma {:induction false} MoreRoom(contents: seq<Content>, at: nat, room: nat, more: nat, a: Alignments)
    requires room <= more
    ensures Layout(contents, at, room, a).Some? ==> Layout(contents, at, more, a) == Layout(contents, at, room, a)
    decreases |contents|
  {
    hide *;
    LayoutParts(contents, at, room, a);
    LayoutParts(contents, at, more, a);
    if |contents| == 0 {
    } else if Placed(contents[0], at, a).Some? && Placed(contents[0], at, a).value.Size().Some? {
      MoreRoom(contents[1..], End(Placed(contents[0], at, a).value), room, more, a);
    }
  }

  // The bytes the structures of a content take.
  function Needed(c: Content): nat
  {
    match c
    case RomContent(_, _, binary) => Rom.Used(binary)
    case FsContent(_, _, files) => ReadFs.DataAt(files, |files|)
  }

  // ---------------------------------------------------------------- the image

  // The sections' images, the holes between them filled with zeros; None when a section has no
  // image, or a hole has a negative size.
  function ImagesFrom(views: seq<View>, end: int): Option<seq<nat>>
  {
    if |views| == 0 then Some([])
    else
      var v := views[0];
      if v.Image().None? || v.Size().None? || v.offset < end then None
      else match ImagesFrom(views[1..], End(v))
           case None => None
           case Some(rest) => Some(Zeros(v.offset - end) + v.Image().value + rest)
  }

  // No padding before the first section.
  function FlashImage(views: seq<View>): Option<seq<nat>>
  {
    if |views| == 0 then Some([]) else ImagesFrom(views, views[0].offset)
  }

  predicate Imaged(views: seq<View>)
  {
    forall i :: 0 <= i < |views| ==> views[i].Image().Some?
  }

  lemma ImagedFirst(views: seq<View>)
    requires |views| > 0
    ensures Imaged(views) <==> views[0].Image().Some? && Imaged(views[1..])
  {
    hide ImageFor, SizeFor;
    assert forall i :: 0 < i < |views| ==> views[i] == views[1..][i - 1];
  }

  lemma ImagesFirst(views: seq<View>, end: int)
    requires |views| > 0
    ensures ImagesFrom(views, end)
         == var v := views[0];
            if v.Image().None? || v.Size().None? || v.offset < end then None
            else match ImagesFrom(views[1..], End(v))
                 case None => None
                 case Some(rest) => Some(Zeros(v.offset - end) + v.Image().value + rest)
  {
    hide ImageFor, SizeFor;
  }

  lemma OrderedMeans(views: seq<View>, at: nat, flashSize: nat, a: Alignments)
    requires Ordered(views, at, flashSize, a) && |views| > 0
    ensures var v := views[0];
            && v.Valid() && v.Size().Some? && at <= v.offset && End(v) <= flashSize && End(v) >= v.offset
            && Ordered(views[1..], End(v), flashSize, a)
  {
    hide SizeFor, Stacked, EndOf, Alignment;
  }

  lemma SectionImage(v: View)
    requires v.Valid() && v.Size().Some? && v.Image().Some?
    ensures |v.Image().value| == v.Size().value == End(v) - v.offset
  {
    hide SizeFor, Stacked, EndOf, Alignment, PackStructs;
    ImageFits(v);
  }

  /** For a layout, no padding is ever negative: there is a flash image exactly when every section
      has one. */
  lemma {:induction false} ImageExists(views: seq<View>, at: nat, flashSize: nat, a: Alignments)
    requires Ordered(views, at, flashSize, a)
    ensures ImagesFrom(views, at).Some? <==> Imaged(views)
    decreases |views|
  {
    hide *;
    if |views| == 0 {
      NoImages(at);
      assert views == [];
    } else {
      OrderedMeans(views, at, flashSize, a);
      ImageExists(views[1..], End(views[0]), flashSize, a);
      ImagesFirst(views, at);
      ImagedFirst(views);
    }
  }

  lemma NoImages(end: int)
    ensures ImagesFrom([], end) == Some([]) && Imaged([])
  {
  }

  // The section's image is in the flash image, which starts at flash offset `at`.
  predicate SectionAt(image: seq<nat>, v: View, at: nat)
  {
    && v.Image().Some? && at <= v.offset && v.offset - at + |v.Image().value| <= |image|
    && image[v.offset - at..v.offset - at + |v.Image().value|] == v.Image().value
  }

  lemma {:induction false} SectionsLand(views: seq<View>, at: nat, flashSize: nat, a: Alignments, i: nat)
    requires Ordered(views, at, flashSize, a) && ImagesFrom(views, at).Some? && i < |views|
    ensures SectionAt(ImagesFrom(views, at).value, views[i], at)
    decreases |views|
  {
    hide *;
    OrderedMeans(views, at, flashSize, a);
    ImagesFirst(views, at);
    var v, rest := views[0], ImagesFrom(views[1..], End(views[0])).value;
    SectionImage(v);
    if i == 0 {
      FirstLands(v, at, rest);
    } else {
      SectionsLand(views[1..], End(v), flashSize, a, i - 1);
      LaterLands(v, at, rest, views[i]);
    }
  }

  lemma FirstLands(v: View, at: nat, rest: seq<nat>)
    requires v.Image().Some? && at <= v.offset
    ensures SectionAt(Zeros(v.offset - at) + v.Image().value + rest, v, at)
  {
    hide ImageFor, SizeFor;
  }

  lemma LaterLands(v: View, at: nat, rest: seq<nat>, w: View)
    requires v.Image().Some? && v.Size().Some? && at <= v.offset && |v.Image().value| == End(v) - v.offset
    requires SectionAt(rest, w, End(v))
    ensures SectionAt(Zeros(v.offset - at) + v.Image().value + rest, w, at)
  {
    hide ImageFor, SizeFor;
    var head := Zeros(v.offset - at) + v.Image().value;
    var x, n := w.offset - End(v), |w.Image().value|;
    assert |head| + x == w.offset - at;
    assert (head + rest)[|head| + x..|head| + x + n] == rest[x..x + n];
  }

  // Position x of an image that starts at flash offset `at` belongs to a section.
  ghost predicate InSection(views: seq<View>, at: nat, x: nat)
  {
    exists i :: 0 <= i < |views| && views[i].Size().Some? && views[i].offset <= at + x < End(views[i])
  }

  // Where the last section ends.
  function LastEnd(views: seq<View>, at: nat): nat
    requires forall i :: 0 <= i < |views| ==> views[i].Size().Some?
  {
    if |views| == 0 then at else End(views[|views| - 1])
  }

  /** What is between the sections is zero, and nothing follows the last. */
  lemma {:induction false} HolesAreZero(views: seq<View>, at: nat, flashSize: nat, a: Alignments, x: nat)
    requires Ordered(views, at, flashSize, a) && ImagesFrom(views, at).Some?
    ensures forall i :: 0 <= i < |views| ==> views[i].Size().Some?
    ensures var image := ImagesFrom(views, at).value;
      at + |image| == LastEnd(views, at) && (x < |image| && !InSection(views, at, x) ==> image[x] == 0)
    decreases |views|
  {
    hide *;
    if |views| == 0 {
      NoImages(at);
      assert views == [];
      NoSections(at);
    } else {
      OrderedMeans(views, at, flashSize, a);
      ImagesFirst(views, at);
      var v, rest := views[0], ImagesFrom(views[1..], End(views[0])).value;
      SectionImage(v);
      var n := End(v) - at;
      HolesAreZero(views[1..], End(v), flashSize, a, if x >= n then x - n else 0);
      HolesFirst(views, at, x, rest);
    }
  }

  lemma NoSections(at: nat)
    ensures LastEnd([], at) == at
  {
  }

  lemma HolesFirst(views: seq<View>, at: nat, x: nat, rest: seq<nat>)
    requires |views| > 0 && views[0].Size().Some? && at <= views[0].offset <= End(views[0])
    requires views[0].Image().Some? && |views[0].Image().value| == End(views[0]) - views[0].offset
    requires forall i :: 0 <= i < |views[1..]| ==> views[1..][i].Size().Some?
    requires var n := End(views[0]) - at;
      && End(views[0]) + |rest| == LastEnd(views[1..], End(views[0]))
      && (n <= x < n + |rest| && !InSection(views[1..], End(views[0]), x - n) ==> rest[x - n] == 0)
    ensures forall i :: 0 <= i < |views| ==> views[i].Size().Some?
    ensures var image := Zeros(views[0].offset - at) + views[0].Image().value + rest;
      at + |image| == LastEnd(views, at) && (x < |image| && !InSection(views, at, x) ==> image[x] == 0)
  {
    hide SizeFor, ImageFor;
    var v, n := views[0], End(views[0]) - at;
    assert forall i :: 0 < i < |views| ==> views[i] == views[1..][i - 1];
    if x >= n && InSection(views[1..], End(v), x - n) {
      var i :| 0 <= i < |views[1..]| && views[1..][i].Size().Some?
               && views[1..][i].offset <= End(v) + (x - n) < End(views[1..][i]);
      assert views[i + 1] == views[1..][i];
      assert InSection(views, at, x);
    }
    if v.offset <= at + x < End(v) {
      assert views[0] == v;
      assert InSection(views, at, x);
    }
  }

  lemma FirstAtZero(contents: seq<Content>, flashSize: nat, a: Alignments)
    requires Positive(a) && |contents| > 0 && Layout(contents, 0, flashSize, a).Some?
    ensures |Layout(contents, 0, flashSize, a).value| > 0 && Layout(contents, 0, flashSize, a).value[0].offset == 0
  {
    hide *;
    LayoutFirst(contents, 0, flashSize, a);
    PlacedValid(contents[0], 0, a);
    RoundedZero(a);
  }

  lemma RoundedZero(a: Alignments)
    requires Positive(a)
    ensures Rounded(0, a.start) == 0
  {
    hide AndNot;
    if a.start.Some? {
      AndNotSelf(a.start.value - 1);
    }
  }

  /** The whole flash image holds the image of every section at the section's flash offset. */
  lemma FlashHoldsSections(contents: seq<Content>, flashSize: nat, a: Alignments, i: nat)
    requires Positive(a) && i < |contents| && Layout(contents, 0, flashSize, a).Some?
    requires FlashImage(Layout(contents, 0, flashSize, a).value).Some?
    ensures var views := Layout(contents, 0, flashSize, a).value;
            |views| == |contents| && SectionAt(FlashImage(views).value, views[i], 0)
  {
    hide *;
    var views := Layout(contents, 0, flashSize, a).value;
    LayoutOrdered(contents, 0, flashSize, a);
    FirstAtZero(contents, flashSize, a);
    ImageFromZero(views);
    SectionsLand(views, 0, flashSize, a, i);
  }

  lemma ImageFromZero(views: seq<View>)
    requires |views| > 0 && views[0].offset == 0
    ensures FlashImage(views) == ImagesFrom(views, 0)
  {
    hide ImagesFrom;
  }

  // ---------------------------------------------------------------- which contents have an image

  // The values the structures of a section must hold fit their fields.
  predicate Fits(c: Content, v: View)
    requires v.Size().Some?
  {
    match c
    case RomContent(_, _, binary) => Rom.FieldsFit(v.offset, v.Size().value, binary)
    case FsContent(_, _, files) => ReadFs.FieldsFit(files)
  }

  predicate FieldsFit(contents: seq<Content>, views: seq<View>)
  {
    |views| == |contents| && forall i :: 0 <= i < |views| ==> views[i].Size().Some? && Fits(contents[i], views[i])
  }

  lemma PlacedImage(c: Content, at: nat, a: Alignments)
    requires Positive(a) && Placed(c, at, a).Some? && Placed(c, at, a).value.Size().Some?
    ensures var v := Placed(c, at, a).value; v.Image().Some? <==> Fits(c, v)
  {
    hide Rom.RomStructs, ReadFs.FsStructs, Rom.FieldsFit, ReadFs.FieldsFit, SizeFor, ImageFor, Stacked, EndOf, Rounded,
      Alignment, Rom.Used, ReadFs.DataAt;
    PlacedValid(c, at, a);
    var v := Placed(c, at, a).value;
    match c
    case RomContent(_, _, binary) => Rom.ImageExists(v, binary);
    case FsContent(_, _, files) => ReadFs.ImageExists(v, files);
  }

  /** A flash that was laid out has an image exactly when the values of every section fit. */
  lemma FlashImageExists(contents: seq<Content>, flashSize: nat, a: Alignments)
    requires Positive(a) && Layout(contents, 0, flashSize, a).Some?
    ensures var views := Layout(contents, 0, flashSize, a).value;
            FlashImage(views).Some? <==> FieldsFit(contents, views)
  {
    hide *;
    var views := Layout(contents, 0, flashSize, a).value;
    LayoutOrdered(contents, 0, flashSize, a);
    FirstOffset(contents, views, flashSize, a);
    ImageExists(views, 0, flashSize, a);
    forall i | 0 <= i < |views|
      ensures views[i].Size().Some? && (views[i].Image().Some? <==> Fits(contents[i], views[i]))
    {
      OrderedSize(views, 0, flashSize, a, i);
      var at := LayoutAt(contents, 0, flashSize, a, i);
      PlacedImage(contents[i], at, a);
    }
    FitsEach(contents, views);
  }

  lemma FirstOffset(contents: seq<Content>, views: seq<View>, flashSize: nat, a: Alignments)
    requires Positive(a) && Layout(contents, 0, flashSize, a) == Some(views) && |views| == |contents|
    ensures FlashImage(views) == ImagesFrom(views, 0)
  {
    hide *;
    if |contents| > 0 {
      FirstAtZero(contents, flashSize, a);
      ImageFromZero(views);
    } else {
      NoImages(0);
      assert views == [];
      NoFlashImage();
    }
  }

  lemma NoFlashImage()
    ensures FlashImage([]) == Some([])
  {
  }

  lemma {:induction false} OrderedSize(views: seq<View>, at: nat, flashSize: nat, a: Alignments, i: nat)
    requires Ordered(views, at, flashSize, a) && i < |views|
    ensures views[i].Valid() && views[i].Size().Some? && at <= views[i].offset && End(views[i]) <= flashSize
    decreases |views|
  {
    hide *;
    OrderedMeans(views, at, flashSize, a);
    if i == 0 {
    } else {
      OrderedSize(views[1..], End(views[0]), flashSize, a, i - 1);
    }
  }

  lemma FitsEach(contents: seq<Content>, views: seq<View>)
    requires |views| == |contents|
    requires forall i :: 0 <= i < |views| ==>
               views[i].Size().Some? && (views[i].Image().Some? <==> Fits(contents[i], views[i]))
    ensures Imaged(views) <==> FieldsFit(contents, views)
  {
    hide Fits, ImageFor, SizeFor;
  }

  // The entry and the load addresses of a ROM are 32-bit numbers.
  predicate Loadable(c: Content)
  {
    c.RomContent? && c.binary.Some? ==>
      c.binary.value.entry < WORD32
      && forall k :: 0 <= k < |c.binary.value.segments| ==> c.binary.value.segments[k].base < WORD32
  }

  /** In a flash below 4 GiB everything else fits by itself: a layout that succeeds has an image
      exactly when the entries and load addresses are 32-bit numbers. */
  lemma SmallFlashFits(contents: seq<Content>, flashSize: nat, a: Alignments)
    requires Positive(a) && flashSize < WORD32 && Layout(contents, 0, flashSize, a).Some?
    ensures FieldsFit(contents, Layout(contents, 0, flashSize, a).value)
       <==> forall i :: 0 <= i < |contents| ==> Loadable(contents[i])
  {
    hide *;
    var views := Layout(contents, 0, flashSize, a).value;
    LayoutOrdered(contents, 0, flashSize, a);
    forall i | 0 <= i < |views|
      ensures views[i].Size().Some? && (Fits(contents[i], views[i]) <==> Loadable(contents[i]))
    {
      OrderedSize(views, 0, flashSize, a, i);
      var at := LayoutAt(contents, 0, flashSize, a, i);
      PlacedFits(contents[i], at, flashSize, a);
    }
    LoadableEach(contents, views);
  }

  lemma LoadableEach(contents: seq<Content>, views: seq<View>)
    requires |views| == |contents|
    requires forall i :: 0 <= i < |views| ==>
               views[i].Size().Some? && (Fits(contents[i], views[i]) <==> Loadable(contents[i]))
    ensures FieldsFit(contents, views) <==> forall i :: 0 <= i < |contents| ==> Loadable(contents[i])
  {
    hide Fits, Loadable, SizeFor;
  }

  lemma PlacedFits(c: Content, at: nat, flashSize: nat, a: Alignments)
    requires Positive(a) && Placed(c, at, a).Some? && Placed(c, at, a).value.Size().Some?
    requires End(Placed(c, at, a).value) <= flashSize < WORD32
    ensures Fits(c, Placed(c, at, a).value) <==> Loadable(c)
  {
    hide SizeFor, Stacked, EndOf, Alignment, Rounded, Rom.RomStructs, ReadFs.FsStructs, Rom.Sizes, ReadFs.Headers,
         ReadFs.Sizes;
    PlacedValid(c, at, a);
    var v := Placed(c, at, a).value;
    SizeCovers(v.current - v.offset, v.sizeProperty, v.startAlign, v.sizeAlign);
    match c
    case RomContent(_, _, binary) =>
      if binary.Some? {
        Rom.SmallFits(v.offset, v.Size().value, binary.value);
      }
    case FsContent(_, _, files) =>
      ReadFs.HeadersBound(files);
      forall i | 0 <= i < |files|
        ensures ReadFs.DataAt(files, i) + |files[i].data| <= v.current - v.offset
                 && |files[i].name| + 13 <= v.current - v.offset
      {
        ReadFs.SizesBound(files, i);
      }
  }

  // ---------------------------------------------------------------- pointers in the flash

  lemma {:induction false} LayoutAt(contents: seq<Content>, at: nat, flashSize: nat, a: Alignments, i: nat)
      returns (start: nat)
    requires Layout(contents, at, flashSize, a).Some? && i < |contents|
    ensures |Layout(contents, at, flashSize, a).value| > i
    ensures Placed(contents[i], start, a) == Some(Layout(contents, at, flashSize, a).value[i])
    decreases |contents|
  {
    hide *;
    LayoutFirst(contents, at, flashSize, a);
    var v := Placed(contents[0], at, a).value;
    if i == 0 {
      start := at;
    } else {
      start := LayoutAt(contents[1..], End(v), flashSize, a, i - 1);
    }
  }

  lemma RomPlaced(c: Content, at: nat, a: Alignments, b: Rom.Binary)
    requires c.RomContent? && c.binary == Some(b) && Positive(a) && Placed(c, at, a).Some?
    requires Placed(c, at, a).value.Size().Some? && Fits(c, Placed(c, at, a).value)
    ensures Rom.Holds(Placed(c, at, a).value, b)
  {
    hide Rom.RomStructs, Rom.FieldsFit, SizeFor, ImageFor, Stacked, EndOf, Rounded, Rom.Used, Alignment;
    PlacedValid(c, at, a);
    Rom.ContentValid(View(0, 0, [], a.start, a.size, None), at, c.sizeProperty, c.binary);
  }

  lemma FsPlaced(c: Content, at: nat, a: Alignments)
    requires c.FsContent? && Positive(a) && Placed(c, at, a).Some? && Placed(c, at, a).value.Size().Some?
    requires Fits(c, Placed(c, at, a).value)
    ensures ReadFs.Holds(Placed(c, at, a).value, c.files)
  {
    hide ReadFs.FsStructs, ReadFs.FieldsFit, SizeFor, ImageFor, Stacked, EndOf, Rounded, ReadFs.DataAt, Alignment;
    PlacedValid(c, at, a);
  }

  // Words and ranges of a section read the same in the flash image.
  lemma ReadsInFlash(image: seq<nat>, v: View, x: nat)
    requires SectionAt(image, v, 0) && x + 4 <= |v.Image().value|
    ensures v.offset + x + 4 <= |image| && Read32(image, v.offset + x) == Read32(v.Image().value, x)
  {
    hide ImageFor, SizeFor, FromLittle;
    RangeInFlash(image, v, x, 4);
  }

  lemma RangeInFlash(image: seq<nat>, v: View, x: nat, n: nat)
    requires SectionAt(image, v, 0) && x + n <= |v.Image().value|
    ensures v.offset + x + n <= |image| && image[v.offset + x..v.offset + x + n] == v.Image().value[x..x + n]
  {
    hide ImageFor, SizeFor;
    SliceOfSlice(image, v.offset, v.offset + |v.Image().value|, x, x + n);
  }

  /** In the whole flash image, the header of every segment of a ROM section holds an absolute
      offset and a size that select exactly the data of that segment. */
  lemma SegmentsInFlash(contents: seq<Content>, flashSize: nat, a: Alignments, i: nat, b: Rom.Binary, k: nat)
    requires Positive(a) && i < |contents| && Layout(contents, 0, flashSize, a).Some?
    requires FieldsFit(contents, Layout(contents, 0, flashSize, a).value)
    requires contents[i].RomContent? && contents[i].binary == Some(b) && k < |b.segments|
    ensures var views := Layout(contents, 0, flashSize, a).value;
            && |views| == |contents| && FlashImage(views).Some?
            && var image, h := FlashImage(views).value, views[i].offset + 16 + 16 * k;
               && h + 16 <= |image| && Read32(image, h + 4) == b.segments[k].base
               && var at, n := Read32(image, h), Read32(image, h + 8);
                  at + n <= |image| && image[at..at + n] == b.segments[k].data
  {
    hide *;
    var views := Layout(contents, 0, flashSize, a).value;
    FlashImageExists(contents, flashSize, a);
    FitsAt(contents, views, i);
    FlashHoldsSections(contents, flashSize, a, i);
    var start := LayoutAt(contents, 0, flashSize, a, i);
    var v, image, x := views[i], FlashImage(views).value, 16 + 16 * k;
    SectionAtMeans(image, v);
    RomPlaced(contents[i], start, a, b);
    Rom.SegmentReadsBack(v, b, k);
    ReadsInFlash(image, v, x);
    ReadsInFlash(image, v, x + 4);
    ReadsInFlash(image, v, x + 8);
    RangeInFlash(image, v, Read32(v.Image().value, x) - v.offset, |b.segments[k].data|);
  }

  lemma FitsAt(contents: seq<Content>, views: seq<View>, i: nat)
    requires FieldsFit(contents, views) && i < |contents|
    ensures |views| == |contents| && views[i].Size().Some? && Fits(contents[i], views[i])
  {
    hide Fits, SizeFor;
  }

  lemma SectionAtMeans(image: seq<nat>, v: View)
    requires SectionAt(image, v, 0)
    ensures v.Image().Some? && v.offset + |v.Image().value| <= |image|
    ensures image[v.offset..v.offset + |v.Image().value|] == v.Image().value
  {
    hide ImageFor, SizeFor;
  }

  /** A ReadFS section cut out of the flash image reads back as its files, if and only if all
      names are ASCII. */
  lemma FilesInFlash(contents: seq<Content>, flashSize: nat, a: Alignments, i: nat)
    requires Positive(a) && i < |contents| && Layout(contents, 0, flashSize, a).Some?
    requires FieldsFit(contents, Layout(contents, 0, flashSize, a).value)
    requires contents[i].FsContent? && ReadFs.AllNulFree(contents[i].files)
    ensures var views := Layout(contents, 0, flashSize, a).value;
            && |views| == |contents| && views[i].Size().Some? && FlashImage(views).Some?
            && var image := FlashImage(views).value;
               && End(views[i]) <= |image|
               && ReadFs.ReadImage(image[views[i].offset..End(views[i])])
                  == if ReadFs.AllAscii(contents[i].files) then Some(contents[i].files) else None
  {
    hide *;
    var views := Layout(contents, 0, flashSize, a).value;
    FlashImageExists(contents, flashSize, a);
    FitsAt(contents, views, i);
    FlashHoldsSections(contents, flashSize, a, i);
    var start := LayoutAt(contents, 0, flashSize, a, i);
    var v, image := views[i], FlashImage(views).value;
    SectionAtMeans(image, v);
    PlacedValid(contents[i], start, a);
    ImageSized(v);
    SectionImage(v);
    FsPlaced(contents[i], start, a);
    FsHolds(v, contents[i].files);
    ReadFs.ImageReadsBack(v, contents[i].files);
  }

  lemma FsHolds(v: View, files: seq<ReadFs.File>)
    requires ReadFs.Holds(v, files)
    ensures ReadFs.Filled(v, files) && ReadFs.FieldsFit(files)
  {
    hide ReadFs.Filled, ReadFs.FieldsFit;
  }

  lemma ImageSized(v: View)
    requires v.Image().Some?
    ensures v.Size().Some?
  {
    hide SizeFor, PackStructs;
  }

  // ---------------------------------------------------------------- the flash object

  predicate UniqueNames(contents: seq<Content>)
  {
    forall i, j :: 0 <= i < j < |contents| ==> contents[i].name != contents[j].name
  }

  // The sections show these views, one each.
  ghost predicate Shows(sections: seq<Section>, views: seq<View>)
    reads sections
  {
    |sections| == |views| && forall i :: 0 <= i < |sections| ==> sections[i].AsView() == views[i]
  }

  ghost predicate Distinct(sections: seq<Section>)
  {
    forall i, j :: 0 <= i < j < |sections| ==> sections[i] != sections[j]
  }

  const BLANK := View(0, 0, [], None, None, None)

  class Flash {
    const size: nat
    const attributes: Alignments
    var sections: seq<Section>

    constructor (size: nat, attributes: Alignments)
      ensures this.size == size && this.attributes == attributes && sections == []
    {
      this.size, this.attributes, sections := size, attributes, [];
    }

    // The first loop of the parser: one section object per entry.
    method CreateSections(contents: seq<Content>)
      requires sections == [] && UniqueNames(contents)
      modifies this
      ensures |sections| == |contents| && Distinct(sections) && fresh(sections)
      ensures forall i :: 0 <= i < |sections| ==> sections[i].AsView() == BLANK
    {
      var i := 0;
      while i < |contents|
        invariant 0 <= i <= |contents| && |sections| == i && Distinct(sections) && fresh(sections)
        invariant forall k :: 0 <= k < i ==> sections[k].AsView() == BLANK
      {
        var section := new Section();
        sections := sections + [section];
        i := i + 1;
      }
    }

    // One round of the second loop: alignments, content, and the end of the section.
    method PlaceSection(section: Section, c: Content, flashOffset: nat) returns (next: Option<nat>)
      requires Positive(attributes) && section.AsView() == BLANK
      modifies section
      ensures next == match Placed(c, flashOffset, attributes)
                      case None => None
                      case Some(v) => if v.Size().None? || End(v) > size then None else Some(End(v))
      ensures next.Some? ==> section.AsView() == Placed(c, flashOffset, attributes).value
    {
      hide SizeFor, Rom.RomStructs, ReadFs.FsStructs, Alignment, Rounded, Stacked, EndOf, Rom.Used, ReadFs.DataAt;
      section.SetAlignments(attributes.start, attributes.size);
      match c {
        case RomContent(_, property, binary) =>
          var ok := Rom.SetContent(section, flashOffset, property, binary);
          if !ok {
            return None;
          }
        case FsContent(_, property, files) =>
          ReadFs.SetContent(section, flashOffset, property, files);
      }
      var n := section.GetSize();
      if n.None? {
        return None;
      }
      var end := section.offset + n.value;
      if end > size {
        return None;
      }
      return Some(end);
    }

    /** __parse_content: creates the sections and lays them out; fails exactly when one of them
        cannot be placed or overflows the flash. */
    method ParseContent(contents: seq<Content>) returns (ok: bool)
      requires sections == [] && UniqueNames(contents) && Positive(attributes)
      modifies this
      ensures ok == Layout(contents, 0, size, attributes).Some?
      ensures ok ==> Shows(sections, Layout(contents, 0, size, attributes).value) && Distinct(sections)
    {
      hide Placed, Layout, SizeFor, UniqueNames, Positive;
      CreateSections(contents);
      var flashOffset, i := 0, 0;
      ghost var done: seq<View> := [];
      PrefixNone(Layout(contents, 0, size, attributes));
      assert contents[0..] == contents;
      while i < |contents|
        invariant 0 <= i <= |contents| == |sections| && |done| == i && Distinct(sections) && fresh(sections)
        invariant Layout(contents, 0, size, attributes)
                  == Behind(done, Layout(contents[i..], flashOffset, size, attributes))
        invariant forall k :: 0 <= k < i ==> sections[k].AsView() == done[k]
        invariant forall k :: i <= k < |sections| ==> sections[k].AsView() == BLANK
      {
        LayoutNext(contents, i, flashOffset, size, attributes, done);
        var next := PlaceSection(sections[i], contents[i], flashOffset);
        if next.None? {
          return false;
        }
        done := done + [Placed(contents[i], flashOffset, attributes).value];
        flashOffset := next.value;
        i := i + 1;
      }
      LayoutNone(flashOffset, size, attributes);
      assert contents[i..] == [] && done + [] == done;
      return true;
    }

    /** get_image: the images of the sections from `first` to `last`, both included, with the holes
        between them filled. */
    method GetImage(first: Option<nat>, last: Option<nat>, ghost views: seq<View>) returns (image: Option<seq<nat>>)
      requires Shows(sections, views) && forall i :: 0 <= i < |views| ==> views[i].offset <= views[i].current
      ensures image == FlashImage(Slice(views, first, last))
      ensures first == None && last == None ==> image == FlashImage(views)
    {
      SliceAll(views);
      hide ImageFor, SizeFor, ImagesFrom;
      var chosen := Slice(sections, first, last);
      ghost var part := Slice(views, first, last);
      SliceShows(sections, views, first, last);
      var result, i, end: int := [], 0, 0;
      if |chosen| > 0 {
        end := chosen[0].offset;
      }
      FlashStart(part);
      assert part[0..] == part;
      while i < |chosen|
        invariant 0 <= i <= |chosen| == |part|
        invariant FlashImage(part) == Prefixed(result, ImagesFrom(part[i..], end))
        invariant i == 0 && |chosen| > 0 ==> end == chosen[0].offset
      {
        ghost var v := part[i];
        assert chosen[i].AsView() == v;
        ImagesNext(part, i, end, result);
        // section.get_offset() - prev_section.get_offset() - prev_section.get_size()
        var padding := chosen[i].offset - end;
        var sectionImage := chosen[i].GetImage();
        var n := chosen[i].GetSize();
        if sectionImage.None? || n.None? || padding < 0 {
          return None;
        }
        result := result + (Zeros(padding) + sectionImage.value);
        end := chosen[i].offset + n.value;
        i := i + 1;
      }
      ImagesDone(end, result);
      assert part[i..] == [];
      return Some(result);
    }

    /** The flash image as get_image returns it by default: it exists exactly when the content can
        be laid out and its values fit, and holds every section image at its flash offset, zeros
        between them, and nothing behind the last. */
    method WholeImage(contents: seq<Content>) returns (image: Option<seq<nat>>)
      requires sections == [] && UniqueNames(contents) && Positive(attributes)
      modifies this
      ensures image.Some? <==> Layout(contents, 0, size, attributes).Some?
                               && FieldsFit(contents, Layout(contents, 0, size, attributes).value)
      ensures image.Some? ==> HoldsAll(Layout(contents, 0, size, attributes).value, image.value)
    {
      hide Layout, Shows, FlashImage, FieldsFit, HoldsAll, UniqueNames, Positive;
      var ok := ParseContent(contents);
      if !ok {
        return None;
      }
      ghost var views := Layout(contents, 0, size, attributes).value;
      FlashImageExists(contents, size, attributes);
      LayoutNonNegative(contents, size, attributes);
      image := GetImage(None, None, views);
      if image.Some? {
        WholeHoldsAll(contents, size, attributes);
      }
    }
  }

  // Every section image is at its offset, a position that no section covers is zero, and the image
  // ends with the last section.
  ghost predicate HoldsAll(views: seq<View>, image: seq<nat>)
  {
    && (forall i :: 0 <= i < |views| ==> views[i].Size().Some? && SectionAt(image, views[i], 0))
    && |image| == LastEnd(views, 0) && forall x: nat :: x < |image| && !InSection(views, 0, x) ==> image[x] == 0
  }

  lemma LayoutNonNegative(contents: seq<Content>, flashSize: nat, a: Alignments)
    requires Positive(a) && Layout(contents, 0, flashSize, a).Some?
    ensures var views := Layout(contents, 0, flashSize, a).value;
      forall i :: 0 <= i < |views| ==> views[i].offset <= views[i].current
  {
    hide *;
    var views := Layout(contents, 0, flashSize, a).value;
    LayoutOrdered(contents, 0, flashSize, a);
    forall i | 0 <= i < |views| ensures views[i].offset <= views[i].current {
      OrderedSize(views, 0, flashSize, a, i);
      ValidMeans(views[i]);
    }
  }

  lemma ValidMeans(v: View)
    requires v.Valid()
    ensures v.offset <= v.current
  {
    hide Stacked, EndOf, Alignment;
  }

  lemma WholeHoldsAll(contents: seq<Content>, flashSize: nat, a: Alignments)
    requires Positive(a) && Layout(contents, 0, flashSize, a).Some?
    requires FlashImage(Layout(contents, 0, flashSize, a).value).Some?
    ensures var views := Layout(contents, 0, flashSize, a).value; HoldsAll(views, FlashImage(views).value)
  {
    hide *;
    var views := Layout(contents, 0, flashSize, a).value;
    LayoutOrdered(contents, 0, flashSize, a);
    FirstOffset(contents, views, flashSize, a);
    HolesAreZero(views, 0, flashSize, a, 0);
    var image := FlashImage(views).value;
    forall x: nat | x < |image| && !InSection(views, 0, x) ensures image[x] == 0 {
      HolesAreZero(views, 0, flashSize, a, x);
    }
    forall i | 0 <= i < |views| ensures views[i].Size().Some? && SectionAt(FlashImage(views).value, views[i], 0) {
      FlashHoldsSections(contents, flashSize, a, i);
      OrderedSize(views, 0, flashSize, a, i);
    }
    MakeHoldsAll(views, image);
  }

  lemma MakeHoldsAll(views: seq<View>, image: seq<nat>)
    requires forall i :: 0 <= i < |views| ==> views[i].Size().Some? && SectionAt(image, views[i], 0)
    requires 0 + |image| == LastEnd(views, 0)
    requires forall x: nat :: x < |image| && !InSection(views, 0, x) ==> image[x] == 0
    ensures HoldsAll(views, image)
  {
    hide SectionAt, LastEnd, InSection, SizeFor;
  }

  /** An image of the sections first to last alone holds each of them, counted from the first. */
  lemma SliceHoldsSections(contents: seq<Content>, flashSize: nat, a: Alignments, first: nat, last: nat, i: nat)
    requires Positive(a) && first <= i <= last < |contents| && Layout(contents, 0, flashSize, a).Some?
    ensures var views := Layout(contents, 0, flashSize, a).value;
      && |views| == |contents|
      && var part := Slice(views, Some(first), Some(last));
      && |part| == last + 1 - first && part[i - first] == views[i]
      && (FlashImage(part).Some? ==> SectionAt(FlashImage(part).value, views[i], views[first].offset))
  {
    hide *;
    var views := Layout(contents, 0, flashSize, a).value;
    LayoutOrdered(contents, 0, flashSize, a);
    SlicePart(views, first, last);
    var part := Slice(views, Some(first), Some(last));
    OrderedPart(views, 0, flashSize, a, first, last);
    PartImage(part);
    if FlashImage(part).Some? {
      SectionsLand(part, views[first].offset, flashSize, a, i - first);
    }
  }

  lemma SlicePart<T>(s: seq<T>, first: nat, last: nat)
    requires first <= last < |s|
    ensures Slice(s, Some(first), Some(last)) == s[first..last + 1]
  {
  }

  lemma PartImage(part: seq<View>)
    requires |part| > 0
    ensures FlashImage(part) == ImagesFrom(part, part[0].offset)
  {
    hide ImagesFrom;
  }

  // Some sections of a layout are a layout, from the first of them on.
  lemma {:induction false} OrderedPart(views: seq<View>, at: nat, flashSize: nat, a: Alignments, first: nat, last: nat)
    requires Ordered(views, at, flashSize, a) && first <= last < |views|
    ensures Ordered(views[first..last + 1], views[first].offset, flashSize, a)
    decreases |views|
  {
    hide *;
    OrderedMeans(views, at, flashSize, a);
    var v := views[0];
    if first == 0 {
      assert views[0..last + 1] == [v] + views[1..][..last];
      OrderedFront(views[1..], End(v), flashSize, a, last);
      assert views == [v] + views[1..];
      Started(v, views[1..], at, flashSize, a);
      OrderedFirst(v, views[1..][..last], v.offset, flashSize, a);
    } else {
      OrderedPart(views[1..], End(v), flashSize, a, first - 1, last - 1);
      assert views[1..][first - 1..last] == views[first..last + 1];
    }
  }

  lemma Started(v: View, rest: seq<View>, at: nat, flashSize: nat, a: Alignments)
    requires Ordered([v] + rest, at, flashSize, a)
    ensures v.Valid() && v.Size().Some? && End(v) <= flashSize && AlignedTo(v, a) && Close(v, v.offset, a)
  {
    hide SizeFor, Stacked, EndOf, AlignedTo;
    OrderedFirst(v, rest, at, flashSize, a);
  }

  lemma {:induction false} OrderedFront(views: seq<View>, at: nat, flashSize: nat, a: Alignments, n: nat)
    requires Ordered(views, at, flashSize, a) && n <= |views|
    ensures Ordered(views[..n], at, flashSize, a)
    decreases |views|
  {
    hide *;
    if n == 0 {
      assert views[..0] == [];
      NoneOrdered(at, flashSize, a);
    } else {
      OrderedMeans(views, at, flashSize, a);
      var v := views[0];
      OrderedFront(views[1..], End(v), flashSize, a, n - 1);
      assert views[..n] == [v] + views[1..][..n - 1] && views == [v] + views[1..];
      OrderedFirst(v, views[1..], at, flashSize, a);
      OrderedFirst(v, views[1..][..n - 1], at, flashSize, a);
    }
  }

  // [first:last + 1] with the defaults of get_image, clipped as a slice is.
  function Slice<T>(s: seq<T>, first: Option<nat>, last: Option<nat>): seq<T>
  {
    var from := if first.None? then 0 else first.value;
    var to := if last.None? then |s| + 1 else last.value + 1;
    var hi := if to > |s| then |s| else to;
    if from >= hi then [] else s[from..hi]
  }

  /** Without bounds the slice is everything. */
  lemma SliceAll<T>(s: seq<T>)
    ensures Slice(s, None, None) == s
  {
  }

  /** Element i is selected if and only if first <= i <= last, and the selected ones keep their
      order. */
  lemma SliceSelects<T>(s: seq<T>, first: nat, last: nat)
    ensures Slice(s, Some(first), None) == if first <= |s| then s[first..] else []
    ensures Slice(s, None, Some(last)) == if last < |s| then s[..last + 1] else s
    ensures var r := Slice(s, Some(first), Some(last));
      && (forall i :: 0 <= i < |s| && first <= i <= last ==> i - first < |r| && r[i - first] == s[i])
      && (forall k :: 0 <= k < |r| ==> first + k < |s| && first + k <= last && r[k] == s[first + k])
  {
  }

  lemma SliceShows(sections: seq<Section>, views: seq<View>, first: Option<nat>, last: Option<nat>)
    requires Shows(sections, views)
    ensures Shows(Slice(sections, first, last), Slice(views, first, last))
    ensures forall i :: 0 <= i < |Slice(views, first, last)| ==> Slice(views, first, last)[i] in views
  {
  }

  function Behind(done: seq<View>, rest: Option<seq<View>>): Option<seq<View>>
  {
    match rest case None => None case Some(r) => Some(done + r)
  }

  lemma PrefixNone(rest: Option<seq<View>>)
    ensures Behind([], rest) == rest
  {
    if rest.Some? {
      assert [] + rest.value == rest.value;
    }
  }

  lemma LayoutNone(at: nat, flashSize: nat, a: Alignments)
    ensures Layout([], at, flashSize, a) == Some([])
  {
  }

  lemma LayoutNext(contents: seq<Content>, i: nat, at: nat, flashSize: nat, a: Alignments, done: seq<View>)
    requires i < |contents|
    ensures Behind(done, Layout(contents[i..], at, flashSize, a))
         == match Placed(contents[i], at, a)
            case None => None
            case Some(v) =>
              if v.Size().None? || End(v) > flashSize then None
              else Behind(done + [v], Layout(contents[i + 1..], End(v), flashSize, a))
  {
    hide Placed, SizeFor;
    assert contents[i..][1..] == contents[i + 1..];
    if Placed(contents[i], at, a).Some? {
      var v := Placed(contents[i], at, a).value;
      if v.Size().Some? && End(v) <= flashSize && Layout(contents[i + 1..], End(v), flashSize, a).Some? {
        var r := Layout(contents[i + 1..], End(v), flashSize, a).value;
        assert done + ([v] + r) == done + [v] + r;
      }
    }
  }

  lemma FlashStart(views: seq<View>)
    ensures FlashImage(views) == Prefixed([], ImagesFrom(views, if |views| == 0 then 0 else views[0].offset))
  {
    hide ImageFor, SizeFor;
    PrefixNothing(FlashImage(views));
  }

  lemma ImagesNext(views: seq<View>, i: nat, end: int, result: seq<nat>)
    requires i < |views|
    ensures var v := views[i];
            Prefixed(result, ImagesFrom(views[i..], end))
            == if v.Image().None? || v.Size().None? || v.offset < end then None
               else Prefixed(result + (Zeros(v.offset - end) + v.Image().value), ImagesFrom(views[i + 1..], End(v)))
  {
    hide ImageFor, SizeFor, ImagesFrom;
    ImagesFirst(views[i..], end);
    assert views[i..][1..] == views[i + 1..];
    var v := views[i];
    if v.Image().Some? && v.Size().Some? && v.offset >= end && ImagesFrom(views[i + 1..], End(v)).Some? {
      var z, r := Zeros(v.offset - end) + v.Image().value, ImagesFrom(views[i + 1..], End(v)).value;
      assert result + (z + r) == result + z + r;
    }
  }

  lemma ImagesDone(end: int, result: seq<nat>)
    ensures Prefixed(result, ImagesFrom([], end)) == Some(result)
  {
    assert result + [] == result;
  }
}
