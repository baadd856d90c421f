/** From table operations to sections and back: what a component loader reads is what the link
    registered. */
module PulpLink {
  import opened Bits
  import opened Buffers
  import opened ImportSections
  import opened ImportWriter
  import opened HashTables
  import ExportSection

  // ---------------------------------------------------------------- imports

  // What the section passes walk over after a run of table operations.
  function Walked(ops: seq<ImportOp>): seq<Import>
  {
    Imports(AllFrom(ImportsAfter(ops), 0))
  }

  /** The walk meets a name exactly when it is referred to, once, and with its references in the
      order they were made. */
  lemma WalkListsRefs(ops: seq<ImportOp>, name: Name)
    ensures forall i :: 0 <= i < |Walked(ops)| && Walked(ops)[i].name == name ==>
             Walked(ops)[i].refs == RefsMade(ops, name)
    ensures (exists i :: 0 <= i < |Walked(ops)| && Walked(ops)[i].name == name) <==> |RefsMade(ops, name)| > 0
    ensures forall i, j :: 0 <= i < j < |Walked(ops)| ==> Walked(ops)[i].name != Walked(ops)[j].name
  {
    hide ImportsAfter, RefsMade, Bucket, Tidy, AllFrom;
    var t := ImportsAfter(ops);
    RefsKeepOrder(ops, name);
    WalkMeetsAll(t, name);
    var chain, all := AllFrom(t, 0), Walked(ops);
    EntryIs(chain, name);
    assert all == Imports(chain);
    if i :| 0 <= i < |chain| && chain[i].name == name {
      assert all[i].name == name;
    }
    if i :| 0 <= i < |all| && all[i].name == name {
      assert chain[i].name == name;
    }
  }

  lemma EntryIs<T>(chain: Chain<T>, name: Name)
    requires Distinct(chain)
    ensures forall i :: 0 <= i < |chain| && chain[i].name == name ==> Lookup(chain, name) == Some(chain[i].value)
    ensures (exists i :: 0 <= i < |chain| && chain[i].name == name) <==> Lookup(chain, name).Some?
  {
    forall i | 0 <= i < |chain| && chain[i].name == name ensures Lookup(chain, name) == Some(chain[i].value) {
      PositionUnique(chain, name, i);
    }
  }

  lemma {:induction false} AllUsed(imports: seq<Import>)
    requires forall i :: 0 <= i < |imports| ==> |imports[i].refs| > 0
    ensures Used(imports) == imports
  {
    if |imports| == 0 {
    } else {
      AllUsed(imports[1..]);
    }
  }

  // No entry is without references, so the passes skip none.
  lemma WalkIsUsed(ops: seq<ImportOp>)
    ensures Used(Walked(ops)) == Walked(ops)
  {
    hide Walked, RefsMade;
    var all := Walked(ops);
    forall i | 0 <= i < |all| ensures |all[i].refs| > 0 {
      WalkListsRefs(ops, all[i].name);
    }
    AllUsed(all);
  }

  lemma {:induction false} ListingsAt(imports: seq<Import>, i: nat)
    requires i < |imports|
    ensures |Listings(imports)| == |imports| && Listings(imports)[i] == Listing(imports[i].name, Fuse(imports[i].refs))
    decreases |imports|
  {
    hide Fuse;
    ListingsLength(imports);
    if i == 0 {
    } else {
      ListingsAt(imports[1..], i - 1);
    }
  }

  lemma {:induction false} ListingsLength(imports: seq<Import>)
    ensures |Listings(imports)| == |imports|
  {
    hide Fuse;
    if |imports| == 0 {
    } else {
      ListingsLength(imports[1..]);
    }
  }

  /** End to end: after any run of table operations, reading the rebased sections gives one
      listing per referenced name and no name twice, each with exactly the references made to it,
      fused and moved. */
  lemma ImportsEndToEnd(ops: seq<ImportOp>, base: nat, name: Name)
    requires InRange(Used(Walked(ops))) && base < WORD32 && base % 2 == 0
    requires forall l :: l in Listings(Used(Walked(ops))) ==> Movable(l, base)
    ensures var used := Used(Walked(ops));
            var relocs := RelocSection(used);
            && ImportSections.Holds(relocs[1..], CountOf(relocs[0]))
            && var read := ListImports(NameSection(used),
              relocs[..1] + AdjustTail(relocs[1..], CountOf(relocs[0]), base));
               && read.Some?
               && ((exists l :: l in read.value && l.name == name) <==> |RefsMade(ops, name)| > 0)
               && (forall i, j :: 0 <= i < j < |read.value| ==> read.value[i].name != read.value[j].name)
               && (forall l :: l in read.value && l.name == name ==>
                 l.relocs == MoveRelocs(Fuse(RefsMade(ops, name)), base))
  {
    hide *;
    var used := Used(Walked(ops));
    RebasedImportsRead(used, base);
    WalkIsUsed(ops);
    WalkListsRefs(ops, name);
    ReadListsRefs(used, base, name, RefsMade(ops, name));
    ReadListsOnce(used, base);
  }

  lemma ReadListsOnce(used: seq<Import>, base: nat)
    requires forall i, j :: 0 <= i < j < |used| ==> used[i].name != used[j].name
    ensures var all := MoveAll(Listings(used), base);
      forall i, j :: 0 <= i < j < |all| ==> all[i].name != all[j].name
  {
    hide Listings, Fuse, MoveRelocs;
    var all := MoveAll(Listings(used), base);
    ListingsLength(used);
    forall i | 0 <= i < |used| ensures all[i].name == used[i].name {
      ListingsAt(used, i);
    }
  }

  lemma ReadListsRefs(used: seq<Import>, base: nat, name: Name, refs: seq<Ref>)
    requires forall i :: 0 <= i < |used| && used[i].name == name ==> used[i].refs == refs
    ensures (exists l :: l in MoveAll(Listings(used), base) && l.name == name)
       <==> exists i :: 0 <= i < |used| && used[i].name == name
    ensures forall l :: l in MoveAll(Listings(used), base) && l.name == name ==>
             l.relocs == MoveRelocs(Fuse(refs), base)
  {
    hide Listings, Fuse, MoveRelocs;
    var all := MoveAll(Listings(used), base);
    ListingsLength(used);
    forall i | 0 <= i < |used| ensures all[i] == Listing(used[i].name, MoveRelocs(Fuse(used[i].refs), base)) {
      ListingsAt(used, i);
    }
    if i :| 0 <= i < |used| && used[i].name == name {
      assert all[i] in all && all[i].name == name;
    }
  }

  // ---------------------------------------------------------------- exports

  // The names of a chain, in order.
  function Names(chain: Chain<nat>): (r: seq<Name>)
    ensures |r| == |chain| && forall i :: 0 <= i < |r| ==> r[i] == chain[i].name
  {
    seq(|chain|, i requires 0 <= i < |chain| => chain[i].name)
  }

  function Exports(ops: seq<ExportOp>): seq<Name>
  {
    Names(AllFrom(ExportsAfter(ops), 0))
  }

  /** The walk meets exactly the names inserted since the last release, each once. */
  lemma WalkListsExports(ops: seq<ExportOp>, name: Name)
    ensures name in Exports(ops) <==> InsertedSince(ops, name)
    ensures forall i, j :: 0 <= i < j < |Exports(ops)| ==> Exports(ops)[i] != Exports(ops)[j]
  {
    hide ExportsAfter, InsertedSince, Bucket, Tidy, AllFrom;
    var t := ExportsAfter(ops);
    var chain := AllFrom(t, 0);
    LookupIsMembership(ops, name);
    WalkMeetsAll(t, name);
    EntryIs(chain, name);
    assert name in Names(chain) <==> exists i :: 0 <= i < |chain| && chain[i].name == name;
  }

  /** End to end: reading an export section filled in after any run of table operations lists the
      inserted names and no others, each with its own value. */
  lemma ExportsEndToEnd(ops: seq<ExportOp>, b: seq<nat>, mode: nat, values: map<Name, nat>, name: Name)
    requires ExportSection.Resolved(Exports(ops), values)
    requires ExportSection.Holds(b, mode, Exports(ops), ExportSection.Values(Exports(ops), values))
    requires |Exports(ops)| < 0x8000 && ExportSection.ValuesAt(Exports(ops)) / 4 < 0x1_0000
    requires forall i :: 0 <= i < |Exports(ops)| ==> CText(Exports(ops)[i])
    ensures var read := ExportSection.ReadExports(b);
            && read.Some? && read.value.mode == mode % 2 && |read.value.names| == |read.value.values| == |Exports(ops)|
            && (forall i, j :: 0 <= i < j < |read.value.names| ==> read.value.names[i].name != read.value.names[j].name)
            && (InsertedSince(ops, name) <==>
                  exists i :: 0 <= i < |read.value.names| && read.value.names[i].name == name)
            && (forall i :: 0 <= i < |read.value.names| && read.value.names[i].name == name ==>
                  name in values && read.value.values[i] == Low32(values[name]))
  {
    hide *;
    var names := Exports(ops);
    var linked := ExportSection.Values(names, values);
    LinkedValues(names, values);
    ExportSection.ExportsReadBack(b, mode, names, linked);
    WalkListsExports(ops, name);
    NamesListed(names);
  }

  lemma LinkedValues(names: seq<Name>, values: map<Name, nat>)
    requires ExportSection.Resolved(names, values)
    ensures var v := ExportSection.Values(names, values);
            |v| == |names| && forall i :: 0 <= i < |v| ==>
              names[i] in values && v[i] == Low32(values[names[i]]) < WORD32
  {
    hide Low32;
  }

  lemma {:induction false} NamesListed(names: seq<Name>)
    ensures |ExportSection.Unsectioned(names)| == |names|
    ensures forall i :: 0 <= i < |names| ==> ExportSection.Unsectioned(names)[i].name == names[i]
  {
    if |names| == 0 {
    } else {
      NamesListed(names[1..]);
    }
  }
}
