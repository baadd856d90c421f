/** Structures declared field by field: each field is given its flash offset when it is
    declared, and the bytes are packed only later. */
module Structs {
  import opened Bits
  import opened Buffers

  // One item of a struct format: 'B', 'H', 'I', 'Q', or '{n}s'.
  datatype Format = Scalar(size: nat) | Array(size: nat)

  datatype Value = Number(n: nat) | Data(bytes: seq<nat>)

  datatype Field = Field(name: string, size: nat, value: Value, offset: nat)

  // CStruct: the fields in dictionary order, and the format and size added up beside them.
  datatype Struct = Struct(fields: seq<Field>, format: seq<Format>, size: nat)

  const EMPTY := Struct([], [], 0)

  // ---------------------------------------------------------------- packing

  function LittleBytes(n: nat, k: nat): (r: seq<nat>)
    ensures |r| == k
    decreases k
  {
    if k == 0 then [] else [n % 256] + LittleBytes(n / 256, k - 1)
  }

  /** A number that fits its bytes reads back from them. */
  lemma {:induction false} LittleReadsBack(n: nat, k: nat)
    ensures FromLittle(LittleBytes(n, k)) == n <==> n < Pow2(8 * k)
    decreases k
  {
    hide Pow2;
    if k == 0 {
      PowZero();
    } else {
      LittleReadsBack(n / 256, k - 1);
      Pow2Add(8, 8 * (k - 1));
      Pow2Small();
      var low := FromLittle(LittleBytes(n / 256, k - 1));
      assert FromLittle(LittleBytes(n, k)) == n % 256 + 256 * low;
    }
  }

  lemma PowZero()
    ensures Pow2(0) == 1
  {
  }

  // One value packed by its format item; None is struct.error.
  function PackItem(f: Format, v: Value): Option<seq<nat>>
  {
    match (f, v)
    case (Scalar(k), Number(n)) => if n < Pow2(8 * k) then Some(LittleBytes(n, k)) else None
    case (Array(k), Data(b)) => Some(if |b| >= k then b[..k] else b + Zeros(k - |b|))
    case _ => None
  }

  function PackAll(format: seq<Format>, values: seq<Value>): Option<seq<nat>>
  {
    if |format| != |values| then None
    else if |format| == 0 then Some([])
    else match PackItem(format[0], values[0])
         case None => None
         case Some(b) =>
           match PackAll(format[1..], values[1..])
           case None => None
           case Some(rest) => Some(b + rest)
  }

  function Values(fields: seq<Field>): (r: seq<Value>)
    ensures |r| == |fields| && forall i :: 0 <= i < |r| ==> r[i] == fields[i].value
  {
    seq(|fields|, i requires 0 <= i < |fields| => fields[i].value)
  }

  function Pack(s: Struct): Option<seq<nat>>
  {
    PackAll(s.format, Values(s.fields))
  }

  function Width(format: seq<Format>): nat
  {
    if |format| == 0 then 0 else format[0].size + Width(format[1..])
  }

  lemma {:induction false} WidthAppend(a: seq<Format>, b: seq<Format>)
    ensures Width(a + b) == Width(a) + Width(b)
  {
    if |a| == 0 {
      assert a + b == b;
    } else {
      assert (a + b)[1..] == a[1..] + b;
      WidthAppend(a[1..], b);
    }
  }

  lemma ItemWidth(f: Format, v: Value)
    requires PackItem(f, v).Some?
    ensures |PackItem(f, v).value| == f.size
  {
    hide Pow2;
  }

  lemma PackFirst(format: seq<Format>, values: seq<Value>)
    requires |format| > 0 && PackAll(format, values).Some?
    ensures |values| == |format| && PackItem(format[0], values[0]).Some? && PackAll(format[1..], values[1..]).Some?
    ensures PackAll(format, values).value == PackItem(format[0], values[0]).value
             + PackAll(format[1..], values[1..]).value
  {
    hide PackItem;
  }

  lemma {:induction false} PackWidth(format: seq<Format>, values: seq<Value>)
    requires PackAll(format, values).Some?
    ensures |PackAll(format, values).value| == Width(format)
  {
    hide PackItem;
    if |format| == 0 {
    } else {
      PackFirst(format, values);
      ItemWidth(format[0], values[0]);
      PackWidth(format[1..], values[1..]);
    }
  }

  lemma {:induction false} PackAt(format: seq<Format>, values: seq<Value>, i: nat)
    requires PackAll(format, values).Some? && i < |format|
    ensures |values| == |format| && PackItem(format[i], values[i]).Some?
    ensures var b, at := PackAll(format, values).value, Width(format[..i]);
            at + format[i].size <= |b| && b[at..at + format[i].size] == PackItem(format[i], values[i]).value
  {
    hide PackItem, PackAll;
    PackFirst(format, values);
    ItemWidth(format[0], values[0]);
    var first, rest := PackItem(format[0], values[0]).value, PackAll(format[1..], values[1..]).value;
    if i > 0 {
      PackAt(format[1..], values[1..], i - 1);
      assert format[..i][1..] == format[1..][..i - 1];
      var at := Width(format[1..][..i - 1]);
      assert (first + rest)[|first| + at..|first| + at + format[i].size] == rest[at..at + format[i].size];
    } else {
      assert format[..0] == [];
    }
  }

  predicate AllPack(format: seq<Format>, values: seq<Value>)
    requires |format| == |values|
  {
    forall i :: 0 <= i < |format| ==> PackItem(format[i], values[i]).Some?
  }

  /** Packing succeeds exactly when every item packs. */
  lemma {:induction false} PackAllWhen(format: seq<Format>, values: seq<Value>)
    requires |format| == |values|
    ensures PackAll(format, values).Some? <==> AllPack(format, values)
  {
    hide PackItem;
    if |format| == 0 {
    } else {
      var f, v := format[1..], values[1..];
      PackAllWhen(f, v);
      assert AllPack(format, values) <==> PackItem(format[0], values[0]).Some? && AllPack(f, v) by {
        assert forall i :: 0 < i < |format| ==> format[i] == f[i - 1] && values[i] == v[i - 1];
      }
    }
  }

  // A number fits the bytes of its item; arrays always pack.
  lemma ItemPacks(f: Format, v: Value)
    ensures f.Scalar? && v.Number? ==> (PackItem(f, v).Some? <==> v.n < Pow2(8 * f.size))
    ensures f.Array? && v.Data? ==> PackItem(f, v).Some?
  {
    hide Pow2;
  }

  // ---------------------------------------------------------------- declaring fields

  // Where the name is among the fields; their number when it is not.
  function Position(fields: seq<Field>, name: string): (k: nat)
    ensures k <= |fields| && (k < |fields| ==> fields[k].name == name)
    ensures forall j :: 0 <= j < k ==> fields[j].name != name
  {
    if |fields| == 0 || fields[0].name == name then 0 else 1 + Position(fields[1..], name)
  }

  // self.fields[field.name] = field
  function PutField(fields: seq<Field>, f: Field): seq<Field>
  {
    var k := Position(fields, f.name);
    if k < |fields| then fields[k := f] else fields + [f]
  }

  function Initial(f: Format): Value
  {
    match f case Scalar(_) => Number(0) case Array(_) => Data([])
  }

  // add_field and add_field_array at the offset their parent handed out.
  function Declare(s: Struct, name: string, f: Format, offset: nat): Struct
  {
    Struct(PutField(s.fields, Field(name, f.size, Initial(f), offset)), s.format + [f], s.size + f.size)
  }

  predicate Fresh(s: Struct, name: string)
  {
    Position(s.fields, name) == |s.fields|
  }

  function Assign(s: Struct, name: string, v: Value): Struct
    requires !Fresh(s, name)
  {
    var k := Position(s.fields, name);
    s.(fields := s.fields[k := s.fields[k].(value := v)])
  }

  // The fields follow one another from `at`, each as wide as its format item.
  predicate Laid(s: Struct, at: nat)
  {
    && |s.fields| == |s.format| && s.size == Width(s.format)
    && forall i :: 0 <= i < |s.fields| ==>
         s.fields[i].offset == at + Width(s.format[..i]) && s.fields[i].size == s.format[i].size
  }

  /** Declaring a field with a new name at the end of the structure keeps the fields in line with
      the format; with a name already there, the dictionary drops a field the format still has. */
  lemma DeclareLaid(s: Struct, name: string, f: Format, at: nat)
    requires Laid(s, at)
    ensures Laid(Declare(s, name, f, at + s.size), at) <==> Fresh(s, name)
    ensures !Fresh(s, name) ==> Pack(Declare(s, name, f, at + s.size)) == None
  {
    hide Width, PackItem, Initial;
    var r := Declare(s, name, f, at + s.size);
    WidthAppend(s.format, [f]);
    WidthOne(f);
    if Fresh(s, name) {
      forall i | 0 <= i < |r.fields|
        ensures r.fields[i].offset == at + Width(r.format[..i]) && r.fields[i].size == r.format[i].size
      {
        assert r.format[..i] == if i < |s.format| then s.format[..i] else s.format;
      }
    }
  }

  lemma WidthNone()
    ensures Width([]) == 0
  {
  }

  lemma WidthOne(f: Format)
    ensures Width([f]) == f.size
  {
    assert [f][1..] == [];
  }

  lemma AssignLaid(s: Struct, name: string, v: Value, at: nat)
    requires Laid(s, at) && !Fresh(s, name)
    ensures Laid(Assign(s, name, v), at)
  {
    hide Width;
  }

  /** The bytes of every field are at its declared offset. */
  lemma FieldLands(s: Struct, at: nat, i: nat)
    requires Laid(s, at) && Pack(s).Some? && i < |s.fields|
    ensures PackItem(s.format[i], s.fields[i].value).Some? && s.fields[i].offset >= at
    ensures var b, x := Pack(s).value, s.fields[i].offset - at;
            |b| == s.size && x + s.fields[i].size <= |b|
            && b[x..x + s.fields[i].size] == PackItem(s.format[i], s.fields[i].value).value
  {
    hide Width, PackItem, PackAll;
    PackWidth(s.format, Values(s.fields));
    PackAt(s.format, Values(s.fields), i);
  }

  // ---------------------------------------------------------------- structures in a row

  function PackStructs(structs: seq<Struct>): Option<seq<nat>>
  {
    if |structs| == 0 then Some([])
    else match Pack(structs[0])
         case None => None
         case Some(b) =>
           match PackStructs(structs[1..])
           case None => None
           case Some(rest) => Some(b + rest)
  }

  // Where the structures end when the first starts at `at`.
  function EndOf(structs: seq<Struct>, at: nat): nat
  {
    if |structs| == 0 then at else EndOf(structs[1..], at + structs[0].size)
  }

  // Each structure is laid out from where the one before it ends.
  predicate Stacked(structs: seq<Struct>, at: nat)
  {
    |structs| == 0 || (Laid(structs[0], at) && Stacked(structs[1..], at + structs[0].size))
  }

  lemma {:induction false} EndAppend(a: seq<Struct>, b: seq<Struct>, at: nat)
    ensures EndOf(a + b, at) == EndOf(b, EndOf(a, at))
    ensures Stacked(a + b, at) <==> Stacked(a, at) && Stacked(b, EndOf(a, at))
    decreases |a|
  {
    hide Laid;
    if |a| == 0 {
      assert a + b == b;
    } else {
      assert (a + b)[1..] == a[1..] + b;
      EndAppend(a[1..], b, at + a[0].size);
    }
  }

  lemma OneStruct(s: Struct, at: nat)
    ensures EndOf([s], at) == at + s.size && (Stacked([s], at) <==> Laid(s, at))
    ensures PackStructs([s]) == Pack(s)
  {
    hide Laid, Pack;
    assert [s][1..] == [];
    if Pack(s).Some? {
      assert Pack(s).value + [] == Pack(s).value;
    }
  }

  predicate EachPacks(structs: seq<Struct>)
  {
    forall j :: 0 <= j < |structs| ==> Pack(structs[j]).Some?
  }

  lemma {:induction false} PackStructsWhen(structs: seq<Struct>)
    ensures PackStructs(structs).Some? <==> EachPacks(structs)
  {
    hide Pack;
    if |structs| == 0 {
    } else {
      var rest := structs[1..];
      PackStructsWhen(rest);
      assert EachPacks(structs) <==> Pack(structs[0]).Some? && EachPacks(rest) by {
        assert forall j :: 0 < j < |structs| ==> structs[j] == rest[j - 1];
      }
    }
  }

  /** The packed structures are exactly as long as the offsets handed out for them. */
  lemma {:induction false} StackedLength(structs: seq<Struct>, at: nat)
    requires Stacked(structs, at) && PackStructs(structs).Some?
    ensures |PackStructs(structs).value| == EndOf(structs, at) - at
    decreases |structs|
  {
    hide Laid, Pack;
    if |structs| == 0 {
    } else {
      LaidLength(structs[0], at);
      StackedLength(structs[1..], at + structs[0].size);
    }
  }

  lemma LaidLength(s: Struct, at: nat)
    requires Laid(s, at) && Pack(s).Some?
    ensures |Pack(s).value| == s.size
  {
    PackWidth(s.format, Values(s.fields));
  }

  /** Offsets handed out at declaration are where the bytes land, for every field of every
      structure. */
  lemma {:induction false} StackedFieldLands(structs: seq<Struct>, at: nat, j: nat, i: nat)
    requires Stacked(structs, at) && PackStructs(structs).Some? && j < |structs| && i < |structs[j].fields|
    ensures Lands(PackStructs(structs).value, structs[j], i, at)
    decreases |structs|
  {
    hide Laid, Pack;
    var s, rest := structs[0], structs[1..];
    var b, tail := Pack(s).value, PackStructs(rest).value;
    LaidLength(s, at);
    if j == 0 {
      StructLands(s, at, i, tail);
    } else {
      StackedFieldLands(rest, at + s.size, j - 1, i);
      LandsLater(b, tail, structs[j], i, at);
    }
  }

  // Field i of the structure is in the image, which starts at flash offset `at`.
  predicate Lands(image: seq<nat>, s: Struct, i: nat, at: nat)
    requires i < |s.fields|
  {
    var f := s.fields[i];
    && i < |s.format| && PackItem(s.format[i], f.value).Some? && at <= f.offset && f.offset - at + f.size <= |image|
    && image[f.offset - at..f.offset - at + f.size] == PackItem(s.format[i], f.value).value
  }

  lemma StructLands(s: Struct, at: nat, i: nat, tail: seq<nat>)
    requires Laid(s, at) && Pack(s).Some? && i < |s.fields|
    ensures Lands(Pack(s).value + tail, s, i, at)
  {
    hide Pack, PackItem;
    FieldLands(s, at, i);
    LaidMeans(s, at);
    var x, b := s.fields[i].offset - at, Pack(s).value;
    assert (b + tail)[x..x + s.fields[i].size] == b[x..x + s.fields[i].size];
  }

  lemma LaidMeans(s: Struct, at: nat)
    requires Laid(s, at)
    ensures |s.fields| == |s.format|
  {
  }

  lemma LandsLater(b: seq<nat>, tail: seq<nat>, s: Struct, i: nat, at: nat)
    requires i < |s.fields| && Lands(tail, s, i, at + |b|)
    ensures Lands(b + tail, s, i, at)
  {
    hide PackItem;
    var x := s.fields[i].offset - at - |b|;
    assert (b + tail)[|b| + x..|b| + x + s.fields[i].size] == tail[x..x + s.fields[i].size];
  }

  lemma {:induction false} StackedAssign(structs: seq<Struct>, at: nat, j: nat, name: string, v: Value)
    requires Stacked(structs, at) && j < |structs| && !Fresh(structs[j], name)
    ensures Stacked(structs[j := Assign(structs[j], name, v)], at)
    ensures EndOf(structs[j := Assign(structs[j], name, v)], at) == EndOf(structs, at)
    decreases |structs|
  {
    hide Laid, Fresh;
    var r := structs[j := Assign(structs[j], name, v)];
    if j == 0 {
      AssignLaid(structs[0], name, v, at);
      assert r[1..] == structs[1..];
    } else {
      StackedAssign(structs[1..], at + structs[0].size, j - 1, name, v);
      assert r[1..] == structs[1..][j - 1 := Assign(structs[j], name, v)];
    }
  }

  // Structures laid out at the given offsets, each starting where the one before it ends.
  lemma {:induction false} StackedAt(structs: seq<Struct>, offsets: seq<nat>)
    requires |offsets| == |structs| + 1
    requires forall i :: 0 <= i < |structs| ==>
               Laid(structs[i], offsets[i]) && offsets[i + 1] == offsets[i] + structs[i].size
    ensures Stacked(structs, offsets[0]) && EndOf(structs, offsets[0]) == offsets[|structs|]
    decreases |structs|
  {
    hide Laid;
    if |structs| == 0 {
    } else {
      var rest, next := structs[1..], offsets[1..];
      forall i | 0 <= i < |rest| ensures Laid(rest[i], next[i]) && next[i + 1] == next[i] + rest[i].size {
        assert rest[i] == structs[i + 1] && next[i] == offsets[i + 1] && next[i + 1] == offsets[i + 2];
      }
      StackedAt(rest, next);
    }
  }

  // ---------------------------------------------------------------- records

  // A structure whose fields were declared one after the other with these names and formats.
  function Record(names: seq<string>, formats: seq<Format>, values: seq<Value>, at: nat): Struct
    requires |names| == |formats| == |values|
  {
    Struct(seq(|names|, i requires 0 <= i < |names| =>
                 Field(names[i], formats[i].size, values[i], at + Width(formats[..i]))),
           formats, Width(formats))
  }

  predicate DistinctNames(names: seq<string>)
  {
    forall i, j :: 0 <= i < j < |names| ==> names[i] != names[j]
  }

  lemma PositionIs(fields: seq<Field>, name: string, k: nat)
    requires k <= |fields| && (k < |fields| ==> fields[k].name == name)
    requires forall j :: 0 <= j < k ==> fields[j].name != name
    ensures Position(fields, name) == k
  {
  }

  lemma RecordLaid(names: seq<string>, formats: seq<Format>, values: seq<Value>, at: nat)
    requires |names| == |formats| == |values|
    ensures Laid(Record(names, formats, values, at), at)
  {
    hide Width;
  }

  // One more field.
  lemma DeclareRecord(names: seq<string>, formats: seq<Format>, values: seq<Value>, at: nat, name: string, f: Format)
    requires |names| == |formats| == |values| && name !in names
    ensures Fresh(Record(names, formats, values, at), name)
    ensures Declare(Record(names, formats, values, at), name, f, at + Width(formats))
         == Record(names + [name], formats + [f], values + [Initial(f)], at)
  {
    hide *;
    var s := Record(names, formats, values, at);
    RecordFresh(names, formats, values, at, name);
    DeclareNew(s, name, f, at + Width(formats));
    RecordSnoc(names, formats, values, at, name, f, Initial(f));
  }

  lemma RecordFresh(names: seq<string>, formats: seq<Format>, values: seq<Value>, at: nat, name: string)
    requires |names| == |formats| == |values| && name !in names
    ensures Fresh(Record(names, formats, values, at), name)
  {
    hide Width;
    PositionIs(Record(names, formats, values, at).fields, name, |names|);
  }

  lemma DeclareNew(s: Struct, name: string, f: Format, offset: nat)
    requires Fresh(s, name)
    ensures Declare(s, name, f, offset)
         == Struct(s.fields + [Field(name, f.size, Initial(f), offset)], s.format + [f], s.size + f.size)
  {
  }

  lemma RecordSnoc(names: seq<string>, formats: seq<Format>, values: seq<Value>, at: nat, name: string, f: Format,
      v: Value)
    requires |names| == |formats| == |values|
    ensures var s := Record(names, formats, values, at);
            Record(names + [name], formats + [f], values + [v], at)
            == Struct(s.fields + [Field(name, f.size, v, at + Width(formats))], s.format + [f], s.size + f.size)
  {
    hide Width;
    var s, r := Record(names, formats, values, at), Record(names + [name], formats + [f], values + [v], at);
    WidthAppend(formats, [f]);
    WidthOne(f);
    var n := |names|;
    assert (formats + [f])[..n] == formats;
    forall i | 0 <= i < n ensures r.fields[i] == s.fields[i] {
      assert (formats + [f])[..i] == formats[..i];
    }
    assert r.fields[n] == Field(name, f.size, v, at + Width(formats));
    assert r.fields == s.fields + [r.fields[n]];
  }

  // One field set.
  lemma AssignRecord(names: seq<string>, formats: seq<Format>, values: seq<Value>, at: nat, i: nat, v: Value)
    requires |names| == |formats| == |values| && DistinctNames(names) && i < |names|
    ensures !Fresh(Record(names, formats, values, at), names[i])
    ensures Assign(Record(names, formats, values, at), names[i], v) == Record(names, formats, values[i := v], at)
  {
    hide Width;
    PositionIs(Record(names, formats, values, at).fields, names[i], i);
  }

  function Initials(formats: seq<Format>): (r: seq<Value>)
    ensures |r| == |formats|
  {
    seq(|formats|, i requires 0 <= i < |formats| => Initial(formats[i]))
  }

  lemma RecordPacks(names: seq<string>, formats: seq<Format>, values: seq<Value>, at: nat)
    requires |names| == |formats| == |values|
    ensures Pack(Record(names, formats, values, at)).Some? <==> AllPack(formats, values)
  {
    hide PackAll, AllPack, Width;
    assert Values(Record(names, formats, values, at).fields) == values;
    PackAllWhen(formats, values);
  }
}
