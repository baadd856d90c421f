/** The import and export tables: names hashed into buckets of chained entries. A chain is the
    sequence of its entries in link order. */
module HashTables {
  import opened Bits
  import opened Buffers
  import opened ImportSections

  // The bytes of a C string, without its terminator.
  type Name = seq<nat>

  const BUCKETS: nat := 1024

  // ---------------------------------------------------------------- the hash

  // A char widened to int.
  function Signed(c: nat): int
  {
    if c < 128 then c else c - 256
  }

  // The name as a polynomial in 65599, most significant character first.
  function Sdbm(name: Name): int
  {
    if |name| == 0 then 0 else 65599 * Sdbm(name[..|name| - 1]) + Signed(name[|name| - 1])
  }

  function Bucket(name: Name): (i: nat)
    ensures i < BUCKETS
  {
    Sdbm(name) % BUCKETS
  }

  // One round of the wrapping 64-bit arithmetic keeps step with the polynomial.
  lemma HashStep(p: int, c: int)
    ensures (c + p % WORD64 * 64 % WORD64 + p % WORD64 * 65536 % WORD64 - p % WORD64) % WORD64
             == (65599 * p + c) % WORD64
  {
    var h, q := p % WORD64, p / WORD64;
    assert p == WORD64 * q + h;
    var a, b := h * 64 / WORD64, h * 65536 / WORD64;
    var x := c + h * 64 % WORD64 + h * 65536 % WORD64 - h;
    assert x == c + h * 65599 - WORD64 * a - WORD64 * b;
    var y := 65599 * p + c;
    assert y == x + WORD64 * (65599 * q + a + b);
    ModShift(WORD64, x, 65599 * q + a + b);
  }

  /** hash_sdbm, wrapping at 64 bits, picks the bucket the exact polynomial picks. */
  method HashSdbm(name: Name) returns (index: nat)
    ensures index == Bucket(name)
  {
    hide Sdbm, Signed;
    var hash, i := 0, 0;
    SdbmStart(name);
    while i < |name|
      invariant 0 <= i <= |name| && hash == Sdbm(name[..i]) % WORD64
    {
      var c := Signed(name[i]);
      SdbmNext(name, i);
      HashStep(Sdbm(name[..i]), c);
      hash := (c + hash * 64 % WORD64 + hash * 65536 % WORD64 - hash) % WORD64;
      i := i + 1;
    }
    assert name[..i] == name;
    return hash % BUCKETS;
  }

  lemma SdbmStart(name: Name)
    ensures Sdbm(name[..0]) % WORD64 == 0
  {
  }

  lemma SdbmNext(name: Name, i: nat)
    requires i < |name|
    ensures Sdbm(name[..i + 1]) == 65599 * Sdbm(name[..i]) + Signed(name[i])
  {
    hide Signed;
    assert name[..i + 1][..i] == name[..i];
  }

  /** A character keeps its value modulo 256 and lies in the range of a signed char. */
  lemma SignedChar(c: nat)
    requires c < 256
    ensures -128 <= Signed(c) < 128 && (Signed(c) - c) % 256 == 0
  {
  }

  lemma SdbmSnoc(name: Name, c: nat)
    ensures Sdbm(name + [c]) == 65599 * Sdbm(name) + Signed(c)
  {
    assert (name + [c])[..|name|] == name;
  }

  /** The buckets of "main" and of a name of two characters above 127. */
  lemma NamedBuckets()
    ensures Bucket([0x6D, 0x61, 0x69, 0x6E]) == 889
    ensures Bucket([0xC3, 0xA9]) == 166
  {
    hide Sdbm;
    SdbmNone();
    SdbmSnoc([], 0x6D);
    SdbmSnoc([0x6D], 0x61);
    SdbmSnoc([0x6D, 0x61], 0x69);
    SdbmSnoc([0x6D, 0x61, 0x69], 0x6E);
    assert [0x6D, 0x61, 0x69] + [0x6E] == [0x6D, 0x61, 0x69, 0x6E];
    assert [0x6D, 0x61] + [0x69] == [0x6D, 0x61, 0x69] && [0x6D] + [0x61] == [0x6D, 0x61];
    assert [] + [0x6D] == [0x6D] && [] + [0xC3] == [0xC3] && [0xC3] + [0xA9] == [0xC3, 0xA9];
    SdbmSnoc([], 0xC3);
    SdbmSnoc([0xC3], 0xA9);
  }

  lemma SdbmNone()
    ensures Sdbm([]) == 0
  {
  }

  // ---------------------------------------------------------------- chains

  datatype Entry<T> = Entry(name: Name, value: T)

  type Chain<T> = seq<Entry<T>>

  type Table<T> = seq<Chain<T>>

  function Empty<T>(): (t: Table<T>)
    ensures |t| == BUCKETS && forall i :: 0 <= i < |t| ==> t[i] == []
  {
    seq(BUCKETS, i => [])
  }

  // Where the name is in the chain; its length when it is not there.
  function Position<T>(chain: Chain<T>, name: Name): (k: nat)
    ensures k <= |chain| && (k < |chain| ==> chain[k].name == name)
    ensures forall j :: 0 <= j < k ==> chain[j].name != name
  {
    if |chain| == 0 || chain[0].name == name then 0 else 1 + Position(chain[1..], name)
  }

  function Lookup<T>(chain: Chain<T>, name: Name): Option<T>
  {
    var k := Position(chain, name);
    if k < |chain| then Some(chain[k].value) else None
  }

  function Get<T>(t: Table<T>, name: Name): Option<T>
    requires |t| == BUCKETS
  {
    Lookup(t[Bucket(name)], name)
  }

  function PutIn<T>(chain: Chain<T>, name: Name, v: T): Chain<T>
  {
    var k := Position(chain, name);
    if k < |chain| then chain[k := Entry(name, v)] else chain + [Entry(name, v)]
  }

  // The table with the name's value set: in place when present, at the end of its chain otherwise.
  function Set<T>(t: Table<T>, name: Name, v: T): (r: Table<T>)
    requires |t| == BUCKETS
    ensures |r| == BUCKETS
  {
    t[Bucket(name) := PutIn(t[Bucket(name)], name, v)]
  }

  predicate Distinct<T>(chain: Chain<T>)
  {
    forall i, j :: 0 <= i < j < |chain| ==> chain[i].name != chain[j].name
  }

  predicate InBucket<T>(chain: Chain<T>, i: nat)
  {
    forall k :: 0 <= k < |chain| ==> Bucket(chain[k].name) == i
  }

  // Every entry sits in the bucket of its name, and no name sits there twice.
  predicate Tidy<T>(t: Table<T>)
  {
    |t| == BUCKETS && forall i :: 0 <= i < BUCKETS ==> Distinct(t[i]) && InBucket(t[i], i)
  }

  lemma PositionUnique<T>(chain: Chain<T>, name: Name, k: nat)
    requires k < |chain| && chain[k].name == name && Distinct(chain)
    ensures Position(chain, name) == k
  {
  }

  lemma PositionAbsent<T>(chain: Chain<T>, name: Name)
    requires forall k :: 0 <= k < |chain| ==> chain[k].name != name
    ensures Position(chain, name) == |chain|
  {
  }

  lemma LookupPut<T>(chain: Chain<T>, name: Name, v: T, other: Name)
    requires Distinct(chain)
    ensures Distinct(PutIn(chain, name, v))
    ensures Lookup(PutIn(chain, name, v), other) == if other == name then Some(v) else Lookup(chain, other)
  {
    var p, r := Position(chain, name), PutIn(chain, name, v);
    assert forall i :: 0 <= i < |chain| ==> r[i].name == chain[i].name;
    assert Distinct(r);
    if other == name {
      PositionUnique(r, name, p);
    } else {
      var k := Position(chain, other);
      if k < |chain| {
        PositionUnique(r, other, k);
      } else {
        PositionAbsent(r, other);
      }
    }
  }

  lemma PutKeepsBucket<T>(chain: Chain<T>, name: Name, v: T)
    requires InBucket(chain, Bucket(name))
    ensures InBucket(PutIn(chain, name, v), Bucket(name))
  {
    hide Bucket;
  }

  /** Setting a name keeps the table tidy, is seen by lookups of that name, and by no others. */
  lemma GetSet<T>(t: Table<T>, name: Name, v: T, other: Name)
    requires Tidy(t)
    ensures Tidy(Set(t, name, v))
    ensures Get(Set(t, name, v), other) == if other == name then Some(v) else Get(t, other)
  {
    hide PutIn, Lookup, Distinct, InBucket, Bucket;
    var i := Bucket(name);
    LookupPut(t[i], name, v, other);
    PutKeepsBucket(t[i], name, v);
  }

  /** Setting a new name appends it to the chain of its bucket; setting one that is there leaves
      every name in its place; the other buckets stay. */
  lemma SetKeepsOrder<T>(t: Table<T>, name: Name, v: T)
    requires Tidy(t)
    ensures var i, r := Bucket(name), Set(t, name, v);
      && (Get(t, name).None? ==> r[i] == t[i] + [Entry(name, v)])
      && (Get(t, name).Some? ==> |r[i]| == |t[i]| && forall k :: 0 <= k < |t[i]| ==> r[i][k].name == t[i][k].name)
      && forall j :: 0 <= j < BUCKETS && j != i ==> r[j] == t[j]
  {
    hide Bucket;
  }

  // ---------------------------------------------------------------- the walk over all entries

  function AllFrom<T>(t: Table<T>, i: nat): Chain<T>
    decreases |t| - i
  {
    if i >= |t| then [] else t[i] + AllFrom(t, i + 1)
  }

  predicate LaterBuckets<T>(chain: Chain<T>, i: nat)
  {
    forall k :: 0 <= k < |chain| ==> Bucket(chain[k].name) >= i
  }

  lemma {:induction false} AllFromTidy<T>(t: Table<T>, i: nat, name: Name)
    requires Tidy(t) && i <= |t|
    ensures Distinct(AllFrom(t, i)) && LaterBuckets(AllFrom(t, i), i)
    ensures Bucket(name) >= i ==> Lookup(AllFrom(t, i), name) == Get(t, name)
    decreases |t| - i
  {
    hide Bucket, Lookup, Distinct, LaterBuckets, InBucket;
    if i < |t| {
      AllFromTidy(t, i + 1, name);
      TidyChain(t, i);
      AppendChains(t[i], AllFrom(t, i + 1), i, name);
    } else {
      NoneLeft<T>(i);
    }
  }

  lemma TidyChain<T>(t: Table<T>, i: nat)
    requires Tidy(t) && i < |t|
    ensures Distinct(t[i]) && InBucket(t[i], i)
  {
  }

  lemma NoneLeft<T>(i: nat)
    ensures Distinct<T>([]) && LaterBuckets<T>([], i)
  {
  }

  lemma AppendChains<T>(a: Chain<T>, b: Chain<T>, i: nat, name: Name)
    requires Distinct(a) && InBucket(a, i) && Distinct(b) && LaterBuckets(b, i + 1)
    ensures Distinct(a + b) && LaterBuckets(a + b, i)
    ensures Lookup(a + b, name) == if Bucket(name) == i then Lookup(a, name) else Lookup(b, name)
  {
    hide Bucket;
    var c := a + b;
    assert Distinct(c) by {
      forall x, y | 0 <= x < y < |c| ensures c[x].name != c[y].name {
        assert x >= |a| ==> c[x] == b[x - |a|];
      }
    }
    var p, q := Position(a, name), Position(b, name);
    if p < |a| {
      PositionUnique(c, name, p);
    } else if q < |b| {
      PositionUnique(c, name, |a| + q);
    } else {
      PositionAbsent(c, name);
    }
  }

  /** The walk over buckets and chains meets every entry of the table once, and nothing else. */
  lemma WalkMeetsAll<T>(t: Table<T>, name: Name)
    requires Tidy(t)
    ensures Distinct(AllFrom(t, 0)) && Lookup(AllFrom(t, 0), name) == Get(t, name)
  {
    AllFromTidy(t, 0, name);
  }

  predicate InBucketOrder<T>(chain: Chain<T>)
  {
    forall j, k :: 0 <= j < k < |chain| ==> Bucket(chain[j].name) <= Bucket(chain[k].name)
  }

  /** The walk takes the buckets in order. */
  lemma {:induction false} WalkTakesBuckets<T>(t: Table<T>, i: nat)
    requires Tidy(t) && i <= |t|
    ensures InBucketOrder(AllFrom(t, i)) && LaterBuckets(AllFrom(t, i), i)
    decreases |t| - i
  {
    hide Bucket, Distinct, LaterBuckets, InBucketOrder, InBucket;
    if i == |t| {
      NoneInOrder<T>(i);
    } else {
      WalkTakesBuckets(t, i + 1);
      TidyChain(t, i);
      BucketThenLater(t[i], AllFrom(t, i + 1), i);
    }
  }

  lemma NoneInOrder<T>(i: nat)
    ensures InBucketOrder<T>([]) && LaterBuckets<T>([], i)
  {
  }

  lemma BucketThenLater<T>(a: Chain<T>, b: Chain<T>, i: nat)
    requires InBucket(a, i) && InBucketOrder(b) && LaterBuckets(b, i + 1)
    ensures InBucketOrder(a + b) && LaterBuckets(a + b, i)
  {
    hide Bucket;
    var c := a + b;
    forall k | 0 <= k < |c| ensures Bucket(c[k].name) == i || (k >= |a| && Bucket(c[k].name) > i) {
      assert k >= |a| ==> c[k] == b[k - |a|];
    }
    forall j, k | 0 <= j < k < |c| ensures Bucket(c[j].name) <= Bucket(c[k].name) {
      if j >= |a| {
        assert c[j] == b[j - |a|] && c[k] == b[k - |a|];
      }
    }
  }

  lemma EmptyTable<T>(name: Name)
    ensures Tidy(Empty<T>()) && Get(Empty<T>(), name) == None
  {
  }

  // ---------------------------------------------------------------- the export table

  // The walk both insertions and the lookup make down one chain.
  method WalkChain<T>(chain: Chain<T>, name: Name) returns (k: nat)
    ensures k == Position(chain, name)
  {
    k := 0;
    while k < |chain| && chain[k].name != name
      invariant k <= |chain| && forall j :: 0 <= j < k ==> chain[j].name != name
    {
      k := k + 1;
    }
    if k == |chain| {
      PositionAbsent(chain, name);
    } else {
      PositionFirst(chain, name, k);
    }
  }

  lemma PositionFirst<T>(chain: Chain<T>, name: Name, k: nat)
    requires k < |chain| && chain[k].name == name && forall j :: 0 <= j < k ==> chain[j].name != name
    ensures Position(chain, name) == k
  {
  }

  function Inserted(t: Table<nat>, name: Name): Table<nat>
    requires |t| == BUCKETS
  {
    if Get(t, name).Some? then t else Set(t, name, 0)
  }

  class ExportTable {
    var entries: Table<nat>  // each with its Address

    ghost predicate Valid()
      reads this
    {
      Tidy(entries)
    }

    constructor ()
      ensures Valid() && entries == Empty()
    {
      entries := Empty();
      EmptyTable<nat>([]);
    }

    method ExportLookup(name: Name) returns (found: bool)
      requires Valid()
      ensures found == Get(entries, name).Some?
    {
      var index := HashSdbm(name);
      var k := WalkChain(entries[index], name);
      found := k < |entries[index]|;
    }

    /** Appends a new entry to its chain; a name already there is left as it is. */
    method InsertExportEntry(name: Name)
      requires Valid()
      modifies this
      ensures Valid() && entries == Inserted(old(entries), name)
    {
      GetSet(entries, name, 0, name);
      var index := HashSdbm(name);
      var k := WalkChain(entries[index], name);
      if k == |entries[index]| {
        entries := entries[index := entries[index] + [Entry(name, 0)]];
      }
    }

    method ReleaseExportEntry()
      requires Valid()
      modifies this
      ensures Valid() && entries == Empty()
    {
      var i := 0;
      while i < BUCKETS
        invariant i <= BUCKETS == |entries| && forall j :: 0 <= j < i ==> entries[j] == []
      {
        if |entries[i]| != 0 {
          entries := entries[i := []];
        }
        i := i + 1;
      }
      EmptyTable<nat>([]);
      assert entries == Empty();
    }
  }

  datatype ExportOp = Insert(name: Name) | Release

  // The table after a run of operations on an empty one.
  function ExportsAfter(ops: seq<ExportOp>): (t: Table<nat>)
    ensures |t| == BUCKETS
  {
    if |ops| == 0 then Empty()
    else
      var t := ExportsAfter(ops[..|ops| - 1]);
      match ops[|ops| - 1]
      case Insert(name) => Inserted(t, name)
      case Release => Empty()
  }

  // The name was inserted, and the table not released since.
  predicate InsertedSince(ops: seq<ExportOp>, name: Name)
  {
    exists i :: 0 <= i < |ops| && ops[i] == Insert(name) && Release !in ops[i..]
  }

  /** After any run, the table is tidy and lookup finds exactly the inserted names. */
  lemma {:induction false} LookupIsMembership(ops: seq<ExportOp>, name: Name)
    ensures Tidy(ExportsAfter(ops))
    ensures Get(ExportsAfter(ops), name).Some? <==> InsertedSince(ops, name)
  {
    hide Get, Set, Tidy, Bucket;
    if |ops| == 0 {
      EmptyTable<nat>(name);
    } else {
      var before, op := ops[..|ops| - 1], ops[|ops| - 1];
      LookupIsMembership(before, name);
      SinceStep(before, op, name);
      assert ops == before + [op];
      if op.Insert? {
        GetSet(ExportsAfter(before), op.name, 0, name);
      } else {
        EmptyTable<nat>(name);
      }
    }
  }

  lemma SinceStep(before: seq<ExportOp>, op: ExportOp, name: Name)
    ensures InsertedSince(before + [op], name)
       <==> op == Insert(name) || (op != Release && InsertedSince(before, name))
  {
    var all, n := before + [op], |before|;
    if InsertedSince(all, name) && op != Insert(name) {
      var i :| 0 <= i < |all| && all[i] == Insert(name) && Release !in all[i..];
      assert all[i..][n - i] == op;
      assert all[i..] == before[i..] + [op];
    }
    if op == Insert(name) {
      assert all[n] == op && all[n..] == [op];
    }
    if op != Release && InsertedSince(before, name) {
      var i :| 0 <= i < |before| && before[i] == Insert(name) && Release !in before[i..];
      assert all[i] == before[i] && all[i..] == before[i..] + [op];
    }
  }

  /** Inserting a name twice is inserting it once. */
  lemma InsertTwice(t: Table<nat>, name: Name)
    requires Tidy(t)
    ensures Inserted(Inserted(t, name), name) == Inserted(t, name)
  {
    GetSet(t, name, 0, name);
  }

  // ---------------------------------------------------------------- the import table

  // A new reference: its type, and its offset in the output section.
  function RefOf(kind: RelType, offset: nat, outOffset: nat): Ref
  {
    Ref(kind, (offset + outOffset) % WORD64)
  }

  function RefsOf(t: Table<seq<Ref>>, name: Name): seq<Ref>
    requires |t| == BUCKETS
  {
    match Get(t, name) case None => [] case Some(refs) => refs
  }

  function Referred(t: Table<seq<Ref>>, name: Name, r: Ref): Table<seq<Ref>>
    requires |t| == BUCKETS
  {
    Set(t, name, RefsOf(t, name) + [r])
  }

  // The imports the section writer walks over, in bucket and chain order.
  function Imports(chain: Chain<seq<Ref>>): (r: seq<Import>)
    ensures |r| == |chain|
  {
    seq(|chain|, k requires 0 <= k < |chain| => Import(chain[k].name, chain[k].value))
  }

  class ImportTable {
    var entries: Table<seq<Ref>>

    ghost predicate Valid()
      reads this
    {
      Tidy(entries)
    }

    constructor ()
      ensures Valid() && entries == Empty()
    {
      entries := Empty();
      EmptyTable<seq<Ref>>([]);
    }

    /** Collect == FALSE: finds or appends the name's entry and appends the reference to its list. */
    method InsertImportEntry(name: Name, kind: RelType, offset: nat, outOffset: nat)
      requires Valid()
      modifies this
      ensures Valid() && entries == Referred(old(entries), name, RefOf(kind, offset, outOffset))
    {
      var r := RefOf(kind, offset, outOffset);
      ghost var before := RefsOf(entries, name);
      GetSet(entries, name, before + [r], name);
      var index := HashSdbm(name);
      var k := WalkChain(entries[index], name);
      if k == |entries[index]| {
        entries := entries[index := entries[index] + [Entry(name, [])]];
      }
      ghost var chain := old(entries)[index];
      var refs := entries[index][k].value;
      assert refs == before;
      entries := entries[index := entries[index][k := Entry(name, refs + [r])]];
      assert entries[index] == PutIn(chain, name, before + [r]);
      assert entries == Set(old(entries), name, before + [r]);
    }

    method ReleaseImportEntry()
      requires Valid()
      modifies this
      ensures Valid() && entries == Empty()
    {
      var i := 0;
      while i < BUCKETS
        invariant i <= BUCKETS == |entries| && forall j :: 0 <= j < i ==> entries[j] == []
      {
        if |entries[i]| != 0 {
          entries := entries[i := []];
        }
        i := i + 1;
      }
      EmptyTable<seq<Ref>>([]);
      assert entries == Empty();
    }
  }

  // What InsertImportEntry and ReleaseImportEntry are called with.
  datatype ImportOp = Refer(name: Name, kind: RelType, offset: nat, outOffset: nat) | Forget

  function ImportsAfter(ops: seq<ImportOp>): (t: Table<seq<Ref>>)
    ensures |t| == BUCKETS
  {
    if |ops| == 0 then Empty()
    else
      var t := ImportsAfter(ops[..|ops| - 1]);
      match ops[|ops| - 1]
      case Refer(name, kind, offset, outOffset) => Referred(t, name, RefOf(kind, offset, outOffset))
      case Forget => Empty()
  }

  // The references made to a name since the table was last released, in order, each at its offset
  // in the output section.
  function RefsMade(ops: seq<ImportOp>, name: Name): seq<Ref>
  {
    if |ops| == 0 then []
    else
      var made := RefsMade(ops[..|ops| - 1], name);
      match ops[|ops| - 1]
      case Refer(other, kind, offset, outOffset) =>
        if other == name then made + [Ref(kind, (offset + outOffset) % WORD64)] else made
      case Forget => []
  }

  /** After any run, each name holds the references made to it, in the order they were made, and
      has an entry exactly when there is one. */
  lemma {:induction false} RefsKeepOrder(ops: seq<ImportOp>, name: Name)
    ensures Tidy(ImportsAfter(ops))
    ensures RefsOf(ImportsAfter(ops), name) == RefsMade(ops, name)
    ensures Get(ImportsAfter(ops), name).Some? <==> |RefsMade(ops, name)| > 0
  {
    hide Get, Set, Tidy, Bucket;
    if |ops| == 0 {
      EmptyTable<seq<Ref>>(name);
    } else {
      var before, op := ops[..|ops| - 1], ops[|ops| - 1];
      RefsKeepOrder(before, name);
      if op.Refer? {
        var t := ImportsAfter(before);
        RefsKeepOrder(before, op.name);
        GetSet(t, op.name, RefsOf(t, op.name) + [RefOf(op.kind, op.offset, op.outOffset)], name);
      } else {
        EmptyTable<seq<Ref>>(name);
      }
    }
  }
}
