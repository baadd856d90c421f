/** Merging the dynamic relocations counted against an indirect symbol into those of the
    symbol it stands for: linked lists, edited through a pointer to the incoming link. */
module DynRelocs {
  import opened Bits

  // struct riscv_elf_dyn_relocs; sec identifies the input section.
  class DynReloc {
    var next: DynReloc?
    var sec: nat
    var count: nat
    var pcCount: nat

    constructor (next: DynReloc?, sec: nat, count: nat, pcCount: nat)
      ensures this.next == next && this.sec == sec && this.count == count && this.pcCount == pcCount
    {
      this.next, this.sec, this.count, this.pcCount := next, sec, count, pcCount;
    }
  }

  // What one list element says.
  datatype Entry = Entry(sec: nat, count: nat, pcCount: nat)

  // ---------------------------------------------------------------- the merge on values

  predicate HasSection(q: seq<Entry>, sec: nat)
  {
    exists i :: 0 <= i < |q| && q[i].sec == sec
  }

  // Add the counts of p to the first entry of its section.
  function AddInto(q: seq<Entry>, p: Entry): (r: seq<Entry>)
    ensures |r| == |q|
  {
    if |q| == 0 then []
    else if q[0].sec == p.sec then
      [Entry(p.sec, Add64(q[0].count, p.count), Add64(q[0].pcCount, p.pcCount))] + q[1..]
    else [q[0]] + AddInto(q[1..], p)
  }

  // Entries of p without a partner in q, in their order.
  function Unmatched(p: seq<Entry>, q: seq<Entry>): seq<Entry>
  {
    if |p| == 0 then []
    else if HasSection(q, p[0].sec) then Unmatched(p[1..], q)
    else [p[0]] + Unmatched(p[1..], q)
  }

  // q with the counts of every matching entry of p added.
  function Absorbed(p: seq<Entry>, q: seq<Entry>): (r: seq<Entry>)
    ensures |r| == |q|
    decreases |p|
  {
    if |p| == 0 then q else Absorbed(p[1..], AddInto(q, p[0]))
  }

  /** The list the direct symbol ends up with. */
  function Merge(p: seq<Entry>, q: seq<Entry>): seq<Entry>
  {
    Unmatched(p, q) + Absorbed(p, q)
  }

  datatype Counter = ALL | PC_RELATIVE

  // One counter of an entry, if the entry is about section sec.
  function Share(e: Entry, sec: nat, c: Counter): nat
  {
    if e.sec != sec then 0 else match c case ALL => e.count case PC_RELATIVE => e.pcCount
  }

  // One counter of one section over a list, modulo the width of the counters.
  function Total(q: seq<Entry>, sec: nat, c: Counter): (t: nat)
    ensures t < WORD64
  {
    if |q| == 0 then 0 else Add64(Share(q[0], sec, c), Total(q[1..], sec, c))
  }

  lemma AddSwap(a: nat, b: nat, c: nat)
    ensures Add64(a, Add64(b, c)) == Add64(b, Add64(a, c))
    ensures Add64(a, Add64(b, c)) == Add64(Add64(a, b), c)
    ensures Add64(0, Add64(a, b)) == Add64(a, b)
  {
    AddInner(a, b + c);
    AddInner(b, a + c);
    AddInner(c, a + b);
    AddInner(0, a + b);
  }

  lemma AddInner(x: nat, y: nat)
    ensures (x + y % WORD64) % WORD64 == (x + y) % WORD64
  {
    var q := y / WORD64;
    ModUnique(x + y % WORD64, WORD64, (x + y) / WORD64 - q, (x + y) % WORD64);
  }

  predicate NoDuplicates(q: seq<Entry>)
  {
    forall i, j :: 0 <= i < j < |q| ==> q[i].sec != q[j].sec
  }

  lemma {:induction false} AddIntoKeepsSections(q: seq<Entry>, p: Entry)
    ensures forall i :: 0 <= i < |q| ==> AddInto(q, p)[i].sec == q[i].sec
  {
    if |q| == 0 || q[0].sec == p.sec {
    } else {
      AddIntoKeepsSections(q[1..], p);
    }
  }

  lemma AddIntoKeepsHas(q: seq<Entry>, p: Entry, sec: nat)
    ensures HasSection(AddInto(q, p), sec) == HasSection(q, sec)
  {
    AddIntoKeepsSections(q, p);
    var r := AddInto(q, p);
    if HasSection(q, sec) {
      var i :| 0 <= i < |q| && q[i].sec == sec;
      assert r[i].sec == sec;
    }
  }

  lemma {:induction false} AddIntoTotal(q: seq<Entry>, p: Entry, sec: nat, c: Counter)
    requires HasSection(q, p.sec)
    ensures Total(AddInto(q, p), sec, c) == Add64(Share(p, sec, c), Total(q, sec, c))
  {
    hide Add64;
    if q[0].sec != p.sec {
      assert HasSection(q[1..], p.sec) by {
        var i :| 0 <= i < |q| && q[i].sec == p.sec;
        assert q[1..][i - 1].sec == p.sec;
      }
      AddIntoTotal(q[1..], p, sec, c);
      assert AddInto(q, p)[1..] == AddInto(q[1..], p);
      AddSwap(Share(p, sec, c), Share(q[0], sec, c), Total(q[1..], sec, c));
    } else {
      var head := Entry(p.sec, Add64(q[0].count, p.count), Add64(q[0].pcCount, p.pcCount));
      assert AddInto(q, p) == [head] + q[1..];
      assert AddInto(q, p)[1..] == q[1..];
      ShareAdds(q[0], p, sec, c, Total(q[1..], sec, c));
    }
  }

  lemma ShareAdds(e: Entry, p: Entry, sec: nat, c: Counter, t: nat)
    requires e.sec == p.sec
    ensures Add64(Share(Entry(p.sec, Add64(e.count, p.count), Add64(e.pcCount, p.pcCount)), sec, c), t)
         == Add64(Share(p, sec, c), Add64(Share(e, sec, c), t))
  {
    var x, y := Share(e, sec, c), Share(p, sec, c);
    AddSwap(x, y, t);
    AddSwap(y, x, t);
    AddInner(0, t);
  }

  lemma {:induction false} UnmatchedStable(p: seq<Entry>, q: seq<Entry>, e: Entry)
    ensures Unmatched(p, AddInto(q, e)) == Unmatched(p, q)
  {
    if |p| == 0 {
    } else {
      AddIntoKeepsHas(q, e, p[0].sec);
      UnmatchedStable(p[1..], q, e);
    }
  }

  /** Nothing is lost or invented: for every section the counts over both lists before are the
      counts over the merged list after. */
  lemma {:induction false} MergeConserves(p: seq<Entry>, q: seq<Entry>, sec: nat, c: Counter)
    ensures Total(Merge(p, q), sec, c) == Add64(Total(p, sec, c), Total(q, sec, c))
    decreases |p|
  {
    hide *;
    TotalFirst(p, sec, c);
    if |p| == 0 {
      MergeNothing(p, q);
      AddNothing(Total(q, sec, c));
    } else {
      var t, u := Total(p[1..], sec, c), Total(q, sec, c);
      AddSwap(Share(p[0], sec, c), t, u);
      AddSwap(t, Share(p[0], sec, c), u);
      MergeFirst(p, q);
      if HasSection(q, p[0].sec) {
        MergeConserves(p[1..], AddInto(q, p[0]), sec, c);
        AddIntoTotal(q, p[0], sec, c);
      } else {
        MergeConserves(p[1..], q, sec, c);
        var rest := Merge(p[1..], q);
        TotalFirst([p[0]] + rest, sec, c);
        assert ([p[0]] + rest)[1..] == rest;
      }
    }
  }

  lemma TotalFirst(q: seq<Entry>, sec: nat, c: Counter)
    ensures |q| == 0 ==> Total(q, sec, c) == 0
    ensures |q| > 0 ==> Total(q, sec, c) == Add64(Share(q[0], sec, c), Total(q[1..], sec, c))
  {
  }

  lemma MergeNothing(p: seq<Entry>, q: seq<Entry>)
    requires |p| == 0
    ensures Merge(p, q) == q
  {
  }

  lemma MergeFirst(p: seq<Entry>, q: seq<Entry>)
    requires |p| > 0
    ensures Merge(p, q)
             == if HasSection(q, p[0].sec) then Merge(p[1..], AddInto(q, p[0])) else [p[0]] + Merge(p[1..], q)
  {
    if HasSection(q, p[0].sec) {
      UnmatchedStable(p[1..], q, p[0]);
    } else {
      AddIntoAbsent(q, p[0]);
    }
  }

  lemma AddNothing(t: nat)
    requires t < WORD64
    ensures Add64(0, t) == t
  {
  }

  lemma {:induction false} AddIntoAbsent(q: seq<Entry>, p: Entry)
    requires !HasSection(q, p.sec)
    ensures AddInto(q, p) == q
  {
    if |q| == 0 {
    } else {
      AbsentInTail(q, p.sec);
      AddIntoAbsent(q[1..], p);
    }
  }

  lemma AbsentInTail(q: seq<Entry>, sec: nat)
    requires |q| > 0 && !HasSection(q, sec)
    ensures q[0].sec != sec && !HasSection(q[1..], sec)
  {
    assert forall i :: 0 <= i < |q[1..]| ==> q[1..][i] == q[i + 1];
  }

  lemma {:induction false} AbsorbedKeepsSections(p: seq<Entry>, q: seq<Entry>)
    ensures forall i :: 0 <= i < |q| ==> Absorbed(p, q)[i].sec == q[i].sec
    decreases |p|
  {
    if |p| == 0 {
    } else {
      AddIntoKeepsSections(q, p[0]);
      AbsorbedKeepsSections(p[1..], AddInto(q, p[0]));
    }
  }

  lemma {:induction false} UnmatchedFrom(p: seq<Entry>, q: seq<Entry>)
    requires NoDuplicates(p)
    ensures NoDuplicates(Unmatched(p, q))
    ensures forall i :: 0 <= i < |Unmatched(p, q)| ==>
              HasSection(p, Unmatched(p, q)[i].sec) && !HasSection(q, Unmatched(p, q)[i].sec)
  {
    if |p| == 0 {
    } else {
      var rest, u := p[1..], Unmatched(p[1..], q);
      UnmatchedFrom(rest, q);
      forall i | 0 <= i < |u| ensures HasSection(p, u[i].sec) && u[i].sec != p[0].sec {
        var k :| 0 <= k < |rest| && rest[k].sec == u[i].sec;
        assert p[k + 1].sec == u[i].sec;
      }
      if !HasSection(q, p[0].sec) {
        assert HasSection(p, p[0].sec);
      }
    }
  }

  /** If neither list named a section twice, the merged list does not either. */
  lemma MergeNoDuplicates(p: seq<Entry>, q: seq<Entry>)
    requires NoDuplicates(p) && NoDuplicates(q)
    ensures NoDuplicates(Merge(p, q))
  {
    UnmatchedFrom(p, q);
    AbsorbedKeepsSections(p, q);
    var u, a := Unmatched(p, q), Absorbed(p, q);
    forall i, j | 0 <= i < |u| && 0 <= j < |a| ensures u[i].sec != a[j].sec {
      assert q[j].sec == a[j].sec;
    }
  }

  /** What becomes of each element: those of p whose section q does not name come first, unchanged
      and in their order; then q, element by element, under the same sections. */
  lemma {:induction false} MergeShape(p: seq<Entry>, q: seq<Entry>) returns (from: seq<nat>)
    ensures |Merge(p, q)| == |from| + |q|
    ensures forall i, j :: 0 <= i < j < |from| ==> from[i] < from[j]
    ensures forall k: nat :: k in from <==> k < |p| && forall j :: 0 <= j < |q| ==> q[j].sec != p[k].sec
    ensures forall i :: 0 <= i < |from| ==> from[i] < |p| && Merge(p, q)[i] == p[from[i]]
    ensures forall j :: 0 <= j < |q| ==> Merge(p, q)[|from| + j].sec == q[j].sec
  {
    AbsorbedKeepsSections(p, q);
    from := UnmatchedPlaces(p, q, |p|);
    assert p[..|p|] == p;
  }

  lemma {:induction false} UnmatchedPlaces(p: seq<Entry>, q: seq<Entry>, n: nat) returns (from: seq<nat>)
    requires n <= |p|
    ensures |Unmatched(p[..n], q)| == |from|
    ensures forall i, j :: 0 <= i < j < |from| ==> from[i] < from[j]
    ensures forall k: nat :: k in from <==> k < n && !HasSection(q, p[k].sec)
    ensures forall i :: 0 <= i < |from| ==> from[i] < n && Unmatched(p[..n], q)[i] == p[from[i]]
  {
    if n == 0 {
      from := [];
    } else {
      from := UnmatchedPlaces(p, q, n - 1);
      assert p[..n] == p[..n - 1] + [p[n - 1]];
      UnmatchedSnoc(p[..n - 1], p[n - 1], q);
      if !HasSection(q, p[n - 1].sec) {
        from := from + [n - 1];
      }
    }
  }

  // ---------------------------------------------------------------- the lists in memory

  // The nodes of a list in order: distinct, linked, null-terminated.
  ghost predicate IsList(head: DynReloc?, nodes: seq<DynReloc>)
    reads nodes
  {
    && (forall i, j :: 0 <= i < j < |nodes| ==> nodes[i] != nodes[j])
    && head == (if |nodes| == 0 then null else nodes[0])
    && (forall i {:trigger nodes[i].next} {:trigger Successor(nodes, i)} :: 0 <= i < |nodes| ==>
          nodes[i].next == Successor(nodes, i))
  }

  function Successor(nodes: seq<DynReloc>, i: nat): DynReloc?
  {
    if i + 1 < |nodes| then nodes[i + 1] else null
  }

  ghost function EntryOf(n: DynReloc): Entry
    reads n
  {
    Entry(n.sec, n.count, n.pcCount)
  }

  ghost function Entries(nodes: seq<DynReloc>): (r: seq<Entry>)
    reads nodes
    ensures |r| == |nodes|
    ensures forall i :: 0 <= i < |nodes| ==> r[i] == EntryOf(nodes[i])
  {
    seq(|nodes|, i requires 0 <= i < |nodes| reads nodes => EntryOf(nodes[i]))
  }

  // The part of the linker hash entry this touches.
  class HashEntry {
    var dynRelocs: DynReloc?
    var tlsType: nat

    constructor (dynRelocs: DynReloc?, tlsType: nat)
      ensures this.dynRelocs == dynRelocs && this.tlsType == tlsType
    {
      this.dynRelocs, this.tlsType := dynRelocs, tlsType;
    }
  }

  const GOT_UNKNOWN: nat := 0

  lemma {:induction false} UnmatchedSnoc(a: seq<Entry>, e: Entry, q: seq<Entry>)
    ensures Unmatched(a + [e], q) == Unmatched(a, q) + if HasSection(q, e.sec) then [] else [e]
  {
    if |a| == 0 {
      assert [e][1..] == [] && a + [e] == [e];
    } else {
      assert (a + [e])[1..] == a[1..] + [e];
      UnmatchedSnoc(a[1..], e, q);
    }
  }

  lemma {:induction false} AbsorbedSnoc(a: seq<Entry>, e: Entry, q: seq<Entry>)
    ensures Absorbed(a + [e], q) == AddInto(Absorbed(a, q), e)
    decreases |a|
  {
    if |a| == 0 {
      assert [e][1..] == [] && a + [e] == [e];
    } else {
      assert (a + [e])[1..] == a[1..] + [e];
      AbsorbedSnoc(a[1..], e, AddInto(q, a[0]));
    }
  }

  lemma AbsorbedKeepsHas(a: seq<Entry>, q: seq<Entry>, sec: nat)
    ensures HasSection(Absorbed(a, q), sec) == HasSection(q, sec)
  {
    AbsorbedKeepsSections(a, q);
    var r := Absorbed(a, q);
    if HasSection(q, sec) {
      var i :| 0 <= i < |q| && q[i].sec == sec;
      assert r[i].sec == sec;
    }
  }

  lemma {:induction false} NothingToMatch(p: seq<Entry>)
    ensures Unmatched(p, []) == p && Absorbed(p, []) == []
    decreases |p|
  {
    if |p| == 0 {
    } else {
      NothingToMatch(p[1..]);
    }
  }

  lemma {:induction false} AddIntoAt(q: seq<Entry>, p: Entry, j: nat)
    requires j < |q| && q[j].sec == p.sec && forall k :: 0 <= k < j ==> q[k].sec != p.sec
    ensures AddInto(q, p) == q[j := Entry(p.sec, Add64(q[j].count, p.count), Add64(q[j].pcCount, p.pcCount))]
  {
    if j == 0 {
    } else {
      AddIntoAt(q[1..], p, j - 1);
    }
  }

  // The elements of the list, read as values.
  ghost predicate Reads(nodes: seq<DynReloc>, values: seq<Entry>)
    reads nodes
  {
    |values| == |nodes| && forall i :: 0 <= i < |nodes| ==> EntryOf(nodes[i]) == values[i]
  }

  /** The inner loop: add p's counts to the first element of the list that names p's section. */
  method AddCounts(head: DynReloc?, p: DynReloc, ghost nodes: seq<DynReloc>, ghost values: seq<Entry>)
    returns (found: bool)
    requires IsList(head, nodes) && p !in nodes && Reads(nodes, values)
    modifies nodes
    ensures IsList(head, nodes)
    ensures Reads(nodes, AddInto(values, EntryOf(p)))
    ensures found == HasSection(values, p.sec)
  {
    var q := head;
    ghost var j := 0;
    while q != null
      invariant 0 <= j <= |nodes| && q == (if j < |nodes| then nodes[j] else null)
      invariant forall k :: 0 <= k < j ==> values[k].sec != p.sec
      invariant IsList(head, nodes) && Reads(nodes, values)
      decreases |nodes| - j
    {
      if q.sec == p.sec {
        q.pcCount := Add64(q.pcCount, p.pcCount);
        q.count := Add64(q.count, p.count);
        assert values[j].sec == p.sec;
        AddIntoAt(values, EntryOf(p), j);
        return true;
      }
      q := q.next;
      j := j + 1;
    }
    assert !HasSection(values, p.sec);
    AddIntoAbsent(values, EntryOf(p));
    return false;
  }

  ghost predicate Apart(a: seq<DynReloc>, b: seq<DynReloc>)
  {
    forall i, j :: 0 <= i < |a| && 0 <= j < |b| ==> a[i] != b[j]
  }

  // *pp = link, where pp is &prev.next, or &ind.dynRelocs when prev is null: whatever follows
  // the kept elements is replaced by the list at link.
  method Relink(ind: HashEntry, prev: DynReloc?, link: DynReloc?, ghost kept: seq<DynReloc>, ghost after: seq<DynReloc>,
                ghost tail: seq<DynReloc>)
    requires IsList(ind.dynRelocs, kept + after) && IsList(link, tail) && Apart(kept, tail)
    requires prev == (if |kept| == 0 then null else kept[|kept| - 1])
    modifies ind`dynRelocs, kept
    ensures IsList(ind.dynRelocs, kept + tail)
    ensures forall n :: n in kept ==> EntryOf(n) == old(EntryOf(n))
  {
    ghost var all, joined := kept + after, kept + tail;
    assert forall k :: 0 <= k < |kept| ==> all[k] == kept[k];
    assert forall k :: 0 <= k < |tail| ==> tail[k] == joined[|kept| + k];
    if prev == null {
      ind.dynRelocs := link;
      assert joined == tail;
    } else {
      prev.next := link;
      forall i | 0 <= i < |joined|
        ensures joined[i].next == Successor(joined, i)
      {
        if i + 1 < |kept| {
          assert joined[i] == all[i] && Successor(all, i) == Successor(joined, i) && all[i] != all[|kept| - 1];
        } else if i + 1 == |kept| {
          assert joined[i] == prev;
        } else {
          assert joined[i] == tail[i - |kept|] && Successor(tail, i - |kept|) == Successor(joined, i);
        }
      }
    }
  }

  // Relink, with what it leaves alone: the direct symbol's list and all contents.
  method Unlink(dir: HashEntry, ind: HashEntry, prev: DynReloc?, link: DynReloc?, ghost kept: seq<DynReloc>,
                ghost after: seq<DynReloc>, ghost tail: seq<DynReloc>, ghost other: seq<DynReloc>,
                ghost keptValues: seq<Entry>, ghost tailValues: seq<Entry>, ghost values: seq<Entry>)
    requires dir != ind && IsList(ind.dynRelocs, kept + after) && IsList(link, tail) && Apart(kept, tail)
    requires prev == (if |kept| == 0 then null else kept[|kept| - 1])
    requires IsList(dir.dynRelocs, other) && (forall i :: 0 <= i < |kept| ==> kept[i] !in other)
    requires Reads(kept, keptValues) && Reads(tail, tailValues) && Reads(other, values)
    modifies ind`dynRelocs, kept
    ensures IsList(ind.dynRelocs, kept + tail) && IsList(dir.dynRelocs, other)
    ensures Reads(kept, keptValues) && Reads(tail, tailValues) && Reads(other, values)
  {
    hide Successor, Apart;
    Relink(ind, prev, link, kept, after, tail);
  }

  // AddCounts, with what it leaves alone: the indirect symbol's list.
  method AddCountsApart(dir: HashEntry, ind: HashEntry, p: DynReloc, ghost kept: seq<DynReloc>,
      ghost rest: seq<DynReloc>,
                        ghost other: seq<DynReloc>, ghost keptValues: seq<Entry>, ghost restValues: seq<Entry>,
                        ghost values: seq<Entry>)
    returns (found: bool)
    requires dir != ind && IsList(ind.dynRelocs, kept + rest) && IsList(dir.dynRelocs, other)
    requires |rest| > 0 && |restValues| > 0 && p == rest[0] && Apart(kept + rest, other)
    requires Reads(kept, keptValues) && Reads(rest, restValues) && Reads(other, values)
    modifies other
    ensures IsList(ind.dynRelocs, kept + rest) && IsList(dir.dynRelocs, other)
    ensures Reads(kept, keptValues) && Reads(rest, restValues) && Reads(other, AddInto(values, restValues[0]))
    ensures found == HasSection(values, restValues[0].sec)
  {
    hide Add64, AddInto, HasSection, Apart, Successor;
    InBoth(kept, rest, other);
    assert EntryOf(p) == restValues[0];
    found := AddCounts(dir.dynRelocs, p, other, values);
  }

  // One element of the indirect symbol's list: absorb and unlink it, or step over it.
  method MergeOne(dir: HashEntry, ind: HashEntry, prev: DynReloc?, p: DynReloc,
                  ghost kept: seq<DynReloc>, ghost rest: seq<DynReloc>, ghost other: seq<DynReloc>,
                  ghost keptValues: seq<Entry>, ghost restValues: seq<Entry>, ghost values: seq<Entry>)
    returns (prev': DynReloc?, p': DynReloc?, ghost kept': seq<DynReloc>)
    requires dir != ind && IsList(ind.dynRelocs, kept + rest) && IsList(dir.dynRelocs, other)
    requires |rest| > 0 && |restValues| > 0 && p == rest[0] && Apart(kept + rest, other)
    requires prev == (if |kept| == 0 then null else kept[|kept| - 1])
    requires Reads(kept, keptValues) && Reads(rest, restValues) && Reads(other, values)
    modifies ind`dynRelocs, kept, other
    ensures kept' == if HasSection(values, restValues[0].sec) then kept else kept + [p]
    ensures IsList(ind.dynRelocs, kept' + rest[1..]) && IsList(dir.dynRelocs, other)
    ensures prev' == (if |kept'| == 0 then null else kept'[|kept'| - 1])
    ensures p' == (if |rest| > 1 then rest[1] else null)
    ensures Reads(kept', keptValues + if HasSection(values, restValues[0].sec) then [] else [restValues[0]])
    ensures Reads(rest[1..], restValues[1..]) && Reads(other, AddInto(values, restValues[0]))
  {
    hide Add64, AddInto, HasSection, Apart, Successor, IsList, Reads;
    ghost var all, tail := kept + rest, rest[1..];
    var found := AddCountsApart(dir, ind, p, kept, rest, other, keptValues, restValues, values);
    InBoth(kept, rest, other);
    ListTail(ind.dynRelocs, kept, rest);
    ValuesTail(rest, restValues);
    p' := p.next;
    prev', kept' := prev, kept;
    HeadOf(p', tail);
    if found {
      assert keptValues + [] == keptValues;
      Unlink(dir, ind, prev, p', kept, rest, tail, other, keptValues, restValues[1..], AddInto(values, restValues[0]));
    } else {
      prev', kept' := p, kept + [p];
      assert kept' + tail == all;
      ValuesSnoc(kept, keptValues, p, restValues[0]);
    }
  }

  lemma ValuesTail(nodes: seq<DynReloc>, values: seq<Entry>)
    requires |nodes| > 0 && Reads(nodes, values)
    ensures |values| == |nodes| && EntryOf(nodes[0]) == values[0] && Reads(nodes[1..], values[1..])
  {
  }

  lemma ValuesSnoc(nodes: seq<DynReloc>, values: seq<Entry>, n: DynReloc, e: Entry)
    requires Reads(nodes, values) && EntryOf(n) == e
    ensures Reads(nodes + [n], values + [e])
  {
  }

  lemma InBoth(kept: seq<DynReloc>, rest: seq<DynReloc>, other: seq<DynReloc>)
    requires Apart(kept + rest, other)
    ensures forall i :: 0 <= i < |kept| ==> kept[i] !in other
    ensures forall i :: 0 <= i < |rest| ==> rest[i] !in other
  {
    var all := kept + rest;
    assert forall i :: 0 <= i < |kept| ==> kept[i] == all[i];
    assert forall i :: 0 <= i < |rest| ==> rest[i] == all[|kept| + i];
  }

  lemma ListTail(head: DynReloc?, kept: seq<DynReloc>, rest: seq<DynReloc>)
    requires |rest| > 0 && IsList(head, kept + rest)
    ensures IsList(rest[0].next, rest[1..]) && Apart(kept, rest[1..])
    ensures forall n :: n in kept ==> n !in rest
  {
    var all, k, tail := kept + rest, |kept|, rest[1..];
    assert all[k] == rest[0] && Successor(all, k) == if |tail| == 0 then null else tail[0];
    forall j | 0 <= j < |tail| ensures tail[j] == all[k + 1 + j] && tail[j].next == Successor(tail, j) {
      assert Successor(all, k + 1 + j) == Successor(tail, j);
    }
    assert forall j :: 0 <= j < k ==> kept[j] == all[j];
    assert forall j :: 0 <= j < |rest| ==> rest[j] == all[k + j];
  }

  // Where the outer loop stands after i elements of the indirect symbol's list: those kept, then
  // those still to come, hang off the indirect symbol, and the direct symbol's list has absorbed the rest.
  ghost predicate Progress(dir: HashEntry, ind: HashEntry, prev: DynReloc?, p: DynReloc?, kept: seq<DynReloc>,
                           mine: seq<DynReloc>, other: seq<DynReloc>, p0: seq<Entry>, q0: seq<Entry>, i: nat)
    reads dir, ind, mine, kept, other
  {
    && dir != ind && i <= |mine| == |p0| && Apart(mine, other)
    && p == (if i < |mine| then mine[i] else null)
    && prev == (if |kept| == 0 then null else kept[|kept| - 1])
    && (forall k :: 0 <= k < |kept| ==> kept[k] in mine)
    && IsList(ind.dynRelocs, kept + mine[i..]) && IsList(dir.dynRelocs, other)
    && Reads(mine[i..], p0[i..])
    && Reads(kept, Unmatched(p0[..i], q0)) && Reads(other, Absorbed(p0[..i], q0))
  }

  method MergeStep(dir: HashEntry, ind: HashEntry, prev: DynReloc?, p: DynReloc, ghost kept: seq<DynReloc>,
                   ghost mine: seq<DynReloc>, ghost other: seq<DynReloc>, ghost p0: seq<Entry>, ghost q0: seq<Entry>,
                   ghost i: nat)
    returns (prev': DynReloc?, p': DynReloc?, ghost kept': seq<DynReloc>)
    requires Progress(dir, ind, prev, p, kept, mine, other, p0, q0, i)
    modifies ind`dynRelocs, kept, other
    ensures Progress(dir, ind, prev', p', kept', mine, other, p0, q0, i + 1)
  {
    hide Add64, AddInto, Unmatched, Absorbed, HasSection, Apart, Successor, IsList, Reads, EntryOf;
    MergeNext(p0, q0, i);
    KeptApart(kept, mine, i, other);
    Shift(mine, i);
    Shift(p0, i);
    prev', p', kept' := MergeOne(dir, ind, prev, p, kept, mine[i..], other,
                                 Unmatched(p0[..i], q0), p0[i..], Absorbed(p0[..i], q0));
  }

  /** The outer loop: unlink every element that was absorbed, keep the others in order, and
      hang the direct symbol's list behind the last one kept. */
  method MergeLists(dir: HashEntry, ind: HashEntry, ghost mine: seq<DynReloc>, ghost other: seq<DynReloc>,
                    ghost p0: seq<Entry>, ghost q0: seq<Entry>)
    returns (ghost kept: seq<DynReloc>)
    requires dir != ind && IsList(ind.dynRelocs, mine) && IsList(dir.dynRelocs, other) && Apart(mine, other)
    requires Reads(mine, p0) && Reads(other, q0)
    modifies ind`dynRelocs, mine, other
    ensures (forall k :: 0 <= k < |kept| ==> kept[k] in mine) && IsList(ind.dynRelocs, kept + other)
    ensures Reads(kept + other, Merge(p0, q0))
  {
    hide *;
    var prev: DynReloc? := null;  // pp is &prev.next, or &ind.dynRelocs
    var p := ind.dynRelocs;
    ghost var i := 0;
    kept := [];
    MergeStart(dir, ind, mine, other, p0, q0);
    while p != null
      invariant Progress(dir, ind, prev, p, kept, mine, other, p0, q0, i)
      invariant i <= |mine| && (p == null <==> i == |mine|) && forall k :: 0 <= k < |kept| ==> kept[k] in mine
      decreases |mine| - i
    {
      prev, p, kept := MergeStep(dir, ind, prev, p, kept, mine, other, p0, q0, i);
      i := i + 1;
      ProgressBounds(dir, ind, prev, p, kept, mine, other, p0, q0, i);
    }
    MergeEnd(dir, ind, prev, p, kept, mine, other, p0, q0);
    HangBehind(dir, ind, prev, kept, other, p0, q0);
  }

  lemma MergeStart(dir: HashEntry, ind: HashEntry, mine: seq<DynReloc>, other: seq<DynReloc>, p0: seq<Entry>,
      q0: seq<Entry>)
    requires dir != ind && IsList(ind.dynRelocs, mine) && IsList(dir.dynRelocs, other) && Apart(mine, other)
    requires Reads(mine, p0) && Reads(other, q0)
    ensures Progress(dir, ind, null, ind.dynRelocs, [], mine, other, p0, q0, 0)
    ensures ind.dynRelocs == null <==> |mine| == 0
  {
    assert [] + mine[0..] == mine && mine[0..] == mine && p0[0..] == p0 && p0[..0] == [];
  }

  lemma ProgressBounds(dir: HashEntry, ind: HashEntry, prev: DynReloc?, p: DynReloc?, kept: seq<DynReloc>,
                       mine: seq<DynReloc>, other: seq<DynReloc>, p0: seq<Entry>, q0: seq<Entry>, i: nat)
    requires Progress(dir, ind, prev, p, kept, mine, other, p0, q0, i)
    ensures i <= |mine| && (p == null <==> i == |mine|)
    ensures forall k :: 0 <= k < |kept| ==> kept[k] in mine
  {
  }

  lemma MergeEnd(dir: HashEntry, ind: HashEntry, prev: DynReloc?, p: DynReloc?, kept: seq<DynReloc>,
                 mine: seq<DynReloc>, other: seq<DynReloc>, p0: seq<Entry>, q0: seq<Entry>)
    requires Progress(dir, ind, prev, p, kept, mine, other, p0, q0, |mine|)
    ensures dir != ind && IsList(ind.dynRelocs, kept + []) && IsList(dir.dynRelocs, other) && Apart(kept, other)
    ensures prev == (if |kept| == 0 then null else kept[|kept| - 1])
    ensures Reads(kept, Unmatched(p0, q0)) && Reads(other, Absorbed(p0, q0))
  {
    KeptApart(kept, mine, |mine|, other);
    assert mine[|mine|..] == [] && p0[..|mine|] == p0;
  }

  lemma Shift<T>(s: seq<T>, i: nat)
    requires i < |s|
    ensures s[i..][0] == s[i] && s[i..][1..] == s[i + 1..]
    ensures i + 1 < |s| ==> s[i..][1] == s[i + 1]
  {
  }

  // *pp = edir->dyn_relocs
  method HangBehind(dir: HashEntry, ind: HashEntry, prev: DynReloc?, ghost kept: seq<DynReloc>,
      ghost other: seq<DynReloc>,
                    ghost p0: seq<Entry>, ghost q0: seq<Entry>)
    requires dir != ind && IsList(ind.dynRelocs, kept + []) && IsList(dir.dynRelocs, other) && Apart(kept, other)
    requires prev == (if |kept| == 0 then null else kept[|kept| - 1])
    requires Reads(kept, Unmatched(p0, q0)) && Reads(other, Absorbed(p0, q0))
    modifies ind`dynRelocs, kept
    ensures IsList(ind.dynRelocs, kept + other) && Reads(kept + other, Merge(p0, q0))
  {
    hide *;
    assert kept + [] == kept;
    InBoth(kept, [], other);
    Unlink(dir, ind, prev, dir.dynRelocs, kept, [], other, other, Unmatched(p0, q0), Absorbed(p0, q0),
      Absorbed(p0, q0));
    ReadsMerged(kept, other, p0, q0);
  }

  lemma ReadsMerged(kept: seq<DynReloc>, other: seq<DynReloc>, p: seq<Entry>, q: seq<Entry>)
    requires Reads(kept, Unmatched(p, q)) && Reads(other, Absorbed(p, q))
    ensures Reads(kept + other, Merge(p, q))
  {
  }

  lemma HeadOf(head: DynReloc?, nodes: seq<DynReloc>)
    requires IsList(head, nodes)
    ensures head == if |nodes| == 0 then null else nodes[0]
  {
  }

  lemma KeptApart(kept: seq<DynReloc>, mine: seq<DynReloc>, i: nat, other: seq<DynReloc>)
    requires i <= |mine| && (forall k :: 0 <= k < |kept| ==> kept[k] in mine) && Apart(mine, other)
    ensures Apart(kept + mine[i..], other) && Apart(kept, other)
  {
    var all := kept + mine[i..];
    forall a | 0 <= a < |all| ensures all[a] in mine {
      assert a < |kept| ==> all[a] == kept[a];
    }
    assert forall a :: 0 <= a < |kept| ==> kept[a] == all[a];
  }

  lemma MergeNext(p: seq<Entry>, q: seq<Entry>, i: nat)
    requires i < |p|
    ensures Unmatched(p[..i + 1], q)
         == Unmatched(p[..i], q) + if HasSection(Absorbed(p[..i], q), p[i].sec) then [] else [p[i]]
    ensures Absorbed(p[..i + 1], q) == AddInto(Absorbed(p[..i], q), p[i])
  {
    assert p[..i + 1] == p[..i] + [p[i]];
    UnmatchedSnoc(p[..i], p[i], q);
    AbsorbedSnoc(p[..i], p[i], q);
    AbsorbedKeepsHas(p[..i], q, p[i].sec);
  }

  lemma MergeWithNothing(p: seq<Entry>)
    ensures Merge(p, []) == p && Merge([], p) == p
  {
    NothingToMatch(p);
  }

  /** riscv_elf_copy_indirect_symbol: the direct symbol takes over the merged list and, for an
      indirect symbol whose own GOT use is not yet counted, the TLS type; the indirect symbol
      keeps nothing. */
  method CopyIndirectSymbol(dir: HashEntry, ind: HashEntry, isIndirect: bool, gotRefcount: int,
                            ghost mine: seq<DynReloc>, ghost other: seq<DynReloc>)
    returns (ghost merged: seq<DynReloc>)
    requires dir != ind && IsList(ind.dynRelocs, mine) && IsList(dir.dynRelocs, other) && Apart(mine, other)
    modifies dir, ind, mine, other
    ensures ind.dynRelocs == null
    ensures IsList(dir.dynRelocs, merged) && (forall n :: n in merged ==> n in mine || n in other)
    ensures Entries(merged) == Merge(old(Entries(mine)), old(Entries(other)))
    ensures isIndirect && gotRefcount <= 0 ==> dir.tlsType == old(ind.tlsType) && ind.tlsType == GOT_UNKNOWN
    ensures !(isIndirect && gotRefcount <= 0) ==> dir.tlsType == old(dir.tlsType) && ind.tlsType == old(ind.tlsType)
  {
    hide Merge, Successor, Apart;
    ghost var p0, q0 := Entries(mine), Entries(other);
    if ind.dynRelocs != null {
      if dir.dynRelocs != null {
        ghost var kept := MergeLists(dir, ind, mine, other, p0, q0);
        merged := kept + other;
      } else {
        merged := mine;
        MergeWithNothing(p0);
        assert q0 == [];
      }
      dir.dynRelocs := ind.dynRelocs;
      ind.dynRelocs := null;
    } else {
      merged := other;
      MergeWithNothing(q0);
      assert p0 == [];
    }
    if isIndirect && gotRefcount <= 0 {
      dir.tlsType := ind.tlsType;
      ind.tlsType := GOT_UNKNOWN;
    }
  }

}
