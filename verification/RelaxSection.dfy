/** The section being relaxed, with the buffers the linker updates in place: contents,
    relocation array, local symbols, and the vector of global hash entries. */
module RelaxSection {
  import opened Bits
  import opened Buffers
  import opened Relaxation
  import opened AlignPlan
  import opened ShortenPlan
  import opened ShortenBytes

  // A local symbol: `here` when its st_shndx is this section.
  datatype LocalSym = LocalSym(here: bool, sym: Sym)

  // A global hash entry: `here` when it is defined (or weakly defined) in this section.
  class HashEntry {
    const here: bool
    var value: nat
    var size: nat

    constructor (here: bool, value: nat, size: nat)
      ensures this.here == here && this.value == value && this.size == size
    {
      this.here, this.value, this.size := here, value, size;
    }

    ghost function Def(): Sym
      reads this
    {
      Sym(value, size)
    }
  }

  // Everything deletion may move, frozen at one moment.
  datatype Snapshot = Snapshot(
    bytes: seq<byte>,
    offsets: seq<nat>,
    locals: seq<LocalSym>,
    globals: map<HashEntry, Sym>)

  // Snapshot b is snapshot a after the edits; entry e is listed mult[e] times in the hash vector.
  ghost predicate Follows(a: Snapshot, b: Snapshot, mult: multiset<HashEntry>, edits: seq<Edit>)
  {
    && RunFits(|a.bytes|, edits)
    && b.bytes == RunBytes(a.bytes, edits)
    && |b.offsets| == |a.offsets| && |b.locals| == |a.locals| && b.globals.Keys == a.globals.Keys
    && (forall i :: 0 <= i < |a.offsets| ==> b.offsets[i] == RunOffset(a.offsets[i], |a.bytes|, edits))
    && (forall i :: 0 <= i < |a.locals| ==> b.locals[i] == FollowLocal(a.locals[i], |a.bytes|, edits))
    && (forall e :: e in a.globals ==> b.globals[e] == FollowGlobal(e, a.globals[e], mult[e], |a.bytes|, edits))
  }

  function FollowLocal(l: LocalSym, n: nat, edits: seq<Edit>): LocalSym
    requires RunFits(n, edits)
  {
    if l.here then l.(sym := RunSym(l.sym, 1, n, edits)) else l
  }

  function FollowGlobal(e: HashEntry, s: Sym, m: nat, n: nat, edits: seq<Edit>): Sym
    requires RunFits(n, edits)
  {
    if e.here then RunSym(s, m, n, edits) else s
  }

  // The same for one edit.
  ghost predicate FollowsEdit(b: Snapshot, c: Snapshot, mult: multiset<HashEntry>, e: Edit)
  {
    && Fits(|b.bytes|, e)
    && c.bytes == EditBytes(b.bytes, e)
    && |c.offsets| == |b.offsets| && |c.locals| == |b.locals| && c.globals.Keys == b.globals.Keys
    && (forall i :: 0 <= i < |b.offsets| ==> c.offsets[i] == EditOffset(b.offsets[i], |b.bytes|, e))
    && (forall i :: 0 <= i < |b.locals| ==> c.locals[i] == EditLocal(b.locals[i], |b.bytes|, e))
    && (forall h :: h in b.globals ==> c.globals[h] == EditGlobal(h, b.globals[h], mult[h], |b.bytes|, e))
  }

  function EditLocal(l: LocalSym, n: nat, e: Edit): LocalSym
  {
    if l.here then l.(sym := EditSym(l.sym, 1, n, e)) else l
  }

  function EditGlobal(h: HashEntry, s: Sym, m: nat, n: nat, e: Edit): Sym
  {
    if h.here then EditSym(s, m, n, e) else s
  }

  lemma LocalEdit(l: LocalSym, addr: nat, count: nat, toaddr: nat)
    ensures EditLocal(l, toaddr, Delete(addr, count))
         == MovedLocal(l, addr, count, toaddr)
  {
    hide MoveSym;
    MovedOnce(l.sym, addr, count, toaddr);
  }

  function MovedLocal(l: LocalSym, addr: nat, count: nat, toaddr: nat): LocalSym
  {
    if l.here then LocalSym(true, MoveSym(l.sym, addr, count, toaddr)) else l
  }

  lemma GlobalEdit(e: HashEntry, s: Sym, m: nat, addr: nat, count: nat, toaddr: nat)
    ensures EditGlobal(e, s, m, toaddr, Delete(addr, count))
         == if e.here then MoveSymTimes(s, m, addr, count, toaddr) else s
  {
    hide MoveSymTimes;
  }

  // The effects of the parts of DeleteBytes, taken together.
  lemma Deleted(b: Snapshot, c: Snapshot, mult: multiset<HashEntry>, addr: nat, count: nat)
    requires addr + count <= |b.bytes| && c.bytes == DeleteRange(b.bytes, addr, count)
    requires |c.offsets| == |b.offsets| && |c.locals| == |b.locals| && c.globals.Keys == b.globals.Keys
    requires forall i :: 0 <= i < |b.offsets| ==>
               c.offsets[i] == MoveOffset(b.offsets[i], addr, count, |b.bytes|)
    requires forall i :: 0 <= i < |b.locals| ==> c.locals[i] == MovedLocal(b.locals[i], addr, count, |b.bytes|)
    requires forall e :: e in b.globals ==>
               c.globals[e] == EditGlobal(e, b.globals[e], mult[e], |b.bytes|, Delete(addr, count))
    ensures FollowsEdit(b, c, mult, Delete(addr, count))
    ensures forall e :: e in b.globals ==>
              c.globals[e]
              == if e.here then MoveSymTimes(b.globals[e], mult[e], addr, count, |b.bytes|) else b.globals[e]
  {
    hide MoveOffset, MovedLocal, EditLocal, EditGlobal, DeleteRange, MoveSymTimes;
    forall i | 0 <= i < |b.locals| ensures c.locals[i] == EditLocal(b.locals[i], |b.bytes|, Delete(addr, count)) {
      LocalEdit(b.locals[i], addr, count, |b.bytes|);
    }
    forall e | e in b.globals
      ensures c.globals[e]
           == if e.here then MoveSymTimes(b.globals[e], mult[e], addr, count, |b.bytes|) else b.globals[e]
    {
      GlobalEdit(e, b.globals[e], mult[e], addr, count, |b.bytes|);
    }
  }

  lemma FollowsNothing(a: Snapshot, mult: multiset<HashEntry>)
    ensures Follows(a, a, mult, [])
  {
  }

  lemma FollowsOne(b: Snapshot, c: Snapshot, mult: multiset<HashEntry>, e: Edit)
    requires FollowsEdit(b, c, mult, e)
    ensures Follows(b, c, mult, [e])
  {
    OneEdit(b.bytes, 0, e);
    forall i | 0 <= i < |b.offsets| ensures c.offsets[i] == RunOffset(b.offsets[i], |b.bytes|, [e]) {
      OneEdit(b.bytes, b.offsets[i], e);
    }
    forall i | 0 <= i < |b.locals| ensures c.locals[i] == FollowLocal(b.locals[i], |b.bytes|, [e]) {
      OneEditSym(b.locals[i].sym, 1, |b.bytes|, e);
    }
    forall h | h in b.globals ensures c.globals[h] == FollowGlobal(h, b.globals[h], mult[h], |b.bytes|, [e]) {
      OneEditSym(b.globals[h], mult[h], |b.bytes|, e);
    }
  }

  lemma FollowsAppend(a: Snapshot, b: Snapshot, c: Snapshot, mult: multiset<HashEntry>, x: seq<Edit>, y: seq<Edit>)
    requires Follows(a, b, mult, x) && Follows(b, c, mult, y)
    ensures Follows(a, c, mult, x + y)
  {
    var n := |a.bytes|;
    RunAppend(a.bytes, x, y);
    forall i | 0 <= i < |a.offsets| ensures c.offsets[i] == RunOffset(a.offsets[i], n, x + y) {
      RunOffsetAppend(a.offsets[i], n, x, y);
    }
    forall i | 0 <= i < |a.locals| ensures c.locals[i] == FollowLocal(a.locals[i], n, x + y) {
      RunSymAppend(a.locals[i].sym, 1, n, x, y);
    }
    forall h | h in a.globals ensures c.globals[h] == FollowGlobal(h, a.globals[h], mult[h], n, x + y) {
      RunSymAppend(a.globals[h], mult[h], n, x, y);
    }
  }

  // ---------------------------------------------------------------- what a reader of the section sees

  // Both ends of a symbol are where the surviving bytes put them.
  predicate EndsMapped(s: Sym, t: Sym, edits: seq<Edit>)
  {
    t.value == MapPos(s.value, edits) && t.value + t.size == MapPos(s.value + s.size, edits)
  }

  // A symbol that no edit spoils.
  predicate Unspoilt(s: Sym, n: nat, edits: seq<Edit>)
  {
    s.value + s.size <= n && SymRunsWell(s, edits)
  }

  // Every byte that is neither deleted nor rewritten is where the deletions below it put it.
  predicate BytesMapped(before: seq<byte>, after: seq<byte>, edits: seq<Edit>)
  {
    forall x :: 0 <= x < |before| && Survives(x, edits) && !Touched(x, edits) ==>
      MapPos(x, edits) < |after| && after[MapPos(x, edits)] == before[x]
  }

  // Every relocation at a surviving byte is still at that byte.
  predicate OffsetsMapped(before: seq<Reloc>, after: seq<Reloc>, n: nat, edits: seq<Edit>)
  {
    && |after| == |before|
    && forall i :: 0 <= i < |before| && before[i].offset < n && Survives(before[i].offset, edits) ==>
         after[i].offset == MapPos(before[i].offset, edits)
  }

  // Local symbols of other sections stay, those of this section follow their bytes.
  predicate LocalsMapped(before: seq<LocalSym>, after: seq<LocalSym>, n: nat, edits: seq<Edit>)
  {
    && |after| == |before|
    && forall i :: 0 <= i < |before| ==>
         if before[i].here
         then after[i].here && (Unspoilt(before[i].sym, n, edits) ==> EndsMapped(before[i].sym, after[i].sym, edits))
         else after[i] == before[i]
  }

  // The same for a hash entry, when the hash vector lists it once.
  predicate GlobalMapped(here: bool, listed: nat, before: Sym, after: Sym, n: nat, edits: seq<Edit>)
  {
    if here then listed == 1 && Unspoilt(before, n, edits) ==> EndsMapped(before, after, edits) else after == before
  }

  lemma FollowsContents(a: Snapshot, b: Snapshot, mult: multiset<HashEntry>, edits: seq<Edit>)
    requires Follows(a, b, mult, edits)
    ensures RunFits(|a.bytes|, edits) && b.bytes == RunBytes(a.bytes, edits)
  {
  }

  lemma FollowsBytes(a: Snapshot, b: Snapshot, mult: multiset<HashEntry>, edits: seq<Edit>)
    requires Follows(a, b, mult, edits)
    ensures BytesMapped(a.bytes, b.bytes, edits)
  {
    hide RunBytes, RunOffset, RunSym, Survives, Touched, MapPos;
    forall x | 0 <= x < |a.bytes| && Survives(x, edits) && !Touched(x, edits)
      ensures MapPos(x, edits) < |b.bytes| && b.bytes[MapPos(x, edits)] == a.bytes[x]
    {
      SurvivorIsThere(a.bytes, x, edits);
    }
  }

  lemma FollowsLocals(a: Snapshot, b: Snapshot, mult: multiset<HashEntry>, edits: seq<Edit>)
    requires Follows(a, b, mult, edits) && |a.bytes| < WORD64
    ensures LocalsMapped(a.locals, b.locals, |a.bytes|, edits)
  {
    hide RunBytes, RunOffset, RunSym, SymRunsWell, MapPos, RunFits;
    forall i | 0 <= i < |a.locals| && a.locals[i].here && Unspoilt(a.locals[i].sym, |a.bytes|, edits)
      ensures EndsMapped(a.locals[i].sym, b.locals[i].sym, edits)
    {
      SymFollowsRun(a.locals[i].sym, |a.bytes|, edits);
    }
  }

  lemma FollowsGlobal(a: Snapshot, b: Snapshot, mult: multiset<HashEntry>, edits: seq<Edit>, e: HashEntry)
    requires Follows(a, b, mult, edits) && |a.bytes| < WORD64 && e in a.globals
    ensures e in b.globals && GlobalMapped(e.here, mult[e], a.globals[e], b.globals[e], |a.bytes|, edits)
  {
    hide RunBytes, RunOffset, RunSym, SymRunsWell, MapPos, RunFits;
    if e.here && mult[e] == 1 && Unspoilt(a.globals[e], |a.bytes|, edits) {
      SymFollowsRun(a.globals[e], |a.bytes|, edits);
    }
  }

  lemma FollowsOffset(a: Snapshot, b: Snapshot, mult: multiset<HashEntry>, edits: seq<Edit>, i: nat)
    requires Follows(a, b, mult, edits) && |a.bytes| < WORD64 && i < |a.offsets|
    ensures |b.offsets| == |a.offsets|
    ensures a.offsets[i] < |a.bytes| && Survives(a.offsets[i], edits) ==> b.offsets[i] == MapPos(a.offsets[i], edits)
  {
    hide RunBytes, RunOffset, RunSym, Survives, MapPos, RunFits;
    if a.offsets[i] < |a.bytes| && Survives(a.offsets[i], edits) {
      RelocKeepsByte(a.offsets[i], |a.bytes|, edits);
    }
  }

  class Section {
    const base: nat                  // sec_addr (sec)
    const contents: array<byte>
    var size: nat
    const relocs: array<Reloc>
    const locals: array<LocalSym>
    const globals: seq<HashEntry>    // sym_hashes, possibly listing an entry twice
    var frozen: bool                 // sec_flg0

    constructor (base: nat, contents: array<byte>, relocs: array<Reloc>, locals: array<LocalSym>,
        globals: seq<HashEntry>)
      ensures Valid() && size == contents.Length && !frozen
      ensures this.base == base && this.contents == contents && this.relocs == relocs
      ensures this.locals == locals && this.globals == globals
    {
      this.base, this.contents, this.size := base, contents, contents.Length;
      this.relocs, this.locals, this.globals, this.frozen := relocs, locals, globals, false;
    }

    ghost predicate Valid()
      reads this
    {
      size <= contents.Length
    }

    ghost function Shot(): (s: Snapshot)
      reads this, contents, relocs, locals, globals
      requires Valid()
      ensures |s.bytes| == size && |s.offsets| == relocs.Length
      ensures forall i :: 0 <= i < relocs.Length ==> s.offsets[i] == relocs[i].offset
    {
      Snapshot(contents[..size], seq(relocs.Length, i requires 0 <= i < relocs.Length reads relocs => relocs[i].offset),
               locals[..], map e | e in globals :: e.Def())
    }

    ghost predicate SameKinds(before: seq<Reloc>)
      reads relocs
    {
      |before| == relocs.Length
      && forall i :: 0 <= i < |before| ==> relocs[i].kind == before[i].kind && relocs[i].addend == before[i].addend
    }

    // Contents, relocations and symbols after some edits, read off the object itself.
    twostate predicate Mapped(edits: seq<Edit>)
      reads this, contents, relocs, locals, globals
    {
      && size <= contents.Length && old(size) <= contents.Length
      && BytesMapped(old(contents[..size]), contents[..size], edits)
      && OffsetsMapped(old(relocs[..]), relocs[..], old(size), edits)
      && LocalsMapped(old(locals[..]), locals[..], old(size), edits)
      && forall e :: e in globals ==>
           GlobalMapped(e.here, multiset(globals)[e], Sym(old(e.value), old(e.size)), Sym(e.value, e.size),
                        old(size), edits)
    }

    twostate lemma FollowsMapped(edits: seq<Edit>)
      requires old(Valid()) && Valid() && old(size) < WORD64
      requires Follows(old(Shot()), Shot(), multiset(globals), edits)
      ensures Mapped(edits)
    {
      hide Follows, BytesMapped, LocalsMapped, GlobalMapped, Survives, MapPos;
      var a, b, mult := old(Shot()), Shot(), multiset(globals);
      FollowsBytes(a, b, mult, edits);
      FollowsLocals(a, b, mult, edits);
      forall i | 0 <= i < relocs.Length
        ensures old(relocs[i]).offset < old(size) && Survives(old(relocs[i]).offset, edits) ==>
                  relocs[i].offset == MapPos(old(relocs[i]).offset, edits)
      {
        FollowsOffset(a, b, mult, edits, i);
      }
      forall e | e in globals
        ensures GlobalMapped(e.here, mult[e], Sym(old(e.value), old(e.size)), Sym(e.value, e.size), old(size), edits)
      {
        FollowsGlobal(a, b, mult, edits, e);
      }
    }

    /** riscv_relax_delete_bytes: remove [addr, addr + count) and move what points behind it. */
    method DeleteBytes(addr: nat, count: nat)
      requires Valid() && addr + count <= size
      modifies this`size, contents, relocs, locals, globals
      ensures Valid() && size == old(size) - count
      ensures FollowsEdit(old(Shot()), Shot(), multiset(globals), Delete(addr, count))
      ensures SameKinds(old(relocs[..]))
      ensures forall i :: 0 <= i < locals.Length ==>
                locals[i] == if old(locals[i]).here
                             then LocalSym(true, MoveSym(old(locals[i]).sym, addr, count, old(size)))
                             else old(locals[i])
      ensures forall e :: e in globals ==>
                Sym(e.value, e.size)
                == if !e.here then Sym(old(e.value), old(e.size))
                   else MoveSymTimes(Sym(old(e.value), old(e.size)), multiset(globals)[e], addr, count, old(size))
      ensures old(size) < WORD64 ==> Mapped([Delete(addr, count)])
    {
      hide MoveOffset, MoveSym, EditLocal, EditGlobal, DeleteRange, Mapped, FollowsEdit;
      var toaddr := size;
      size := size - count;
      ShiftContents(addr, count, toaddr);
      MoveRelocOffsets(addr, count, toaddr);
      MoveLocals(addr, count, toaddr);
      MoveGlobals(addr, count, toaddr);
      Deleted(old(Shot()), Shot(), multiset(globals), addr, count);
      if toaddr < WORD64 {
        FollowsOne(old(Shot()), Shot(), multiset(globals), Delete(addr, count));
        FollowsMapped([Delete(addr, count)]);
      }
    }

    // memmove over the deleted range
    method ShiftContents(addr: nat, count: nat, toaddr: nat)
      requires addr + count <= toaddr <= contents.Length
      modifies contents
      ensures contents[..toaddr - count] == DeleteRange(old(contents[..toaddr]), addr, count)
    {
      forall k | addr <= k < toaddr - count {
        contents[k] := contents[k + count];
      }
    }

    method MoveRelocOffsets(addr: nat, count: nat, toaddr: nat)
      modifies relocs
      ensures forall i :: 0 <= i < relocs.Length ==>
                relocs[i] == old(relocs[i]).(offset := MoveOffset(old(relocs[i].offset), addr, count, toaddr))
    {
      for i := 0 to relocs.Length
        invariant forall k :: 0 <= k < i ==>
                    relocs[k] == old(relocs[k]).(offset := MoveOffset(old(relocs[k].offset), addr, count, toaddr))
        invariant forall k :: i <= k < relocs.Length ==> relocs[k] == old(relocs[k])
      {
        if relocs[i].offset > addr && relocs[i].offset < toaddr {
          relocs[i] := relocs[i].(offset := Sub64(relocs[i].offset, count));
        }
      }
    }

    method MoveLocals(addr: nat, count: nat, toaddr: nat)
      modifies locals
      ensures forall i :: 0 <= i < locals.Length ==> locals[i] == MovedLocal(old(locals[i]), addr, count, toaddr)
    {
      for i := 0 to locals.Length
        invariant forall k :: 0 <= k < i ==> locals[k] == MovedLocal(old(locals[k]), addr, count, toaddr)
        invariant forall k :: i <= k < locals.Length ==> locals[k] == old(locals[k])
      {
        if locals[i].here {
          var value, size := locals[i].sym.value, locals[i].sym.size;
          if value > addr && value <= toaddr {
            value := Sub64(value, count);
          }
          if value <= addr && Add64(value, size) > addr && Add64(value, size) <= toaddr {
            size := Sub64(size, count);
          }
          locals[i] := LocalSym(true, Sym(value, size));
        }
      }
    }

    // One visit of the loop over the hash vector.
    method VisitGlobal(entry: HashEntry, addr: nat, count: nat, toaddr: nat)
      modifies entry
      ensures entry.Def() == if entry.here then MoveSym(old(entry.Def()), addr, count, toaddr) else old(entry.Def())
    {
      if entry.here {
        if entry.value > addr && entry.value <= toaddr {
          entry.value := Sub64(entry.value, count);
        }
        if entry.value <= addr && Add64(entry.value, entry.size) > addr && Add64(entry.value, entry.size) <= toaddr {
          entry.size := Sub64(entry.size, count);
        }
      }
    }

    /** Entries are visited once per listing, and each visit starts from what the last one left. */
    method MoveGlobals(addr: nat, count: nat, toaddr: nat)
      modifies globals
      ensures forall e :: e in globals ==>
                e.Def() == EditGlobal(e, old(e.Def()), multiset(globals)[e], toaddr, Delete(addr, count))
    {
      hide EditGlobal, MoveSym;
      forall e | e in globals ensures EditGlobal(e, e.Def(), 0, toaddr, Delete(addr, count)) == e.Def() {
        VisitedNever(e, e.Def(), addr, count, toaddr);
      }
      for i := 0 to |globals|
        invariant forall e :: e in globals ==>
                    e.Def() == EditGlobal(e, old(e.Def()), multiset(globals[..i])[e], toaddr, Delete(addr, count))
      {
        var entry := globals[i];
        ghost var m := multiset(globals[..i])[entry];
        assert globals[..i + 1] == globals[..i] + [entry];
        VisitedAgain(entry, old(entry.Def()), m, addr, count, toaddr);
        VisitGlobal(entry, addr, count, toaddr);
      }
      assert globals[..|globals|] == globals;
    }

    // bfd_put: overwrite contents in place.
    method PutBytes(addr: nat, data: seq<byte>)
      requires Valid() && addr + |data| <= size
      modifies contents
      ensures contents[..size] == Splice(old(contents[..size]), addr, data)
    {
      forall k | 0 <= k < |data| {
        contents[addr + k] := data[k];
      }
    }

    /** Write the NOPs of an alignment: whole words first, then a compressed NOP if needed. */
    method WriteNops(offset: nat, nops: nat)
      requires Valid() && offset + |NopData(nops)| <= size
      modifies contents
      ensures contents[..size] == Splice(old(contents[..size]), offset, NopData(nops))
    {
      hide Splice, Nops, NopData;
      ghost var before := contents[..size];
      NopDataParts(nops);
      SpliceNothing(before, offset);
      var pos := 0;
      while pos < nops - nops % 4
        invariant pos % 4 == 0 && pos <= nops - nops % 4
        invariant contents[..size] == Splice(before, offset, Nops(pos / 4))
      {
        NopsMore(pos / 4);
        PutBytes(offset + pos, [0x13, 0, 0, 0]);
        SpliceMore(before, offset, Nops(pos / 4), [0x13, 0, 0, 0]);
        pos := pos + 4;
      }
      if nops % 4 != 0 {
        PutBytes(offset + pos, [0x01, 0x00]);
        SpliceMore(before, offset, Nops(pos / 4), [0x01, 0x00]);
      }
    }

    method ComputeAlignment(addend: nat) returns (alignment: nat)
      ensures alignment == Alignment(addend)
    {
      alignment := 1;
      while alignment <= addend
        invariant alignment > 0
        invariant Alignment(addend) == alignment * Alignment(addend / alignment)
        decreases addend - alignment
      {
        AlignmentDoubles(addend, alignment);
        alignment := alignment * 2;
      }
      QuotientZero(addend, alignment);
    }

    /** _bfd_riscv_relax_align.  symval is what the caller computed for the reloc: the address
        of its offset plus its addend. */
    method RelaxAlign(i: nat, symval: nat) returns (ok: bool, ghost edits: seq<Edit>)
      requires Valid() && i < relocs.Length && relocs[i].kind == ALIGN
      requires relocs[i].offset + relocs[i].addend <= size < WORD64
      requires symval == Add64(Add64(base, relocs[i].offset), relocs[i].addend)
      modifies this`size, this`frozen, contents, relocs, locals, globals
      ensures Valid() && frozen
      ensures ok == (NeedAt(base)(old(relocs[i].offset), old(relocs[i].addend)) <= old(relocs[i].addend))
      ensures !ok ==> size == old(size) && Shot() == old(Shot()) && relocs[..] == old(relocs[..])
      ensures ok ==> edits == AlignEdits(old(relocs[i].offset), old(relocs[i].addend),
                                         NeedAt(base)(old(relocs[i].offset), old(relocs[i].addend)))
      ensures ok ==> Follows(old(Shot()), Shot(), multiset(globals), edits)
      ensures ok ==> SameKindsBut(old(relocs[..]), i, NONE)
    {
      hide RunBytes, RunFits, RunOffset, RunSym, RunSize, Follows, NeedAt, NopData;
      var r := relocs[i];
      edits := [];
      var nopBytes := NopBytesFor(r, symval);
      frozen := true;
      if r.addend < nopBytes {
        return false, edits;
      }
      relocs[i] := r.(kind := NONE);
      assert Shot() == old(Shot());
      if nopBytes == r.addend {
        FollowsNothing(Shot(), multiset(globals));
        return true, edits;
      }
      edits := ReplacePadding(r.offset, r.addend, nopBytes);
      return true, edits;
    }

    // The distance from the padding's start to the next aligned address.
    method NopBytesFor(r: Reloc, symval: nat) returns (nopBytes: nat)
      requires symval == Add64(Add64(base, r.offset), r.addend)
      ensures nopBytes == NeedAt(base)(r.offset, r.addend)
    {
      hide And, Add64, Sub64, Alignment;
      var alignment := ComputeAlignment(r.addend);
      var start := Sub64(symval, r.addend);
      AddBelow(base, r.offset);
      SubUndoesAdd(Add64(base, r.offset), r.addend);
      var below := Sub64(start, 1);
      var alignedAddr := Add64(Sub64(below, And(below, alignment - 1)), alignment);
      nopBytes := Sub64(alignedAddr, start);
    }

    // Fill the kept part of the padding with NOPs and delete the rest.
    method ReplacePadding(offset: nat, addend: nat, nops: nat) returns (ghost edits: seq<Edit>)
      requires Valid() && nops < addend && offset + addend <= size
      modifies this`size, contents, relocs, locals, globals
      ensures Valid() && size == old(size) - (addend - nops)
      ensures edits == AlignEdits(offset, addend, nops) && Follows(old(Shot()), Shot(), multiset(globals), edits)
      ensures SameKinds(old(relocs[..]))
    {
      hide Mapped, MoveSym, MoveSymTimes;
      hide RunBytes, RunFits, RunOffset, RunSym, RunSize, Follows, FollowsEdit, NopData, Nops;
      ghost var shot0, mult := Shot(), multiset(globals);
      NopDataLength(nops);
      WriteNops(offset, nops);
      ghost var shot1 := Shot();
      PatchFollows(shot0, shot1, mult, offset, NopData(nops));
      FollowsOne(shot0, shot1, mult, Patch(offset, NopData(nops)));
      DeleteBytes(offset + nops, addend - nops);
      FollowsOne(shot1, Shot(), mult, Delete(offset + nops, addend - nops));
      FollowsAppend(shot0, shot1, Shot(), mult, [Patch(offset, NopData(nops))], [Delete(offset + nops, addend - nops)]);
      edits := [Patch(offset, NopData(nops))] + [Delete(offset + nops, addend - nops)];
    }

    ghost predicate SameKindsBut(before: seq<Reloc>, i: nat, kind: RelocKind)
      reads relocs
    {
      |before| == relocs.Length
      && forall k :: 0 <= k < |before| ==>
           relocs[k].addend == before[k].addend && relocs[k].kind == (if k == i then kind else before[k].kind)
    }

    /** Pass 1: handle every R_RISCV_ALIGN in order, and fail on the first one whose padding is
        too short. */
    method HandleAlignments() returns (ok: bool, ghost edits: seq<Edit>)
      requires Valid() && size < WORD64 && PadsFrom(relocs[..], 0, size)
      modifies this`size, this`frozen, contents, relocs, locals, globals
      ensures Valid()
      ensures ok == AlignPlanFrom(old(relocs[..]), 0, NeedAt(base), old(size)).Possible?
      ensures ok ==> AlignPlanFrom(old(relocs[..]), 0, NeedAt(base), old(size)) == Possible(edits)
      ensures ok ==> Follows(old(Shot()), Shot(), multiset(globals), edits)
      ensures ok ==> AlignsDone(old(relocs[..]), relocs[..], relocs.Length)
      ensures ok ==> Retagged() && PaddingsFilled(base, old(relocs[..]), old(contents[..size]), relocs[..],
                                                  contents[..size], edits)
      ensures frozen == (old(frozen) || HasAlign(old(relocs[..])))
    {
      hide RunBytes, RunFits, RunOffset, RunSym, RunSize, Follows, FollowsEdit;
      hide AlignPlanFrom, NeedAt, AlignEdits, PadsFrom, HasAlign, PlanAfter, AlignsDone, Add64, PaddingsFilled;
      ok, edits := true, [];
      ghost var shot0, mult := Shot(), multiset(globals);
      ghost var plan := AlignPlanFrom(relocs[..], 0, NeedAt(base), size);
      FollowsNothing(shot0, mult);
      ghost var was := relocs[..];
      NoneDone(was);
      PlanAfterNothing(plan);
      for i := 0 to relocs.Length
        invariant Valid() && size < WORD64 && PadsFrom(relocs[..], i, size)
        invariant Follows(shot0, Shot(), mult, edits)
        invariant plan == PlanAfter(edits, AlignPlanFrom(relocs[..], i, NeedAt(base), size))
        invariant AlignsDone(was, relocs[..], i)
        invariant frozen == (old(frozen) || HasAlign(was[..i]))
      {
        ghost var before, n, shot := relocs[..], size, Shot();
        HasAlignNext(was, before, i);
        if relocs[i].kind == ALIGN {
          var symval := Add64(Add64(base, relocs[i].offset), relocs[i].addend);
          PadInside(before, i, n);
          ghost var e;
          ok, e := RelaxAlign(i, symval);
          if !ok {
            PlanFails(before, i, NeedAt(base), n);
            PlanAfterFails(edits);
            return false, edits;
          }
          FollowsAppend(shot0, shot, Shot(), mult, edits, e);
          FollowsMeans(shot, Shot(), mult, e);
          PlanAdvances(before, relocs[..], i, NeedAt(base), n, size, e);
          PlanAfterTwice(edits, e, AlignPlanFrom(relocs[..], i + 1, NeedAt(base), size));
          edits := edits + e;
          DoneHere(was, before, relocs[..], i);
        } else {
          PlanSkips(before, i, NeedAt(base), n);
          DoneSkip(was, before, i);
        }
      }
      PlanEnds(relocs[..], NeedAt(base), size);
      PlanAfterEnds(edits);
      assert was[..relocs.Length] == was;
      AllDone(was, relocs[..]);
      AllFilled(base, was, shot0, relocs[..], Shot(), mult, edits);
    }

    // Every alignment directive has become a relocation that does nothing; no other was retagged.
    twostate predicate Retagged()
      reads relocs
    {
      forall k :: 0 <= k < relocs.Length ==>
        relocs[k].kind == if old(relocs[k].kind) == ALIGN then NONE else old(relocs[k].kind)
    }

    /** Pass 0: each paired relocation is dealt with as `choices` says. */
    method ShortenCode(choices: seq<Choice>) returns (again: bool, ghost edits: seq<Edit>)
      requires Valid() && size < WORD64
      requires SlotsFrom(relocs[..], 0, size) && AllowedFrom(relocs[..], choices, 0)
      modifies this`size, contents, relocs, locals, globals
      ensures Valid()
      ensures ShortenFrom(old(relocs[..]), choices, 0, old(size), false) == Result(edits, relocs[..], again)
      ensures Follows(old(Shot()), Shot(), multiset(globals), edits)
      ensures Mapped(edits) && Rewritten(old(relocs[..]), choices, 0, relocs[..], contents[..size], edits)
    {
      hide RunBytes, RunFits, RunOffset, RunSym, RunSize, Follows, FollowsEdit, ShortenFrom, SlotsFrom, TurnAt;
      hide Mapped, Rewritten;
      again, edits := false, [];
      ghost var shot0, mult := Shot(), multiset(globals);
      ghost var pass := ShortenFrom(relocs[..], choices, 0, size, false);
      FollowsNothing(shot0, mult);
      JoinedNothing(pass);
      var i := 0;
      while i < relocs.Length
        invariant Valid() && i <= relocs.Length && size < WORD64
        invariant SlotsFrom(relocs[..], i, size) && AllowedFrom(relocs[..], choices, i)
        invariant Follows(shot0, Shot(), mult, edits)
        invariant pass == Joined(edits, ShortenFrom(relocs[..], choices, i, size, again))
      {
        ghost var before, n, shot, was := relocs[..], size, Shot(), again;
        ghost var t := TurnAt(before, choices[i], i, n, was);
        TurnKeeps(before, choices, i, n, was);
        TurnUnfolds(before, choices, i, n, was);
        i, again := RelaxOne(i, choices[i], again);
        FollowsAppend(shot0, shot, Shot(), mult, edits, t.edits);
        JoinedTwice(edits, t.edits, ShortenFrom(relocs[..], choices, i, size, again));
        edits := edits + t.edits;
      }
      ShortenEnds(relocs[..], choices, size, again);
      assert edits + [] == edits;
      PassRewrites(old(relocs[..]), choices, 0, shot0.bytes, false);
      FollowsMapped(edits);
      FollowsContents(shot0, Shot(), mult, edits);
    }

    // Size, contents and symbols are as they were.
    twostate predicate LeftAlone()
      reads this, contents, relocs, locals, globals
    {
      && size == old(size) && contents[..] == old(contents[..]) && locals[..] == old(locals[..])
      && forall e :: e in globals ==> e.value == old(e.value) && e.size == old(e.size)
    }

    // What each choice does to the section.
    twostate predicate Handled(i: nat, choice: Choice, again: bool, again': bool)
      requires i < relocs.Length
      reads this, contents, relocs, locals, globals
    {
      var offset := old(relocs[i].offset);
      match choice
      case Keep => again' == again && LeftAlone() && relocs[..] == old(relocs[..])
      case ResetAgain => !again' && LeftAlone() && relocs[..] == old(relocs[..])
      case Retag(newKind) =>
        again' == again && LeftAlone() && relocs[..] == old(relocs[..])[i := old(relocs[i]).(kind := newKind)]
      case Shorten(newKind, data, keep, drop) =>
        && again' && relocs[i].kind == newKind && size == old(size) - drop
        && size <= contents.Length && keep <= |data| && offset + keep + drop <= old(size) <= contents.Length
        && contents[..size] == old(contents[..offset]) + data[..keep] + old(contents[offset + keep + drop..size])
        && forall j :: 0 <= j < relocs.Length && j != i ==> relocs[j].kind == old(relocs[j].kind)
    }

    // The relaxation function that was chosen for relocation i.
    method RelaxPaired(i: nat, choice: Choice, again: bool) returns (again': bool)
      requires Valid() && i < relocs.Length && size < WORD64
      requires SlotsFrom(relocs[..], i, size) && Allowed(relocs[i].kind, choice) && Paired(relocs[..], i)
      modifies this`size, contents, relocs, locals, globals
      ensures Valid() && Handled(i, choice, again, again')
      ensures TurnAt(old(relocs[..]), choice, i, old(size), again)
           == Turn(TurnAt(old(relocs[..]), choice, i, old(size), again).edits, relocs[..], again', i + 2)
      ensures Follows(old(Shot()), Shot(), multiset(globals),
               TurnAt(old(relocs[..]), choice, i, old(size), again).edits)
    {
      hide RunBytes, RunFits, RunOffset, RunSym, RunSize, Follows, FollowsEdit, SlotsFrom, ShortenRelocs, ShortenEdits;
      FollowsNothing(Shot(), multiset(globals));
      again' := again;
      match choice {
        case Keep =>
        case Retag(newKind) =>
          ghost var shot := Shot();
          relocs[i] := relocs[i].(kind := newKind);
          assert Shot() == shot;
        case ResetAgain =>
          again' := false;
        case Shorten(newKind, data, keep, drop) =>
          again' := true;
          ShortenFits(relocs[..], i, size, choice);
          SlotInside(relocs[..], i, size, choice);
          ShortenAt(i, choice);
      }
    }

    // The loop body for relocation i.
    method RelaxOne(i: nat, choice: Choice, again: bool) returns (next: nat, again': bool)
      requires Valid() && i < relocs.Length && size < WORD64
      requires SlotsFrom(relocs[..], i, size) && Allowed(relocs[i].kind, choice)
      modifies this`size, contents, relocs, locals, globals
      ensures Valid()
      ensures TurnAt(old(relocs[..]), choice, i, old(size), again)
           == Turn(TurnAt(old(relocs[..]), choice, i, old(size), again).edits, relocs[..], again', next)
      ensures Follows(old(Shot()), Shot(), multiset(globals),
               TurnAt(old(relocs[..]), choice, i, old(size), again).edits)
      ensures RunFits(old(size), TurnAt(old(relocs[..]), choice, i, old(size), again).edits)
      ensures size == RunSize(old(size), TurnAt(old(relocs[..]), choice, i, old(size), again).edits)
      ensures if old(relocs[i].kind in RELAXABLE && i + 1 < relocs.Length && relocs[i + 1].kind == RELAX
                     && relocs[i + 1].offset == relocs[i].offset)
              then next == i + 2 && Handled(i, choice, again, again')
              else next == i + 1 && again' == again && LeftAlone() && relocs[..] == old(relocs[..])
    {
      hide Follows, SlotsFrom, Handled, RunFits, RunSize;
      ghost var shot := Shot();
      RelaxableKinds(relocs[i].kind);
      FollowsNothing(shot, multiset(globals));
      next, again' := i + 1, again;
      if Eligible(relocs[i].kind) && i != relocs.Length - 1
         && relocs[i + 1].kind == RELAX && relocs[i].offset == relocs[i + 1].offset {
        next := i + 2;
        again' := RelaxPaired(i, choice, again);
      }
      FollowsMeans(shot, Shot(), multiset(globals), TurnAt(old(relocs[..]), choice, i, old(size), again).edits);
    }

    // Retag the relocation, rewrite the instruction, delete what became unnecessary.
    method ShortenAt(i: nat, c: Choice)
      requires Valid() && i < relocs.Length && c.Shorten?
      requires c.keep <= |c.data| <= c.keep + c.drop && relocs[i].offset + c.keep + c.drop <= size
      modifies this`size, contents, relocs, locals, globals
      ensures Valid() && size == old(size) - c.drop
      ensures contents[..size]
           == old(contents[..relocs[i].offset]) + c.data[..c.keep]
              + old(contents[relocs[i].offset + c.keep + c.drop..size])
      ensures relocs[i].kind == c.newKind && SameKinds(old(relocs[..])[i := old(relocs[i]).(kind := c.newKind)])
      ensures RunFits(old(size), ShortenEdits(old(relocs[i]).offset, c.data, c.keep, c.drop))
      ensures RunSize(old(size), ShortenEdits(old(relocs[i]).offset, c.data, c.keep, c.drop)) == size
      ensures relocs[..] == ShortenRelocs(old(relocs[..]), i, old(size), c)
      ensures Follows(old(Shot()), Shot(), multiset(globals),
               ShortenEdits(old(relocs[i]).offset, c.data, c.keep, c.drop))
    {
      hide RunBytes, RunFits, RunOffset, RunSym, RunSize, Follows, FollowsEdit;
      hide Mapped, MoveSym, MoveSymTimes, Splice;
      ghost var shot0, mult := Shot(), multiset(globals);
      var offset := relocs[i].offset;
      relocs[i] := relocs[i].(kind := c.newKind);
      ghost var kinds := relocs[..];
      assert Shot() == shot0;
      PutBytes(offset, c.data);
      ghost var shot1 := Shot();
      PatchFollows(shot0, shot1, mult, offset, c.data);
      FollowsOne(shot0, shot1, mult, Patch(offset, c.data));
      DeleteBytes(offset + c.keep, c.drop);
      FollowsOne(shot1, Shot(), mult, Delete(offset + c.keep, c.drop));
      FollowsAppend(shot0, shot1, Shot(), mult, [Patch(offset, c.data)], [Delete(offset + c.keep, c.drop)]);
      assert [Patch(offset, c.data)] + [Delete(offset + c.keep, c.drop)]
             == ShortenEdits(offset, c.data, c.keep, c.drop);
      FollowsMeans(shot0, Shot(), mult, ShortenEdits(offset, c.data, c.keep, c.drop));
      FollowsContents(shot0, Shot(), mult, ShortenEdits(offset, c.data, c.keep, c.drop));
      NewCode(shot0.bytes, offset, c);
      assert shot0.bytes[..offset] == old(contents[..offset]);
      assert shot0.bytes[offset + c.keep + c.drop..] == old(contents[offset + c.keep + c.drop..size]);
    }

    // The section is left alone.
    predicate Idle(relaxPass: nat, relocatable: bool, hasRelocs: bool, disabled: bool)
      reads this
    {
      relocatable || frozen || !hasRelocs || relocs.Length == 0 || (disabled && relaxPass == 0)
    }

    /** One call of the section relaxer: pass 0 or pass 1, and nothing at all for a section that
        is frozen, has no relocations, or must not be touched. */
    method RelaxSection(relaxPass: nat, relocatable: bool, hasRelocs: bool, disabled: bool, choices: seq<Choice>)
      returns (ok: bool, again: bool, ghost edits: seq<Edit>)
      requires Valid() && size < WORD64
      requires !Idle(relaxPass, relocatable, hasRelocs, disabled) && relaxPass == 0 ==>
                 SlotsFrom(relocs[..], 0, size) && AllowedFrom(relocs[..], choices, 0)
      requires !Idle(relaxPass, relocatable, hasRelocs, disabled) && relaxPass != 0 ==> PadsFrom(relocs[..], 0, size)
      modifies this`size, this`frozen, contents, relocs, locals, globals
      ensures Valid()
      ensures ok ==> Follows(old(Shot()), Shot(), multiset(globals), edits)
      ensures ok ==> Mapped(edits)
      ensures relocatable || old(frozen) || !hasRelocs || (disabled && relaxPass == 0) ==>
                ok && !again && frozen == old(frozen) && LeftAlone() && relocs[..] == old(relocs[..])
      ensures !relocatable && !old(frozen) && hasRelocs && !disabled && relaxPass == 0 && relocs.Length > 0 ==>
                Rewritten(old(relocs[..]), choices, 0, relocs[..], contents[..size], edits)
      ensures again ==> ok && size < old(size)
      ensures ok ==> size <= old(size)
      ensures ok && relaxPass == 0 && old(Placed(relocs[..], size)) ==>
                Placed(relocs[..], size) && PadsKept(old(relocs[..]), relocs[..], edits)
      ensures old(Idle(relaxPass, relocatable, hasRelocs, disabled)) ==>
                && ok && !again && edits == [] && Shot() == old(Shot()) && relocs[..] == old(relocs[..])
                && frozen == old(frozen)
      ensures !old(Idle(relaxPass, relocatable, hasRelocs, disabled)) && relaxPass == 0 ==>
                !frozen && ok && ShortenFrom(old(relocs[..]), choices, 0, old(size), false)
                  == Result(edits, relocs[..], again)
      ensures !old(Idle(relaxPass, relocatable, hasRelocs, disabled)) && relaxPass != 0 ==>
                var plan := AlignPlanFrom(old(relocs[..]), 0, NeedAt(base), old(size));
                && ok == plan.Possible? && (ok ==> plan == Possible(edits))
                && (ok ==> Retagged() && PaddingsFilled(base, old(relocs[..]), old(contents[..size]), relocs[..],
                                                        contents[..size], edits))
                && frozen == HasAlign(old(relocs[..]))
    {
      hide Mapped, Rewritten, Follows;
      again, edits := false, [];
      if relocatable || frozen || !hasRelocs || relocs.Length == 0 || (disabled && relaxPass == 0) {
        FollowsNothing(Shot(), multiset(globals));
        FollowsMapped(edits);
        NothingKept(relocs[..]);
        return true, false, edits;
      }
      ghost var shot, n, before := Shot(), size, relocs[..];
      if relaxPass == 0 {
        AgainShrinks(before, choices, 0, n, false);
        if Placed(before, n) {
          PassKeepsPlaced(before, choices, 0, n, false);
        }
        again, edits := ShortenCode(choices);
        ok := true;
      } else {
        ok, edits := HandleAlignments();
      }
      if ok {
        FollowsMeans(shot, Shot(), multiset(globals), edits);
        RunSmaller(n, edits);
        FollowsMapped(edits);
      }
    }

    /** All passes over one section, as the linker runs them: pass 0 for as long as it asks for
        another round, then pass 1.  Every round finds what it needs, the rounds end, and when pass
        1 succeeds every directive holds: the code that followed its padding at the start is
        aligned at the end.  It succeeds exactly when every padding reaches its aligned address
        from where the rounds left it.  `decide` stands for what the relaxation functions do in
        each round. */
    method RelaxAll(disabled: bool, decide: (nat, seq<Reloc>) -> seq<Choice>)
      returns (ok: bool, ghost rounds: seq<Edit>, ghost paddings: seq<Reloc>, ghost edits: seq<Edit>)
      requires Valid() && size < WORD63 && !frozen && Placed(relocs[..], size)
      requires forall k: nat, rs: seq<Reloc> :: AllowedFrom(rs, decide(k, rs), 0)
      modifies this`size, this`frozen, contents, relocs, locals, globals
      ensures Valid() && frozen == HasAlign(old(relocs[..]))
      ensures PadsKept(old(relocs[..]), paddings, rounds) && ok == PadsReach(paddings, 0, base, 0)
      ensures ok ==> Follows(old(Shot()), Shot(), multiset(globals), edits) && rounds <= edits
      ensures ok ==> Mapped(edits) && DirectivesHold(old(relocs[..]), base, edits)
    {
      hide Mapped, Rewritten;
      hide Follows, Placed, PadsKept, AlignPlanFrom, NeedAt, ShortenFrom, PadsReach, DirectivesHold, AllowedFrom,
           HasAlign;
      hide SlotsFrom, PadsFrom, RunFits, RunSize, AlignsDone, RunOffset, RunBytes;
      ghost var shot0, mult := Shot(), multiset(globals);
      ok, edits := true, [];
      FollowsNothing(shot0, mult);
      NothingKept(relocs[..]);
      var again, round := true, 0;
      while again
        invariant Valid() && size < WORD63 && !frozen && Placed(relocs[..], size)
        invariant Follows(shot0, Shot(), mult, edits) && PadsKept(old(relocs[..]), relocs[..], edits)
        decreases size, again
      {
        ghost var shot, before := Shot(), relocs[..];
        PlacedMeans(relocs[..], size);
        ghost var e;
        ok, again, e := RelaxSection(0, false, true, disabled, decide(round, relocs[..]));
        FollowsAppend(shot0, shot, Shot(), mult, edits, e);
        PadsKeptTwice(old(relocs[..]), before, relocs[..], edits, e);
        edits, round := edits + e, round + 1;
      }
      ghost var shot, n := Shot(), size;
      rounds, paddings := edits, relocs[..];
      PlacedMeans(paddings, n);
      SameDirectives(old(relocs[..]), paddings, rounds);
      PlanExists(paddings, base, n);
      ghost var e;
      ok, again, e := RelaxSection(1, false, true, disabled, []);
      NoPaddings(paddings, base, n);
      if ok {
        FollowsAppend(shot0, shot, Shot(), mult, rounds, e);
        edits := rounds + e;
        FollowsMapped(edits);
        AllHold(old(relocs[..]), paddings, base, shot.bytes, rounds, e);
      }
    }

    /** Once an alignment directive has been handled no later call of the section relaxer, in
        whatever pass and however often, changes anything or asks for another round. */
    method RelaxFrozen(calls: seq<Call>) returns (ok: bool, again: bool)
      requires Valid() && size < WORD64 && frozen
      modifies this`size, this`frozen, contents, relocs, locals, globals
      ensures Valid() && frozen && ok && !again
      ensures Shot() == old(Shot()) && relocs[..] == old(relocs[..])
    {
      hide Follows;
      ok, again := true, false;
      for k := 0 to |calls|
        invariant Valid() && frozen && ok && !again && size < WORD64
        invariant Shot() == old(Shot()) && relocs[..] == old(relocs[..])
      {
        var c := calls[k];
        var ok', again', _ := RelaxSection(c.relaxPass, c.relocatable, c.hasRelocs, c.disabled, c.choices);
        ok, again := ok && ok', again || again';
      }
    }
  }

  // The arguments of one call of the section relaxer.
  datatype Call = Call(relaxPass: nat, relocatable: bool, hasRelocs: bool, disabled: bool, choices: seq<Choice>)

  // The position that was behind the padding of each directive is aligned as it asks.
  predicate DirectivesHold(relocs: seq<Reloc>, base: nat, edits: seq<Edit>)
  {
    forall j :: 0 <= j < |relocs| && relocs[j].kind == ALIGN ==>
      (base + MapPos(relocs[j].offset + relocs[j].addend, edits)) % Alignment(relocs[j].addend) == 0
  }

  lemma PlacedMeans(relocs: seq<Reloc>, n: nat)
    requires Placed(relocs, n)
    ensures SlotsFrom(relocs, 0, n) && PadsFrom(relocs, 0, n)
    ensures n < WORD63 ==> n < WORD64
  {
  }

  lemma SameDirectives(a: seq<Reloc>, b: seq<Reloc>, edits: seq<Edit>)
    requires PadsKept(a, b, edits)
    ensures HasAlign(a) <==> HasAlign(b)
  {
    hide MapPos;
    if HasAlign(a) {
      var k :| 0 <= k < |a| && IsAlign(a[k]);
      assert IsAlign(b[k]);
    }
    if HasAlign(b) {
      var k :| 0 <= k < |b| && IsAlign(b[k]);
      assert IsAlign(a[k]);
    }
  }

  lemma NoPaddings(relocs: seq<Reloc>, base: nat, n: nat)
    requires PadsFrom(relocs, 0, n) && n < WORD64
    ensures |relocs| == 0 ==> !HasAlign(relocs) && AlignPlanFrom(relocs, 0, NeedAt(base), n) == Possible([])
  {
  }

  lemma AllHold(relocs: seq<Reloc>, paddings: seq<Reloc>, base: nat, s: seq<byte>, rounds: seq<Edit>, e: seq<Edit>)
    requires PadsKept(relocs, paddings, rounds) && PadsFrom(paddings, 0, |s|) && |s| < WORD63
    requires AlignPlanFrom(paddings, 0, NeedAt(base), |s|) == Possible(e)
    ensures DirectivesHold(relocs, base, rounds + e)
  {
    hide AlignPlanFrom, NeedAt, MapPos, PadsFrom, Alignment, RunOffset, RunFits, RunSize;
    forall j | 0 <= j < |relocs| && IsAlign(relocs[j])
      ensures (base + MapPos(relocs[j].offset + relocs[j].addend, rounds + e)) % Alignment(relocs[j].addend) == 0
    {
      DirectiveHolds(paddings, base, s, j);
      MapPosAppend(relocs[j].offset + relocs[j].addend, rounds, e);
    }
  }

  lemma NopDataLength(nops: nat)
    ensures |NopData(nops)| <= nops + 1
  {
  }

  lemma PatchFollows(b: Snapshot, c: Snapshot, mult: multiset<HashEntry>, addr: nat, data: seq<byte>)
    requires addr + |data| <= |b.bytes| && c == b.(bytes := Splice(b.bytes, addr, data))
    ensures FollowsEdit(b, c, mult, Patch(addr, data))
  {
  }

  // ---------------------------------------------------------------- steps of the loops

  lemma FollowsMeans(a: Snapshot, b: Snapshot, mult: multiset<HashEntry>, edits: seq<Edit>)
    requires Follows(a, b, mult, edits)
    ensures RunFits(|a.bytes|, edits) && |b.bytes| == RunSize(|a.bytes|, edits)
    ensures |b.offsets| == |a.offsets|
    ensures forall i :: 0 <= i < |a.offsets| ==> b.offsets[i] == RunOffset(a.offsets[i], |a.bytes|, edits)
  {
  }

  predicate HasAlign(relocs: seq<Reloc>)
  {
    exists k :: 0 <= k < |relocs| && relocs[k].kind == ALIGN
  }

  ghost predicate AlignsDone(before: seq<Reloc>, now: seq<Reloc>, i: nat)
  {
    && |now| == |before|
    && forall k :: 0 <= k < |now| ==>
         now[k].addend == before[k].addend && now[k].kind
           == (if k < i && IsAlign(before[k]) then NONE else before[k].kind)
  }

  lemma AllDone(was: seq<Reloc>, now: seq<Reloc>)
    requires AlignsDone(was, now, |now|)
    ensures |now| == |was|
    ensures forall k :: 0 <= k < |now| ==> now[k].kind == if was[k].kind == ALIGN then NONE else was[k].kind
  {
  }

  /** In even code what is left of each padding, from its relocation to the code behind it, is
      filled: with NOPs if it shrank, with the assembler's bytes if not. */
  predicate PaddingsFilled(base: nat, before: seq<Reloc>, s: seq<byte>, now: seq<Reloc>, t: seq<byte>,
                           edits: seq<Edit>)
  {
    |s| < WORD63 && GrainPads(before, 0, base, 2) ==>
      |now| == |before| && forall j :: 0 <= j < |before| && before[j].kind == ALIGN ==>
        IsFilled(s, t, before[j], now[j].offset, MapPos(before[j].offset + before[j].addend, edits))
  }

  lemma AllFilled(base: nat, before: seq<Reloc>, shot: Snapshot, now: seq<Reloc>, shot': Snapshot,
                  mult: multiset<HashEntry>, edits: seq<Edit>)
    requires PadsFrom(before, 0, |shot.bytes|) && |shot.bytes| < WORD64
    requires AlignPlanFrom(before, 0, NeedAt(base), |shot.bytes|) == Possible(edits)
    requires Follows(shot, shot', mult, edits) && |before| == |now|
    requires |shot.offsets| == |before| && forall j :: 0 <= j < |before| ==> shot.offsets[j] == before[j].offset
    requires |shot'.offsets| == |now| && forall j :: 0 <= j < |now| ==> shot'.offsets[j] == now[j].offset
    ensures PaddingsFilled(base, before, shot.bytes, now, shot'.bytes, edits)
  {
    hide RunBytes, RunOffset, RunSym, MapPos, GrainPads, AlignPlanFrom, PadsFrom, NeedAt, IsFilled;
    if |shot.bytes| < WORD63 && GrainPads(before, 0, base, 2) {
      forall j | 0 <= j < |before| && before[j].kind == ALIGN
        ensures IsFilled(shot.bytes, shot'.bytes, before[j], now[j].offset,
                         MapPos(before[j].offset + before[j].addend, edits))
      {
        PaddingIsFilled(before, base, shot.bytes, j);
        assert now[j].offset == shot'.offsets[j] && before[j].offset == shot.offsets[j];
      }
    }
  }

  lemma NoneDone(was: seq<Reloc>)
    ensures AlignsDone(was, was, 0) && !HasAlign(was[..0])
  {
  }

  lemma HasAlignNext(was: seq<Reloc>, now: seq<Reloc>, i: nat)
    requires AlignsDone(was, now, i) && i < |was|
    ensures now[i].kind == was[i].kind
    ensures HasAlign(was[..i + 1]) <==> HasAlign(was[..i]) || was[i].kind == ALIGN
    ensures was[i].kind == ALIGN ==> HasAlign(was)
  {
    assert was[..i + 1] == was[..i] + [was[i]];
    if HasAlign(was[..i]) {
      var k :| 0 <= k < i && IsAlign(was[..i][k]);
      assert IsAlign(was[..i + 1][k]);
    }
    if was[i].kind == ALIGN {
      assert IsAlign(was[..i + 1][i]);
    }
  }

  lemma DoneHere(was: seq<Reloc>, before: seq<Reloc>, now: seq<Reloc>, i: nat)
    requires AlignsDone(was, before, i) && i < |before| == |now| && before[i].kind == ALIGN
    requires forall k :: 0 <= k < |before| ==>
               now[k].addend == before[k].addend && now[k].kind == (if k == i then NONE else before[k].kind)
    ensures AlignsDone(was, now, i + 1)
  {
  }

  lemma DoneSkip(was: seq<Reloc>, now: seq<Reloc>, i: nat)
    requires AlignsDone(was, now, i) && i < |now| && now[i].kind != ALIGN
    ensures AlignsDone(was, now, i + 1)
  {
  }

  function PlanAfter(e: seq<Edit>, p: Plan): Plan
  {
    match p
    case Impossible => Impossible
    case Possible(rest) => Possible(e + rest)
  }

  lemma PlanAfterNothing(p: Plan)
    ensures PlanAfter([], p) == p
  {
  }

  lemma PlanAfterFails(e: seq<Edit>)
    ensures PlanAfter(e, Impossible) == Impossible
  {
  }

  lemma PlanAfterEnds(e: seq<Edit>)
    ensures PlanAfter(e, Possible([])) == Possible(e)
  {
    assert e + [] == e;
  }

  lemma PlanAfterTwice(a: seq<Edit>, b: seq<Edit>, p: Plan)
    ensures PlanAfter(a, PlanAfter(b, p)) == PlanAfter(a + b, p)
  {
    if p.Possible? {
      assert a + (b + p.edits) == (a + b) + p.edits;
    }
  }

  lemma PadInside(relocs: seq<Reloc>, i: nat, n: nat)
    requires i < |relocs| && relocs[i].kind == ALIGN && PadsFrom(relocs, i, n)
    ensures relocs[i].offset + relocs[i].addend <= n
  {
    assert IsAlign(relocs[i]);
  }

  lemma PlanFails(relocs: seq<Reloc>, i: nat, need: Need, n: nat)
    requires i < |relocs| && relocs[i].kind == ALIGN && PadsFrom(relocs, i, n) && n < WORD64
    requires relocs[i].addend < need(relocs[i].offset, relocs[i].addend)
    ensures AlignPlanFrom(relocs, i, need, n) == Impossible
  {
  }

  lemma PlanSkips(relocs: seq<Reloc>, i: nat, need: Need, n: nat)
    requires i < |relocs| && relocs[i].kind != ALIGN && PadsFrom(relocs, i, n) && n < WORD64
    ensures PadsFrom(relocs, i + 1, n) && AlignPlanFrom(relocs, i, need, n) == AlignPlanFrom(relocs, i + 1, need, n)
  {
    PadsSkip(relocs, i, n);
  }

  lemma PlanEnds(relocs: seq<Reloc>, need: Need, n: nat)
    requires PadsFrom(relocs, |relocs|, n) && n < WORD64
    ensures AlignPlanFrom(relocs, |relocs|, need, n) == Possible([])
  {
  }

  // Relocations already dealt with have no influence on the rest of the plan.
  lemma {:induction false} PlanIgnoresEarlier(a: seq<Reloc>, b: seq<Reloc>, i: nat, need: Need, n: nat)
    requires |a| == |b| && i <= |a| && n < WORD64 && PadsFrom(a, i, n)
    requires forall k :: i <= k < |a| ==> a[k] == b[k]
    ensures PadsFrom(b, i, n) && AlignPlanFrom(a, i, need, n) == AlignPlanFrom(b, i, need, n)
    decreases |a| - i
  {
    assert PadsFrom(b, i, n);
    if i == |a| {
    } else {
      if !IsAlign(a[i]) {
        PadsSkip(a, i, n);
        PlanIgnoresEarlier(a, b, i + 1, need, n);
      } else {
        var r := a[i];
        var nops := need(r.offset, r.addend);
        if nops <= r.addend {
          PadsAfter(a, i, n, nops);
          PadsAfter(b, i, n, nops);
          var e := AlignEdits(r.offset, r.addend, nops);
          PlanIgnoresEarlier(MoveRelocs(a, n, e), MoveRelocs(b, n, e), i + 1, need, RunSize(n, e));
        }
      }
    }
  }

  lemma PlanAdvances(a: seq<Reloc>, b: seq<Reloc>, i: nat, need: Need, n: nat, n': nat, e: seq<Edit>)
    requires i < |a| == |b| && a[i].kind == ALIGN && PadsFrom(a, i, n) && n < WORD64
    requires need(a[i].offset, a[i].addend) <= a[i].addend
    requires e == AlignEdits(a[i].offset, a[i].addend, need(a[i].offset, a[i].addend))
    requires RunFits(n, e) && n' == RunSize(n, e)
    requires forall k :: i < k < |a| ==> b[k] == a[k].(offset := RunOffset(a[k].offset, n, e))
    ensures PadsFrom(b, i + 1, n')
    ensures AlignPlanFrom(a, i, need, n) == PlanAfter(e, AlignPlanFrom(b, i + 1, need, n'))
  {
    PadsAfter(a, i, n, need(a[i].offset, a[i].addend));
    PlanIgnoresEarlier(MoveRelocs(a, n, e), b, i + 1, need, n');
  }

  function Joined(e: seq<Edit>, r: Result): Result { r.(edits := e + r.edits) }

  lemma JoinedNothing(r: Result)
    ensures Joined([], r) == r
  {
    assert [] + r.edits == r.edits;
  }

  lemma JoinedTwice(a: seq<Edit>, b: seq<Edit>, r: Result)
    ensures Joined(a, Joined(b, r)) == Joined(a + b, r)
  {
    assert a + (b + r.edits) == (a + b) + r.edits;
  }

  lemma TurnUnfolds(relocs: seq<Reloc>, choices: seq<Choice>, i: nat, n: nat, again: bool)
    requires i < |relocs| && n < WORD64 && SlotsFrom(relocs, i, n) && AllowedFrom(relocs, choices, i)
    ensures var t := TurnAt(relocs, choices[i], i, n, again);
      && i < t.next <= |relocs| == |t.relocs| && RunFits(n, t.edits)
      && SlotsFrom(t.relocs, t.next, RunSize(n, t.edits)) && AllowedFrom(t.relocs, choices, t.next)
      && ShortenFrom(relocs, choices, i, n, again)
         == Joined(t.edits, ShortenFrom(t.relocs, choices, t.next, RunSize(n, t.edits), t.again))
  {
    hide TurnAt, RunFits, RunSize, SlotsFrom, AllowedFrom;
    TurnKeeps(relocs, choices, i, n, again);
  }

  lemma SlotInside(relocs: seq<Reloc>, i: nat, n: nat, c: Choice)
    requires i < |relocs| && Eligible(relocs[i].kind) && SlotsFrom(relocs, i, n)
    requires c.Shorten? && Allowed(relocs[i].kind, c)
    ensures relocs[i].offset + |c.data| <= n && relocs[i].offset + c.keep + c.drop <= n
  {
  }

  lemma ShortenEnds(relocs: seq<Reloc>, choices: seq<Choice>, n: nat, again: bool)
    requires n < WORD64 && SlotsFrom(relocs, |relocs|, n) && AllowedFrom(relocs, choices, |relocs|)
    ensures ShortenFrom(relocs, choices, |relocs|, n, again) == Result([], relocs, again)
  {
  }

  lemma NopDataParts(nops: nat)
    ensures Nops(0) == []
    ensures nops % 4 == 0 ==> NopData(nops) == Nops(nops / 4)
    ensures nops % 4 != 0 ==> NopData(nops) == Nops(nops / 4) + [0x01, 0x00]
  {
  }

  lemma NopsMore(k: nat)
    ensures Nops(k + 1) == Nops(k) + [0x13, 0, 0, 0]
  {
  }

  lemma AlignmentDoubles(addend: nat, alignment: nat)
    requires 0 < alignment <= addend
    ensures Alignment(addend / alignment) == 2 * Alignment(addend / (alignment * 2))
    ensures alignment * (2 * Alignment(addend / (alignment * 2)))
             == (alignment * 2) * Alignment(addend / (alignment * 2))
  {
    hide *;
    HalveQuotient(addend, alignment);
    AlignmentHalves(addend / alignment);
    Reassociate(alignment, Alignment(addend / (alignment * 2)));
  }

  lemma AlignmentHalves(q: nat)
    requires q > 0
    ensures Alignment(q) == 2 * Alignment(q / 2)
  {
  }

  lemma Reassociate(x: int, y: int)
    ensures x * (2 * y) == (x * 2) * y
  {
  }

  lemma HalveQuotient(x: nat, m: nat)
    requires 0 < m <= x
    ensures x / m > 0 && x / m / 2 == x / (m * 2)
  {
    hide *;
    var q, r := x / m, x % m;
    assert x == m * q + r;
    if q <= 0 {
      MulLe(m, q, 0);
    }
    var h, b := q / 2, q % 2;
    SplitProduct(m, q, h, b);
    ModUnique(x, m * 2, h, m * b + r);
  }

  lemma SplitProduct(m: int, q: int, h: int, b: int)
    requires q == 2 * h + b && 0 <= b < 2 && 0 <= m
    ensures m * q == (m * 2) * h + m * b && 0 <= m * b <= m
  {
  }

  lemma QuotientZero(x: nat, m: nat)
    requires x < m
    ensures x / m == 0
  {
    ModUnique(x, m, 0, x);
  }

  lemma AddBelow(x: nat, y: nat)
    ensures Add64(x, y) < WORD64
  {
  }

  lemma SubUndoesAdd(x: nat, a: nat)
    requires x < WORD64
    ensures Sub64(Add64(x, a), a) == x
  {
    var q := (x + a) / WORD64;
    ModUnique(Add64(x, a) as int - a, WORD64, -q, x);
  }

  lemma VisitedNever(h: HashEntry, s: Sym, addr: nat, count: nat, toaddr: nat)
    ensures EditGlobal(h, s, 0, toaddr, Delete(addr, count)) == s
  {
  }

  lemma VisitedAgain(h: HashEntry, s: Sym, m: nat, addr: nat, count: nat, toaddr: nat)
    ensures var before := EditGlobal(h, s, m, toaddr, Delete(addr, count));
            EditGlobal(h, s, m + 1, toaddr, Delete(addr, count))
              == if h.here then MoveSym(before, addr, count, toaddr) else before
  {
    hide MoveSym;
  }
}
