/** Symbols over a whole pass 1: which ones the alignment directives carry along, and which they
    spoil. */
module AlignSymbols {
  import opened Bits
  import opened Buffers
  import opened Relaxation
  import opened AlignPlan

  // The symbol neither starts in the padding or right behind it, nor ends inside it.
  predicate SymClear(s: Sym, r: Reloc)
  {
    && !(r.offset < s.value <= r.offset + r.addend)
    && !(r.offset < s.value + s.size < r.offset + r.addend)
  }

  /** Over a whole pass 1 both ends of a symbol go to their surviving positions, when it keeps
      clear of the paddings. */
  lemma SymbolFollowsPlan(relocs: seq<Reloc>, need: Need, s: seq<byte>, sym: Sym)
    requires PadsFrom(relocs, 0, |s|) && |s| < WORD64 && AlignPlanFrom(relocs, 0, need, |s|).Possible?
    requires sym.value + sym.size <= |s|
    requires forall j :: 0 <= j < |relocs| && IsAlign(relocs[j]) ==> SymClear(sym, relocs[j])
    ensures var edits := AlignPlanFrom(relocs, 0, need, |s|).edits;
      && RunFits(|s|, edits) && SymRunsWell(sym, edits)
      && var t := RunSym(sym, 1, |s|, edits);
      t.value == MapPos(sym.value, edits) && t.value + t.size == MapPos(sym.value + sym.size, edits)
  {
    hide *;
    PlanFits(relocs, 0, need, |s|);
    ClearRunsWell(relocs, 0, need, s, sym);
    SymFollowsRun(sym, |s|, AlignPlanFrom(relocs, 0, need, |s|).edits);
  }

  lemma {:induction false} ClearRunsWell(relocs: seq<Reloc>, i: nat, need: Need, s: seq<byte>, sym: Sym)
    requires i <= |relocs| && PadsFrom(relocs, i, |s|) && |s| < WORD64
    requires AlignPlanFrom(relocs, i, need, |s|).Possible?
    requires forall j :: i <= j < |relocs| && IsAlign(relocs[j]) ==> SymClear(sym, relocs[j])
    ensures SymRunsWell(sym, AlignPlanFrom(relocs, i, need, |s|).edits)
    decreases |relocs| - i
  {
    if i == |relocs| {
    } else if !IsAlign(relocs[i]) {
      ClearRunsWell(relocs, i + 1, need, s, sym);
    } else {
      ClearStep(relocs, i, need, s, sym);
    }
  }

  lemma {:induction false} ClearStep(relocs: seq<Reloc>, i: nat, need: Need, s: seq<byte>, sym: Sym)
    requires i < |relocs| && IsAlign(relocs[i]) && PadsFrom(relocs, i, |s|) && |s| < WORD64
    requires AlignPlanFrom(relocs, i, need, |s|).Possible?
    requires forall j :: i <= j < |relocs| && IsAlign(relocs[j]) ==> SymClear(sym, relocs[j])
    ensures SymRunsWell(sym, AlignPlanFrom(relocs, i, need, |s|).edits)
    decreases |relocs| - i, 0
  {
    hide AlignPlanFrom, AlignEdits, PadsFrom, StepBytes, StepRuns, RunFits, SymRunsWell, SymMovesWell;
    var r, nops := relocs[i], need(relocs[i].offset, relocs[i].addend);
    var relocs', s', rest := PlanStep(relocs, i, need, s);
    var sym' := SymAfter(sym, r.offset + nops, r.addend - nops);
    forall j | i < j < |relocs| && IsAlign(relocs'[j]) ensures SymClear(sym', relocs'[j]) {
      assert IsAlign(relocs[j]) && SymClear(sym, relocs[j]) && SymClear(sym, r);
    }
    ClearRunsWell(relocs', i + 1, need, s', sym');
    ClearFirst(r, nops, sym, rest);
  }

  // The symbol between the surviving positions of its ends.
  function SymAfter(s: Sym, addr: nat, count: nat): Sym
  {
    var v, e := NewPos(s.value, addr, count), NewPos(s.value + s.size, addr, count);
    Sym(v, e - v)
  }

  lemma ClearFirst(r: Reloc, nops: nat, sym: Sym, rest: seq<Edit>)
    requires nops <= r.addend && SymClear(sym, r)
    requires SymRunsWell(SymAfter(sym, r.offset + nops, r.addend - nops), rest)
    ensures SymRunsWell(sym, AlignEdits(r.offset, r.addend, nops) + rest)
  {
    hide NopData;
    if nops == r.addend {
      assert [] + rest == rest;
      assert SymAfter(sym, r.offset + nops, 0) == sym;
    } else {
      var p, d := Patch(r.offset, NopData(nops)), Delete(r.offset + nops, r.addend - nops);
      assert [p, d] + rest == [p] + ([d] + rest);
      assert ([p] + ([d] + rest))[1..] == [d] + rest && ([d] + rest)[1..] == rest;
    }
  }

  /** What is left is an everyday case: a function directly behind a padding that shrinks, with
      the later directives behind its end.  None of its bytes goes, but after pass 1 its size is
      short by the bytes the padding lost. */
  lemma FunctionLosesBytes(relocs: seq<Reloc>, need: Need, s: seq<byte>, j: nat, size: nat)
    requires j < |relocs| && IsAlign(relocs[j]) && PadsFrom(relocs, 0, |s|) && |s| < WORD63
    requires AlignPlanFrom(relocs, 0, need, |s|).Possible?
    requires size > 0 && relocs[j].offset + relocs[j].addend + size <= |s|
    requires forall k :: j < k < |relocs| && IsAlign(relocs[k]) ==>
               relocs[j].offset + relocs[j].addend + size <= relocs[k].offset
    ensures var edits, end := AlignPlanFrom(relocs, 0, need, |s|).edits, relocs[j].offset + relocs[j].addend;
      && RunFits(|s|, edits)
      && var kept: int := MapPos(end, edits) - RunOffset(relocs[j].offset, |s|, edits);
      && 0 <= kept <= relocs[j].addend && MapPos(end + size, edits) == MapPos(end, edits) + size
      && (kept < relocs[j].addend ==>
            RunSym(Sym(end, size), 1, |s|, edits) == Sym(MapPos(end, edits), Sub64(size, relocs[j].addend - kept)))
  {
    Below63(|s|);
    LosesBytes(relocs, 0, need, s, j, size);
  }

  // What FunctionLosesBytes says, for a plan that may have begun before.
  predicate Loses(s: seq<byte>, edits: seq<Edit>, r: Reloc, size: nat)
  {
    && RunFits(|s|, edits)
    && var end := r.offset + r.addend;
    && var kept: int := MapPos(end, edits) - RunOffset(r.offset, |s|, edits);
    && 0 <= kept <= r.addend && MapPos(end + size, edits) == MapPos(end, edits) + size
    && (kept < r.addend ==>
          RunSym(Sym(end, size), 1, |s|, edits) == Sym(MapPos(end, edits), Sub64(size, r.addend - kept)))
  }

  lemma {:induction false} LosesBytes(relocs: seq<Reloc>, i: nat, need: Need, s: seq<byte>, j: nat, size: nat)
    requires i <= j < |relocs| && IsAlign(relocs[j]) && PadsFrom(relocs, i, |s|) && |s| < WORD63
    requires AlignPlanFrom(relocs, i, need, |s|).Possible?
    requires size > 0 && relocs[j].offset + relocs[j].addend + size <= |s|
    requires forall k :: j < k < |relocs| && IsAlign(relocs[k]) ==>
               relocs[j].offset + relocs[j].addend + size <= relocs[k].offset
    ensures Loses(s, AlignPlanFrom(relocs, i, need, |s|).edits, relocs[j], size)
    decreases |relocs| - i
  {
    hide Loses;
    if !IsAlign(relocs[i]) {
      LosesBytes(relocs, i + 1, need, s, j, size);
    } else {
      LosesFrom(relocs, i, need, s, j, size);
    }
  }

  lemma {:induction false} LosesFrom(relocs: seq<Reloc>, i: nat, need: Need, s: seq<byte>, j: nat, size: nat)
    requires i <= j < |relocs| && IsAlign(relocs[i]) && IsAlign(relocs[j]) && PadsFrom(relocs, i, |s|)
    requires |s| < WORD63 && AlignPlanFrom(relocs, i, need, |s|).Possible?
    requires size > 0 && relocs[j].offset + relocs[j].addend + size <= |s|
    requires forall k :: j < k < |relocs| && IsAlign(relocs[k]) ==>
               relocs[j].offset + relocs[j].addend + size <= relocs[k].offset
    ensures Loses(s, AlignPlanFrom(relocs, i, need, |s|).edits, relocs[j], size)
    decreases |relocs| - i, 0
  {
    hide AlignPlanFrom, AlignEdits, PadsFrom, StepBytes, StepRuns, RunFits, Loses, SettledAt, Quiet, Sub64;
    hide RunBytes, RunOffset, RunSize, RunSym, MapPos;
    var r, nops := relocs[i], need(relocs[i].offset, relocs[i].addend);
    var relocs', s', rest := PlanStep(relocs, i, need, s);
    if i == j {
      var x := r.offset + nops + size;
      Settled(relocs', i + 1, need, s', x);
      RestIsQuiet(r, nops, size, |s'|);
      SettledSym(relocs', i + 1, need, s', x, Sym(r.offset + nops, Sub64(size, r.addend - nops)));
      LosesHere(s, s', r, nops, rest, size);
    } else {
      LosesBytes(relocs', i + 1, need, s', j, size);
      LosesLater(s, s', r, nops, rest, relocs[j], relocs'[j], size);
    }
  }

  // What the deletion of the padding leaves of a function behind it.
  lemma RestIsQuiet(r: Reloc, nops: nat, size: nat, n: nat)
    requires nops <= r.addend && r.offset + nops + size <= n < WORD63
    requires r.offset + r.addend < WORD63
    ensures Quiet(Sym(r.offset + nops, Sub64(size, r.addend - nops)), r.offset + nops + size, n)
  {
  }

  lemma AlignEditsSym(offset: nat, addend: nat, nops: nat, n: nat, sym: Sym)
    requires nops <= addend && offset + addend <= n
    ensures RunFits(n, AlignEdits(offset, addend, nops))
    ensures RunSym(sym, 1, n, AlignEdits(offset, addend, nops))
         == if nops == addend then sym else MoveSym(sym, offset + nops, addend - nops, n)
  {
    hide NopData, MoveSym, EditSym;
    AlignEditsSize(offset, addend, nops, n);
    if nops < addend {
      var p, d := Patch(offset, NopData(nops)), Delete(offset + nops, addend - nops);
      assert AlignEdits(offset, addend, nops) == [p, d] && [p, d][1..] == [d];
      OneEditSym(sym, 1, n, d);
      PatchThenCut(sym, n, p, d);
    }
  }

  lemma PatchThenCut(sym: Sym, n: nat, p: Edit, d: Edit)
    requires p.Patch? && d.Delete? && RunFits(n, [p, d]) && RunFits(n, [d])
    ensures RunSym(sym, 1, n, [p, d]) == RunSym(sym, 1, n, [d]) == MoveSym(sym, d.addr, d.count, n)
  {
    hide MoveSym;
    assert [p, d][1..] == [d] && [d][1..] == [];
    assert RunSym(sym, 1, n, [p, d]) == RunSym(EditSym(sym, 1, n, p), 1, n, [d]);
    MovedOnce(sym, d.addr, d.count, n);
  }

  // A symbol that starts before x, and whose end the code sees before x or outside the section.
  predicate Quiet(sym: Sym, x: nat, n: nat)
  {
    sym.value <= x && (Add64(sym.value, sym.size) <= x || Add64(sym.value, sym.size) > n)
  }

  /** Later alignments do not touch it. */
  lemma {:induction false} SettledSym(relocs: seq<Reloc>, i: nat, need: Need, s: seq<byte>, x: nat, sym: Sym)
    requires i <= |relocs| && PadsFrom(relocs, i, |s|) && |s| < WORD64 && Quiet(sym, x, |s|)
    requires AlignPlanFrom(relocs, i, need, |s|).Possible?
    requires forall j :: i <= j < |relocs| && IsAlign(relocs[j]) ==> x <= relocs[j].offset
    ensures var edits := AlignPlanFrom(relocs, i, need, |s|).edits;
      RunFits(|s|, edits) && RunSym(sym, 1, |s|, edits) == sym
    decreases |relocs| - i
  {
    hide StepBytes, StepRuns, AlignEdits, MoveRelocs;
    if i == |relocs| {
    } else if !IsAlign(relocs[i]) {
      SettledSym(relocs, i + 1, need, s, x, sym);
    } else {
      SettledSymStep(relocs, i, need, s, x, sym);
    }
  }

  lemma {:induction false} SettledSymStep(relocs: seq<Reloc>, i: nat, need: Need, s: seq<byte>, x: nat, sym: Sym)
    requires i < |relocs| && IsAlign(relocs[i]) && PadsFrom(relocs, i, |s|) && |s| < WORD64 && Quiet(sym, x, |s|)
    requires AlignPlanFrom(relocs, i, need, |s|).Possible?
    requires forall j :: i <= j < |relocs| && IsAlign(relocs[j]) ==> x <= relocs[j].offset
    ensures var edits := AlignPlanFrom(relocs, i, need, |s|).edits;
      RunFits(|s|, edits) && RunSym(sym, 1, |s|, edits) == sym
    decreases |relocs| - i, 0
  {
    hide AlignPlanFrom, StepBytes, StepRuns, AlignEdits, RunFits, RunBytes, RunSize, RunSym, Add64, Sub64;
    var relocs', s', rest := PlanStep(relocs, i, need, s);
    SettledSym(relocs', i + 1, need, s', x, sym);
    var r, nops := relocs[i], need(relocs[i].offset, relocs[i].addend);
    AlignEditsSym(r.offset, r.addend, nops, |s|, sym);
    AlignEditsSize(r.offset, r.addend, nops, |s|);
    RunFitsAppend(|s|, AlignEdits(r.offset, r.addend, nops), rest);
    RunSymAppend(sym, 1, |s|, AlignEdits(r.offset, r.addend, nops), rest);
  }

  lemma LosesHere(s: seq<byte>, s': seq<byte>, r: Reloc, nops: nat, rest: seq<Edit>, size: nat)
    requires nops <= r.addend && r.offset + r.addend + size <= |s| < WORD63 && size > 0
    requires StepBytes(s, s', r.offset, r.addend, nops) && StepRuns(s, s', r.offset, r.addend, nops, rest)
    requires |s'| == |s| - (r.addend - nops)
    requires SettledAt(s', r.offset + nops + size, rest)
    requires RunFits(|s'|, rest)
    requires RunSym(Sym(r.offset + nops, Sub64(size, r.addend - nops)), 1, |s'|, rest)
          == Sym(r.offset + nops, Sub64(size, r.addend - nops))
    ensures Loses(s, AlignEdits(r.offset, r.addend, nops) + rest, r, size)
  {
    hide RunBytes, RunFits, RunSize, RunSym, RunOffset, MapPos, AlignEdits, StepBytes, StepRuns, SettledAt;
    hide MoveSym, Sub64, Add64, NewPos;
    var e, end, x := AlignEdits(r.offset, r.addend, nops), r.offset + r.addend, r.offset + nops + size;
    StepMeans(s, s', r.offset, r.addend, nops, rest);
    SettledMeans(s', x, r.offset, rest);
    SettledPlaces(s', x, r.offset + nops, rest);
    AlignEditsSize(r.offset, r.addend, nops, |s|);
    OffsetBefore(r.offset, r.addend, nops, |s|, r.offset, rest);
    PlaceBehind(r.offset, r.addend, nops, |s|, end, rest);
    PlaceBehind(r.offset, r.addend, nops, |s|, end + size, rest);
    if nops < r.addend {
      AlignEditsSym(r.offset, r.addend, nops, |s|, Sym(end, size));
      RunSymAppend(Sym(end, size), 1, |s|, e, rest);
      BehindTheCut(r.offset + nops, r.addend - nops, size, |s|);
    }
  }

  lemma BehindTheCut(addr: nat, count: nat, size: nat, toaddr: nat)
    requires 0 < count && 0 < size && addr + count + size <= toaddr < WORD64
    ensures MoveSym(Sym(addr + count, size), addr, count, toaddr) == Sym(addr, Sub64(size, count))
  {
    assert Sub64(addr + count, count) == addr;
    assert Add64(addr, size) == addr + size;
  }

  lemma SettledPlaces(s: seq<byte>, x: nat, y: nat, edits: seq<Edit>)
    requires SettledAt(s, x, edits) && y <= x
    ensures MapPos(x, edits) == x && MapPos(y, edits) == y
  {
    DistanceShrinks(y, x, edits);
    MapPosBelow(y, edits);
  }

  lemma {:induction false} MapPosBelow(x: nat, edits: seq<Edit>)
    ensures MapPos(x, edits) <= x
    decreases |edits|
  {
    if |edits| == 0 {
    } else {
      MapPosBelow(if edits[0].Delete? then NewPos(x, edits[0].addr, edits[0].count) else x, edits[1..]);
    }
  }

  lemma LosesLater(s: seq<byte>, s': seq<byte>, r: Reloc, nops: nat, rest: seq<Edit>, later: Reloc, later': Reloc,
                   size: nat)
    requires nops <= r.addend && r.offset + r.addend <= |s| < WORD63
    requires StepBytes(s, s', r.offset, r.addend, nops) && StepRuns(s, s', r.offset, r.addend, nops, rest)
    requires r.offset + r.addend <= later.offset < |s| && later.offset + later.addend + size <= |s|
    requires |s'| == |s| - (r.addend - nops) && later' == later.(offset := later.offset - (|s| - |s'|))
    requires Loses(s', rest, later', size) && size > 0
    ensures Loses(s, AlignEdits(r.offset, r.addend, nops) + rest, later, size)
  {
    hide RunBytes, RunFits, RunSize, RunSym, RunOffset, MapPos, AlignEdits, StepBytes, StepRuns;
    hide MoveSym, Sub64, Add64, NewPos;
    var e, end := AlignEdits(r.offset, r.addend, nops), later.offset + later.addend;
    StepMeans(s, s', r.offset, r.addend, nops, rest);
    AlignEditsSize(r.offset, r.addend, nops, |s|);
    OffsetBehind(r.offset, r.addend, nops, |s|, later.offset, rest);
    PlaceBehind(r.offset, r.addend, nops, |s|, end, rest);
    PlaceBehind(r.offset, r.addend, nops, |s|, end + size, rest);
    if later.addend > 0 {
      AlignEditsSym(r.offset, r.addend, nops, |s|, Sym(end, size));
      RunSymAppend(Sym(end, size), 1, |s|, e, rest);
      WellBehind(Sym(end, size), r.offset + nops, r.addend - nops, |s|);
    }
  }

  lemma WellBehind(sym: Sym, addr: nat, count: nat, toaddr: nat)
    requires addr + count < sym.value && sym.value + sym.size <= toaddr < WORD64
    ensures MoveSym(sym, addr, count, toaddr) == Sym(sym.value - count, sym.size)
  {
    assert Sub64(sym.value, count) == sym.value - count;
  }

  lemma OneDirective(r: Reloc, need: Need, n: nat)
    requires IsAlign(r) && PadsFrom([r], 0, n) && n < WORD64 && need(r.offset, r.addend) <= r.addend
    ensures AlignPlanFrom([r], 0, need, n) == Possible(AlignEdits(r.offset, r.addend, need(r.offset, r.addend)))
  {
    hide AlignEdits, RunFits, RunSize, RunOffset;
    PadsAfter([r], 0, n, need(r.offset, r.addend));
    var e := AlignEdits(r.offset, r.addend, need(r.offset, r.addend));
    assert e + [] == e;
  }

  lemma SixBytesGo()
    ensures NeedAt(0)(0, 6) == 0
  {
    hide NeedAt;
    NeedNearest(0, 0, 6);
    assert PadTo(0, 6) == 0;
  }

  /** The witness: six bytes of padding at an aligned address all go, and the eight-byte function
      behind them comes out with a size of two. */
  lemma AlignedFunctionShrinks(n: nat)
    requires n == 14
    ensures var relocs := [Reloc(0, 6, ALIGN)];
      && PadsFrom(relocs, 0, n) && AlignPlanFrom(relocs, 0, NeedAt(0), n).Possible?
      && var edits := AlignPlanFrom(relocs, 0, NeedAt(0), n).edits;
      RunFits(n, edits) && RunSym(Sym(6, 8), 1, n, edits) == Sym(0, 2)
  {
    hide RunFits, RunSym, NeedAt, AlignEdits, MoveSym, AlignPlanFrom;
    SixBytesGo();
    OneDirective(Reloc(0, 6, ALIGN), NeedAt(0), n);
    AlignEditsSym(0, 6, 0, n, Sym(6, 8));
    BehindTheCut(0, 6, 8, n);
  }
}
