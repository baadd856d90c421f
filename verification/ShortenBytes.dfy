/** What pass 0 writes: the new instructions, and nothing outside the code of its relocations. */
module ShortenBytes {
  import opened Bits
  import opened Buffers
  import opened Relaxation
  import opened AlignPlan
  import opened ShortenPlan

  // The byte at x is not in code covered by the relocations still to come.
  predicate Free(x: nat, relocs: seq<Reloc>, i: nat)
  {
    forall j :: i <= j < |relocs| && Eligible(relocs[j].kind) ==>
      x < relocs[j].offset || relocs[j].offset + CodeLength(relocs[j].kind) <= x
  }

  lemma TurnLeavesFree(relocs: seq<Reloc>, choices: seq<Choice>, i: nat, n: nat, again: bool, x: nat)
    requires i < |relocs| && n < WORD64 && SlotsFrom(relocs, i, n) && AllowedFrom(relocs, choices, i)
    requires Free(x, relocs, i) && x < n
    ensures var t := TurnAt(relocs, choices[i], i, n, again);
      && RunFits(n, t.edits) && MapPos(x, t.edits) < RunSize(n, t.edits)
      && Survives(x, t.edits) && !Touched(x, t.edits) && Free(MapPos(x, t.edits), t.relocs, t.next)
  {
    hide RunOffset, RunSize, RunFits, MapPos, Survives, Touched;
    TurnKeeps(relocs, choices, i, n, again);
    var c, r := choices[i], relocs[i];
    if Paired(relocs, i) && c.Shorten? {
      ShortenFits(relocs, i, n, c);
      ShortenMaps(r.offset, c, x);
      ShortenSpares(r.offset, c, x);
      SurvivorInRange(x, n, ShortenEdits(r.offset, c.data, c.keep, c.drop));
      FreeAfter(relocs, i, n, c, x);
    } else {
      NothingMoves();
      NothingTouched(x);
      NoEditsNoChange(n);
      assert TurnAt(relocs, c, i, n, again).edits == [];
      FreeStill(relocs, TurnAt(relocs, c, i, n, again).relocs, i, TurnAt(relocs, c, i, n, again).next, x);
    }
  }

  lemma FreeStill(relocs: seq<Reloc>, relocs': seq<Reloc>, i: nat, next: nat, x: nat)
    requires i < |relocs| == |relocs'| && i < next && Free(x, relocs, i)
    requires forall j :: 0 <= j < |relocs| && j != i ==> relocs'[j] == relocs[j]
    ensures Free(x, relocs', next)
  {
  }

  lemma NothingTouched(x: nat)
    ensures Survives(x, []) && !Touched(x, [])
  {
  }

  // A shortening spares every byte outside its code.
  lemma ShortenSpares(offset: nat, c: Choice, x: nat)
    requires c.Shorten? && |c.data| <= c.keep + c.drop && (x < offset || offset + c.keep + c.drop <= x)
    ensures var e := ShortenEdits(offset, c.data, c.keep, c.drop); Survives(x, e) && !Touched(x, e)
  {
    var e := ShortenEdits(offset, c.data, c.keep, c.drop);
    assert e[1..] == [e[1]] && [e[1]][1..] == [];
    NothingTouched(NewPos(x, offset + c.keep, c.drop));
    assert Survives(x, [e[1]]) == Survives(NewPos(x, offset + c.keep, c.drop), []);
    assert Touched(x, [e[1]]) == Touched(NewPos(x, offset + c.keep, c.drop), []);
  }

  lemma FreeAfter(relocs: seq<Reloc>, i: nat, n: nat, c: Choice, x: nat)
    requires i < |relocs| && Eligible(relocs[i].kind) && SlotsFrom(relocs, i, n) && n < WORD64
    requires c.Shorten? && Allowed(relocs[i].kind, c) && Free(x, relocs, i)
    requires RunFits(n, ShortenEdits(relocs[i].offset, c.data, c.keep, c.drop))
    ensures Free(NewPos(x, relocs[i].offset + c.keep, c.drop), ShortenRelocs(relocs, i, n, c), i + 2)
  {
    hide RunOffset, RunSize, RunFits;
    ShortenFits(relocs, i, n, c);
    var r, relocs' := relocs[i], ShortenRelocs(relocs, i, n, c);
    var x' := NewPos(x, r.offset + c.keep, c.drop);
    forall j | i + 2 <= j < |relocs| && Eligible(relocs[j].kind)
      ensures x' < relocs'[j].offset || relocs'[j].offset + CodeLength(relocs[j].kind) <= x'
    {
      assert Apart(relocs[i], relocs[j]);
      assert relocs'[j].offset == MoveOffset(relocs[j].offset, r.offset + c.keep, c.drop, n);
    }
  }

  /** Pass 0 leaves every byte alone that is outside the code its relocations cover. */
  lemma {:induction false} FreeSurvives(relocs: seq<Reloc>, choices: seq<Choice>, i: nat, n: nat, again: bool, x: nat)
    requires i <= |relocs| && n < WORD64 && SlotsFrom(relocs, i, n) && AllowedFrom(relocs, choices, i)
    requires Free(x, relocs, i) && x < n
    ensures var edits := ShortenFrom(relocs, choices, i, n, again).edits; Survives(x, edits) && !Touched(x, edits)
    decreases |relocs| - i
  {
    hide TurnAt, RunFits, RunSize, SlotsFrom, EvenRun, EvenFrom, Free, Survives, Touched, MapPos;
    if i == |relocs| {
      NothingTouched(x);
    } else {
      TurnKeeps(relocs, choices, i, n, again);
      TurnLeavesFree(relocs, choices, i, n, again, x);
      var t := TurnAt(relocs, choices[i], i, n, again);
      var size := RunSize(n, t.edits);
      var x' := MapPos(x, t.edits);
      FreeSurvives(t.relocs, choices, t.next, size, t.again, x');
      SparedTwice(x, t.edits, ShortenFrom(t.relocs, choices, t.next, size, t.again).edits);
    }
  }

  lemma {:induction false} SparedTwice(x: nat, a: seq<Edit>, b: seq<Edit>)
    requires Survives(x, a) && !Touched(x, a) && Survives(MapPos(x, a), b) && !Touched(MapPos(x, a), b)
    ensures Survives(x, a + b) && !Touched(x, a + b)
    decreases |a|
  {
    if |a| == 0 {
      assert a + b == b;
    } else {
      assert (a + b)[1..] == a[1..] + b;
      SparedTwice(if a[0].Delete? then NewPos(x, a[0].addr, a[0].count) else x, a[1..], b);
    }
  }

  // A relaxable relocation with its R_RISCV_RELAX right behind it, at the same offset.
  predicate Coupled(relocs: seq<Reloc>, j: nat)
  {
    && j + 1 < |relocs| && relocs[j].kind in RELAXABLE
    && relocs[j + 1].kind == RELAX && relocs[j + 1].offset == relocs[j].offset
  }

  // Relocation j after the pass, and the code it covers.
  predicate RewrittenAt(relocs: seq<Reloc>, choices: seq<Choice>, j: nat, relocs': seq<Reloc>, bytes: seq<byte>,
                        edits: seq<Edit>)
    requires j < |relocs| == |choices| == |relocs'|
  {
    && (!(relocs[j].kind in RELAXABLE && j + 1 < |relocs| && relocs[j + 1].kind == RELAX) ==>
          relocs'[j].kind == relocs[j].kind)
    && (Coupled(relocs, j) ==>
          match choices[j]
          case Shorten(newKind, data, keep, _) =>
            var at := MapPos(relocs[j].offset, edits);
            && relocs'[j].kind == newKind && keep <= |data|
            && at + keep <= |bytes| && bytes[at..at + keep] == data[..keep]
            && (keep > 0 ==> relocs'[j].offset == at)
          case Retag(newKind) => relocs'[j].kind == newKind
          case _ => relocs'[j].kind == relocs[j].kind)
  }

  /** What a pass 0 leaves of the relocations and their code: a relaxed one is retagged and its new
      instruction is where its old one went; the others keep their type. */
  predicate Rewritten(relocs: seq<Reloc>, choices: seq<Choice>, i: nat, relocs': seq<Reloc>, bytes: seq<byte>,
                      edits: seq<Edit>)
  {
    && |relocs| == |choices| == |relocs'|
    && (forall j :: 0 <= j < i && j < |relocs| ==> relocs'[j].kind == relocs[j].kind)
    && (forall j :: i <= j < |relocs| ==> RewrittenAt(relocs, choices, j, relocs', bytes, edits))
  }

  lemma {:induction false} PassRewrites(relocs: seq<Reloc>, choices: seq<Choice>, i: nat, s: seq<byte>, again: bool)
    requires i <= |relocs| && |s| < WORD64 && SlotsFrom(relocs, i, |s|) && AllowedFrom(relocs, choices, i)
    ensures var r := ShortenFrom(relocs, choices, i, |s|, again);
      RunFits(|s|, r.edits) && Rewritten(relocs, choices, i, r.relocs, RunBytes(s, r.edits), r.edits)
    decreases |relocs| - i
  {
    hide TurnAt, RunFits, RunSize, RunBytes, SlotsFrom, EvenRun, EvenFrom, RewrittenAt;
    if i == |relocs| {
      NoEditsNoChange(|s|);
    } else {
      TurnKeeps(relocs, choices, i, |s|, again);
      var t := TurnAt(relocs, choices[i], i, |s|, again);
      var s' := RunBytes(s, t.edits);
      PassRewrites(t.relocs, choices, t.next, s', t.again);
      var rest := ShortenFrom(t.relocs, choices, t.next, |s'|, t.again);
      RunFitsAppend(|s|, t.edits, rest.edits);
      RunAppend(s, t.edits, rest.edits);
      var bytes := RunBytes(s', rest.edits);
      TurnKinds(relocs, choices, i, |s|, again);
      forall j | i <= j < |relocs| ensures RewrittenAt(relocs, choices, j, rest.relocs, bytes, t.edits + rest.edits) {
        if j >= t.next {
          LaterRewritten(relocs, choices, i, s, again, j, rest.relocs, bytes, rest.edits);
        } else if j == i {
          HereRewritten(relocs, choices, i, s, again, rest.relocs, rest.edits);
        } else {
          SkippedRewritten(relocs, choices, i, s, again, rest.relocs, bytes, t.edits + rest.edits);
        }
      }
    }
  }

  // A turn changes at most the type of its own relocation.
  lemma TurnKinds(relocs: seq<Reloc>, choices: seq<Choice>, i: nat, n: nat, again: bool)
    requires i < |relocs| && n < WORD64 && SlotsFrom(relocs, i, n) && AllowedFrom(relocs, choices, i)
    ensures var t := TurnAt(relocs, choices[i], i, n, again);
      && |t.relocs| == |relocs| && i < t.next <= i + 2
      && (t.next == i + 2 ==> i + 1 < |relocs| && relocs[i + 1].kind == RELAX)
      && forall j :: 0 <= j < |relocs| && j != i ==> t.relocs[j].kind == relocs[j].kind
  {
    hide RunOffset, RunSize, RunFits, SlotsFrom;
  }

  lemma SkippedRewritten(relocs: seq<Reloc>, choices: seq<Choice>, i: nat, s: seq<byte>, again: bool,
                         relocs': seq<Reloc>, bytes: seq<byte>, edits: seq<Edit>)
    requires i < |relocs| == |choices| == |relocs'| && |s| < WORD64 && SlotsFrom(relocs, i, |s|)
    requires AllowedFrom(relocs, choices, i) && TurnAt(relocs, choices[i], i, |s|, again).next == i + 2
    requires i + 1 < |relocs| && relocs'[i + 1].kind == relocs[i + 1].kind
    ensures RewrittenAt(relocs, choices, i + 1, relocs', bytes, edits)
  {
    hide RunOffset, RunSize, RunFits, SlotsFrom, MapPos;
    TurnKinds(relocs, choices, i, |s|, again);
  }

  lemma TurnOffsets(relocs: seq<Reloc>, choices: seq<Choice>, i: nat, n: nat, again: bool)
    requires i < |relocs| && n < WORD64 && SlotsFrom(relocs, i, n) && AllowedFrom(relocs, choices, i)
    ensures var t := TurnAt(relocs, choices[i], i, n, again);
      && |t.relocs| == |relocs| && RunFits(n, t.edits)
      && forall j :: 0 <= j < |relocs| ==> t.relocs[j].offset == RunOffset(relocs[j].offset, n, t.edits)
  {
    hide RunSize, SlotsFrom, RunFits;
    TurnKeeps(relocs, choices, i, n, again);
  }

  // The relocations after the pass are where its edits put them.
  lemma {:induction false} PassOffsets(relocs: seq<Reloc>, choices: seq<Choice>, i: nat, n: nat, again: bool, j: nat)
    requires i <= |relocs| && n < WORD64 && SlotsFrom(relocs, i, n) && AllowedFrom(relocs, choices, i)
    requires j < |relocs|
    ensures var r := ShortenFrom(relocs, choices, i, n, again);
      RunFits(n, r.edits) && r.relocs[j].offset == RunOffset(relocs[j].offset, n, r.edits)
    decreases |relocs| - i
  {
    hide TurnAt, RunFits, RunSize, SlotsFrom, EvenRun, EvenFrom, RunOffset;
    if i == |relocs| {
      NoEditsNoChange(n);
      NoOffsetChange(relocs[j].offset, n);
    } else {
      TurnKeeps(relocs, choices, i, n, again);
      TurnOffsets(relocs, choices, i, n, again);
      var t := TurnAt(relocs, choices[i], i, n, again);
      var size := RunSize(n, t.edits);
      PassOffsets(t.relocs, choices, t.next, size, t.again, j);
      RunOffsetAppend(relocs[j].offset, n, t.edits, ShortenFrom(t.relocs, choices, t.next, size, t.again).edits);
    }
  }

  lemma NoOffsetChange(x: nat, n: nat)
    ensures RunFits(n, []) && RunOffset(x, n, []) == x
  {
  }

  lemma CoupledIs(relocs: seq<Reloc>, i: nat)
    requires i < |relocs|
    ensures Coupled(relocs, i) <==> Paired(relocs, i)
  {
    RelaxableKinds(relocs[i].kind);
  }

  lemma LaterRewritten(relocs: seq<Reloc>, choices: seq<Choice>, i: nat, s: seq<byte>, again: bool, j: nat,
                       relocs': seq<Reloc>, bytes: seq<byte>, rest: seq<Edit>)
    requires i < |relocs| == |relocs'| && |s| < WORD64 && SlotsFrom(relocs, i, |s|) && AllowedFrom(relocs, choices, i)
    requires var t := TurnAt(relocs, choices[i], i, |s|, again);
      |t.relocs| == |relocs| && t.next <= j < |relocs| && RewrittenAt(t.relocs, choices, j, relocs', bytes, rest)
    ensures RewrittenAt(relocs, choices, j, relocs', bytes, TurnAt(relocs, choices[i], i, |s|, again).edits + rest)
  {
    hide TurnAt, RunFits, RunSize, SlotsFrom, EvenRun, EvenFrom, RunOffset, MapPos;
    TurnKinds(relocs, choices, i, |s|, again);
    TurnOffsets(relocs, choices, i, |s|, again);
    var t := TurnAt(relocs, choices[i], i, |s|, again);
    if Coupled(relocs, j) {
      assert Coupled(t.relocs, j);
      LaterStart(relocs, choices, i, |s|, again, j);
      MapPosAppend(relocs[j].offset, t.edits, rest);
    }
  }

  // The code of a later relocation starts where its relocation points.
  lemma LaterStart(relocs: seq<Reloc>, choices: seq<Choice>, i: nat, n: nat, again: bool, j: nat)
    requires i < j < |relocs| && n < WORD64 && SlotsFrom(relocs, i, n) && AllowedFrom(relocs, choices, i)
    requires Coupled(relocs, j)
    ensures var t := TurnAt(relocs, choices[i], i, n, again);
      |t.relocs| == |relocs| && t.relocs[j].offset == MapPos(relocs[j].offset, t.edits)
  {
    hide RunFits, RunSize, RunOffset, MapPos, ShortenRelocs, ShortenEdits;
    CoupledIs(relocs, j);
    TurnOffsets(relocs, choices, i, n, again);
    var c, r := choices[i], relocs[i];
    if Paired(relocs, i) && c.Shorten? {
      ShortenFits(relocs, i, n, c);
      ShortenMaps(r.offset, c, relocs[j].offset);
      assert Apart(relocs[i], relocs[j]);
    } else {
      NothingMoves();
      NoOffsetChange(relocs[j].offset, n);
    }
  }

  lemma HereRewritten(relocs: seq<Reloc>, choices: seq<Choice>, i: nat, s: seq<byte>, again: bool, relocs': seq<Reloc>,
                      rest: seq<Edit>)
    requires i < |relocs| == |relocs'| && |s| < WORD64 && SlotsFrom(relocs, i, |s|) && AllowedFrom(relocs, choices, i)
    requires var t := TurnAt(relocs, choices[i], i, |s|, again);
      && RunFits(|s|, t.edits) && SlotsFrom(t.relocs, t.next, RunSize(|s|, t.edits))
      && AllowedFrom(t.relocs, choices, t.next) && t.next <= |t.relocs| == |relocs|
      && var r := ShortenFrom(t.relocs, choices, t.next, RunSize(|s|, t.edits), t.again);
      && r.edits == rest && r.relocs == relocs'
      && RunFits(RunSize(|s|, t.edits), rest) && relocs'[i].kind == t.relocs[i].kind
    ensures var t := TurnAt(relocs, choices[i], i, |s|, again);
      RewrittenAt(relocs, choices, i, relocs', RunBytes(RunBytes(s, t.edits), rest), t.edits + rest)
  {
    hide RunFits, RunSize, RunOffset, MapPos, SlotsFrom, RunBytes, ShortenFrom, ShortenRelocs, ShortenEdits;
    CoupledIs(relocs, i);
    var c := choices[i];
    if Coupled(relocs, i) && c.Shorten? {
      ShortenFits(relocs, i, |s|, c);
      StartStays(relocs, i, |s|, c);
      CodeWritten(relocs, choices, i, s, relocs', rest);
      MapPosAppend(relocs[i].offset, ShortenEdits(relocs[i].offset, c.data, c.keep, c.drop), rest);
      ShortenMaps(relocs[i].offset, c, relocs[i].offset);
    }
  }

  // The new instruction, written by one turn, is not touched by the rest of the pass.
  lemma CodeWritten(relocs: seq<Reloc>, choices: seq<Choice>, i: nat, s: seq<byte>, relocs': seq<Reloc>,
                    rest: seq<Edit>)
    requires i < |relocs| == |relocs'| && |s| < WORD64 && SlotsFrom(relocs, i, |s|) && AllowedFrom(relocs, choices, i)
    requires Paired(relocs, i) && choices[i].Shorten?
    requires var c := choices[i];
      var e := ShortenEdits(relocs[i].offset, c.data, c.keep, c.drop);
      && RunFits(|s|, e) && RunSize(|s|, e) < WORD64
      && SlotsFrom(ShortenRelocs(relocs, i, |s|, c), i + 2, RunSize(|s|, e))
      && AllowedFrom(ShortenRelocs(relocs, i, |s|, c), choices, i + 2)
      && ShortenFrom(ShortenRelocs(relocs, i, |s|, c), choices, i + 2, RunSize(|s|, e), true).edits == rest
      && ShortenFrom(ShortenRelocs(relocs, i, |s|, c), choices, i + 2, RunSize(|s|, e), true).relocs == relocs'
      && RunFits(RunSize(|s|, e), rest)
    ensures var c, x := choices[i], relocs[i].offset;
      var s' := RunBytes(s, ShortenEdits(x, c.data, c.keep, c.drop));
      var at, bytes := MapPos(x, rest), RunBytes(s', rest);
      && c.keep <= |c.data| && at + c.keep <= |bytes| && bytes[at..at + c.keep] == c.data[..c.keep]
      && (c.keep > 0 ==> relocs'[i].offset == at)
  {
    hide RunFits, RunSize, RunOffset, MapPos, SlotsFrom, RunBytes, ShortenFrom, ShortenRelocs, ShortenEdits;
    hide Survives, Touched, Free;
    var c, x := choices[i], relocs[i].offset;
    var e, now := ShortenEdits(x, c.data, c.keep, c.drop), ShortenRelocs(relocs, i, |s|, c);
    var s' := RunBytes(s, e);
    var at, bytes := MapPos(x, rest), RunBytes(s', rest);
    ShortenFits(relocs, i, |s|, c);
    SlotInRange(relocs, i, |s|);
    NewCode(s, x, c);
    PositionInRange(x, |s'|, rest);
    forall y: nat | x <= y < x + c.keep
      ensures Survives(y, rest) && MapPos(y, rest) < |bytes| && bytes[MapPos(y, rest)] == c.data[y - x]
    {
      WrittenByte(relocs, choices, i, s, s', rest, c.keep, y - x);
    }
    forall y: nat | x <= y < x + c.keep ensures MapPos(y, rest) == at + (y - x) {
      SurvivorRun(x, y - x, rest);
    }
    if c.keep > 0 {
      assert MapPos(x + c.keep - 1, rest) == at + c.keep - 1;
    }
    forall k | 0 <= k < c.keep ensures bytes[at..at + c.keep][k] == c.data[k] {
      assert MapPos(x + k, rest) == at + k;
    }
    assert bytes[at..at + c.keep] == c.data[..c.keep];
    if c.keep > 0 {
      WrittenByte(relocs, choices, i, s, s', rest, c.keep, 0);
      RelocKeepsByte(x, |s'|, rest);
      PassOffsets(now, choices, i + 2, |s'|, true, i);
      StartStays(relocs, i, |s|, c);
    }
  }

  lemma StartStays(relocs: seq<Reloc>, i: nat, n: nat, c: Choice)
    requires i < |relocs| && Eligible(relocs[i].kind) && SlotsFrom(relocs, i, n) && n < WORD64
    requires c.Shorten? && Allowed(relocs[i].kind, c)
    requires RunFits(n, ShortenEdits(relocs[i].offset, c.data, c.keep, c.drop))
    ensures ShortenRelocs(relocs, i, n, c)[i].offset == relocs[i].offset
    ensures ShortenRelocs(relocs, i, n, c)[i].kind == c.newKind
  {
    hide RunFits, RunSize, RunOffset;
    ShortenFits(relocs, i, n, c);
  }

  lemma PositionInRange(x: nat, n: nat, edits: seq<Edit>)
    requires RunFits(n, edits) && x <= n
    ensures MapPos(x, edits) <= RunSize(n, edits)
  {
    hide RunFits, RunSize, MapPos, Origins;
    RunKeepsOrder(n, x, edits);
  }

  // The bytes right after one shortening.
  lemma NewCode(s: seq<byte>, x: nat, c: Choice)
    requires c.Shorten? && c.keep <= |c.data| <= c.keep + c.drop && x + c.keep + c.drop <= |s|
    ensures var e := ShortenEdits(x, c.data, c.keep, c.drop);
      && RunFits(|s|, e) && |RunBytes(s, e)| == |s| - c.drop
      && RunBytes(s, e) == s[..x] + c.data[..c.keep] + s[x + c.keep + c.drop..]
  {
    hide RunFits, RunSize, RunBytes;
    var p, d := Patch(x, c.data), Delete(x + c.keep, c.drop);
    PatchThenDelete(s, 0, p, d);
    assert ShortenEdits(x, c.data, c.keep, c.drop) == [p, d];
  }

  // The byte b at position x of s is at the mapped position after the edits.
  ghost predicate IsAt(b: byte, x: nat, s: seq<byte>, edits: seq<Edit>)
  {
    && RunFits(|s|, edits) && x < |s| && s[x] == b && Survives(x, edits)
    && MapPos(x, edits) < RunSize(|s|, edits) && RunBytes(s, edits)[MapPos(x, edits)] == b
  }

  lemma WrittenByte(relocs: seq<Reloc>, choices: seq<Choice>, i: nat, s: seq<byte>, s': seq<byte>, rest: seq<Edit>,
                    keep: nat, k: nat)
    requires i < |relocs| && |s| < WORD64 && SlotsFrom(relocs, i, |s|) && AllowedFrom(relocs, choices, i)
    requires Paired(relocs, i) && choices[i].Shorten? && keep == choices[i].keep && k < keep
    requires var c := choices[i];
      var e := ShortenEdits(relocs[i].offset, c.data, c.keep, c.drop);
      && RunFits(|s|, e) && RunBytes(s, e) == s' && |s'| < WORD64
      && SlotsFrom(ShortenRelocs(relocs, i, |s|, c), i + 2, |s'|)
      && AllowedFrom(ShortenRelocs(relocs, i, |s|, c), choices, i + 2)
      && ShortenFrom(ShortenRelocs(relocs, i, |s|, c), choices, i + 2, |s'|, true).edits == rest
    requires RunFits(|s'|, rest)
    ensures keep <= |choices[i].data| && IsAt(choices[i].data[k], relocs[i].offset + k, s', rest)
  {
    hide RunFits, RunSize, RunOffset, MapPos, SlotsFrom, RunBytes, ShortenFrom, ShortenRelocs, ShortenEdits;
    hide Survives, Touched, Free;
    var c, x := choices[i], relocs[i].offset;
    SlotInRange(relocs, i, |s|);
    NewCode(s, x, c);
    CodeIsFree(relocs, i, |s|, c, k);
    FreeSurvives(ShortenRelocs(relocs, i, |s|, c), choices, i + 2, |s'|, true, x + k);
    SurvivorIsThere(s', x + k, rest);
  }

  // The code kept of one relocation is outside that of the later ones.
  lemma CodeIsFree(relocs: seq<Reloc>, i: nat, n: nat, c: Choice, k: nat)
    requires i < |relocs| && Eligible(relocs[i].kind) && SlotsFrom(relocs, i, n) && n < WORD64
    requires c.Shorten? && Allowed(relocs[i].kind, c) && k < c.keep
    requires RunFits(n, ShortenEdits(relocs[i].offset, c.data, c.keep, c.drop))
    ensures Free(relocs[i].offset + k, ShortenRelocs(relocs, i, n, c), i + 2)
  {
    hide RunOffset, RunSize, RunFits;
    ShortenFits(relocs, i, n, c);
    var r, relocs' := relocs[i], ShortenRelocs(relocs, i, n, c);
    forall j | i + 2 <= j < |relocs| && Eligible(relocs[j].kind)
      ensures r.offset + k < relocs'[j].offset || relocs'[j].offset + CodeLength(relocs[j].kind) <= r.offset + k
    {
      assert Apart(relocs[i], relocs[j]);
      assert relocs'[j].offset == MoveOffset(relocs[j].offset, r.offset + c.keep, c.drop, n);
    }
  }
}
