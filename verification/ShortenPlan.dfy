/** Pass 0 of relaxation: code sequences are shortened one relocation at a time.  Whether a
    sequence may be shortened depends on symbol values and encodings that are not modelled, so
    every decision is an input; what is modelled is what each decision does to the section. */
module ShortenPlan {
  import opened Bits
  import opened Relaxation
  import opened AlignPlan

  // What one relaxation function did with one relocation.
  datatype Choice =
    | Keep
    | Retag(newKind: RelocKind)
    | Shorten(newKind: RelocKind, data: seq<byte>, keep: nat, drop: nat)
    | ResetAgain

  // Relocations pass 0 looks at, and the length of the code they cover.
  function CodeLength(k: RelocKind): nat
  {
    match k
    case CALL => 8
    case CALL_PLT => 8
    case HI20 => 4
    case LO12_I => 4
    case LO12_S => 4
    case TPREL_HI20 => 4
    case TPREL_ADD => 4
    case TPREL_LO12_I => 4
    case TPREL_LO12_S => 4
    case PCREL_HI20 => 4
    case PCREL_LO12_I => 4
    case _ => 0
  }

  predicate Eligible(k: RelocKind) { CodeLength(k) > 0 }

  // The relocations pass 0 has a relaxation function for.
  const RELAXABLE: set<RelocKind> := {
    CALL, CALL_PLT, HI20, LO12_I, LO12_S, TPREL_HI20, TPREL_ADD, TPREL_LO12_I, TPREL_LO12_S, PCREL_HI20, PCREL_LO12_I
  }

  /** Exactly these cover code: a call two instructions, any other one. */
  lemma RelaxableKinds(k: RelocKind)
    ensures Eligible(k) <==> k in RELAXABLE
    ensures CodeLength(k) == if k in {CALL, CALL_PLT} then 8 else if k in RELAXABLE then 4 else 0
  {
  }

  // The outcomes each relaxation function has.
  predicate Allowed(k: RelocKind, c: Choice)
  {
    match c
    case Keep => true
    case Retag(newKind) =>
      || (k == LO12_I && newKind == GPREL_I) || (k == LO12_S && newKind == GPREL_S)
      || (k == TPREL_LO12_I && newKind == TPREL_I) || (k == TPREL_LO12_S && newKind == TPREL_S)
    case Shorten(newKind, data, keep, drop) =>
      || (k in {CALL, CALL_PLT} && newKind in {JAL, LO12_I} && |data| == 4 && keep == 4 && drop == 4)
      || (k in {CALL, CALL_PLT} && newKind == RVC_JUMP && |data| == 2 && keep == 2 && drop == 6)
      || (k == HI20 && newKind == NONE && data == [] && keep == 0 && drop == 4)
      || (k == HI20 && newKind == RVC_LUI && |data| == 4 && keep == 2 && drop == 2)
      || (k in {TPREL_HI20, TPREL_ADD} && newKind == NONE && data == [] && keep == 0 && drop == 4)
    case ResetAgain => k in {PCREL_HI20, PCREL_LO12_I}
  }

  // The code covered by the remaining relocations is inside the section and does not overlap.
  predicate SlotsFrom(relocs: seq<Reloc>, i: nat, n: nat)
  {
    && (forall j :: i <= j < |relocs| && Eligible(relocs[j].kind) ==>
          relocs[j].offset + CodeLength(relocs[j].kind) <= n)
    && (forall j, k :: i <= j < k < |relocs| && Eligible(relocs[j].kind) && Eligible(relocs[k].kind) ==>
          Apart(relocs[j], relocs[k]))
  }

  predicate Apart(a: Reloc, b: Reloc)
  {
    a.offset + CodeLength(a.kind) <= b.offset || b.offset + CodeLength(b.kind) <= a.offset
  }

  // Only a relocation followed by R_RISCV_RELAX at the same offset is relaxed.
  predicate Paired(relocs: seq<Reloc>, i: nat)
    requires i < |relocs|
  {
    && Eligible(relocs[i].kind) && i + 1 < |relocs|
    && relocs[i + 1].kind == RELAX && relocs[i + 1].offset == relocs[i].offset
  }

  function ShortenEdits(offset: nat, data: seq<byte>, keep: nat, drop: nat): seq<Edit>
  {
    [Patch(offset, data), Delete(offset + keep, drop)]
  }

  lemma ShortenFits(relocs: seq<Reloc>, i: nat, n: nat, c: Choice)
    requires i < |relocs| && Eligible(relocs[i].kind) && SlotsFrom(relocs, i, n) && n < WORD64
    requires c.Shorten? && Allowed(relocs[i].kind, c)
    ensures var e := ShortenEdits(relocs[i].offset, c.data, c.keep, c.drop);
      && RunFits(n, e) && RunSize(n, e) == n - c.drop < n
      && c.keep + c.drop == CodeLength(relocs[i].kind)
      && forall x :: RunOffset(x, n, e) == MoveOffset(x, relocs[i].offset + c.keep, c.drop, n)
  {
    var r := relocs[i];
    PatchThenDeleteFits(n, 0, Patch(r.offset, c.data), Delete(r.offset + c.keep, c.drop));
    forall x: nat ensures RunFits(n, ShortenEdits(r.offset, c.data, c.keep, c.drop))
      && RunSize(n, ShortenEdits(r.offset, c.data, c.keep, c.drop)) == n - c.drop
      && RunOffset(x, n, ShortenEdits(r.offset, c.data, c.keep, c.drop)) == MoveOffset(x, r.offset + c.keep, c.drop, n)
    {
      PatchThenDeleteFits(n, x, Patch(r.offset, c.data), Delete(r.offset + c.keep, c.drop));
    }
  }

  // The relocations after one shortening: moved, and the shortened one retagged.
  function ShortenRelocs(relocs: seq<Reloc>, i: nat, n: nat, c: Choice): (r: seq<Reloc>)
    requires i < |relocs| && c.Shorten? && RunFits(n, ShortenEdits(relocs[i].offset, c.data, c.keep, c.drop))
    ensures |r| == |relocs|
  {
    MoveRelocs(relocs[i := relocs[i].(kind := c.newKind)], n, ShortenEdits(relocs[i].offset, c.data, c.keep, c.drop))
  }

  lemma SlotsAfter(relocs: seq<Reloc>, i: nat, n: nat, c: Choice)
    requires i < |relocs| && Eligible(relocs[i].kind) && SlotsFrom(relocs, i, n) && n < WORD64
    requires c.Shorten? && Allowed(relocs[i].kind, c)
    ensures RunFits(n, ShortenEdits(relocs[i].offset, c.data, c.keep, c.drop))
    ensures SlotsFrom(ShortenRelocs(relocs, i, n, c), i + 1, n - c.drop)
  {
    ShortenFits(relocs, i, n, c);
    var r, relocs' := relocs[i], ShortenRelocs(relocs, i, n, c);
    forall j | i < j < |relocs| && Eligible(relocs[j].kind)
      ensures relocs'[j] == relocs[j].(offset := if relocs[j].offset <= r.offset then relocs[j].offset
                                                 else relocs[j].offset - c.drop)
      ensures relocs[j].offset > r.offset ==> relocs[j].offset >= r.offset + c.keep + c.drop
      ensures relocs[j].offset <= r.offset ==> relocs[j].offset + CodeLength(relocs[j].kind) <= r.offset
    {
      assert Eligible(relocs[i].kind) && Eligible(relocs[j].kind);
    }
  }

  lemma SlotsSkip(relocs: seq<Reloc>, i: nat, k: nat, n: nat)
    requires SlotsFrom(relocs, i, n) && i <= k
    ensures SlotsFrom(relocs, k, n)
  {
  }

  lemma SlotsRetag(relocs: seq<Reloc>, i: nat, n: nat, r: Reloc)
    requires i < |relocs| && SlotsFrom(relocs, i, n)
    ensures SlotsFrom(relocs[i := r], i + 1, n)
  {
  }

  // One turn of the loop at relocation i: what it edits, what it leaves, where it goes on.
  datatype Turn = Turn(edits: seq<Edit>, relocs: seq<Reloc>, again: bool, next: nat)

  function TurnAt(relocs: seq<Reloc>, c: Choice, i: nat, n: nat, again: bool): Turn
    requires i < |relocs| && n < WORD64 && SlotsFrom(relocs, i, n) && Allowed(relocs[i].kind, c)
  {
    if !Paired(relocs, i) then Turn([], relocs, again, i + 1)
    else
      match c
      case Keep => Turn([], relocs, again, i + 2)
      case Retag(newKind) => Turn([], relocs[i := relocs[i].(kind := newKind)], again, i + 2)
      case ResetAgain => Turn([], relocs, false, i + 2)
      case Shorten(newKind, data, keep, drop) =>
        ShortenFits(relocs, i, n, c);
        Turn(ShortenEdits(relocs[i].offset, data, keep, drop), ShortenRelocs(relocs, i, n, c), true, i + 2)
  }

  predicate AllowedFrom(relocs: seq<Reloc>, choices: seq<Choice>, i: nat)
  {
    |choices| == |relocs| && forall j :: i <= j < |relocs| ==> Allowed(relocs[j].kind, choices[j])
  }

  predicate EvenFrom(relocs: seq<Reloc>, i: nat)
  {
    forall j :: i <= j < |relocs| ==> relocs[j].offset % 2 == 0
  }

  /** What one turn keeps: the remaining relocations stay well placed, the section shrinks
      exactly when code was shortened, and shortening raises the flag. */
  lemma TurnKeeps(relocs: seq<Reloc>, choices: seq<Choice>, i: nat, n: nat, again: bool)
    requires i < |relocs| && n < WORD64 && SlotsFrom(relocs, i, n) && AllowedFrom(relocs, choices, i)
    ensures var t := TurnAt(relocs, choices[i], i, n, again);
      && i < t.next <= |relocs| && |t.relocs| == |relocs|
      && RunFits(n, t.edits)
      && SlotsFrom(t.relocs, t.next, RunSize(n, t.edits)) && AllowedFrom(t.relocs, choices, t.next)
      && (EvenFrom(relocs, i) ==> EvenFrom(t.relocs, t.next) && EvenRun(t.edits))
      && (t.edits == [] ==> t.again == again || (t.again == false && choices[i] == ResetAgain))
      && (t.edits != [] ==> t.again && RunSize(n, t.edits) < n)
  {
    if Paired(relocs, i) && choices[i].Shorten? {
      hide RunOffset, RunSize, RunFits, MoveOffset, SlotsFrom;
      ShortenFits(relocs, i, n, choices[i]);
      SlotsAfter(relocs, i, n, choices[i]);
      SlotsSkip(ShortenRelocs(relocs, i, n, choices[i]), i + 1, i + 2, n - choices[i].drop);
      ShortenKeepsEven(relocs, i, n, choices[i]);
    } else {
      var t := TurnAt(relocs, choices[i], i, n, again);
      assert t.edits == [];
      SlotsRetag(relocs, i, n, t.relocs[i]);
      assert t.relocs == relocs[i := t.relocs[i]];
      SlotsSkip(t.relocs, i + 1, t.next, n);
    }
  }

  lemma ShortenKeepsEven(relocs: seq<Reloc>, i: nat, n: nat, c: Choice)
    requires i < |relocs| && Eligible(relocs[i].kind) && SlotsFrom(relocs, i, n) && n < WORD64
    requires c.Shorten? && Allowed(relocs[i].kind, c)
    requires RunFits(n, ShortenEdits(relocs[i].offset, c.data, c.keep, c.drop))
    ensures EvenFrom(relocs, i) ==>
              EvenFrom(ShortenRelocs(relocs, i, n, c), i + 2)
                && EvenRun(ShortenEdits(relocs[i].offset, c.data, c.keep, c.drop))
  {
    hide RunOffset, RunSize, RunFits, SlotsFrom, MoveOffset, EvenRun;
    if EvenFrom(relocs, i) {
      ShortenFits(relocs, i, n, c);
      ShortenEditsEven(relocs[i], c);
      forall j | i + 2 <= j < |relocs| ensures ShortenRelocs(relocs, i, n, c)[j].offset % 2 == 0 {
        MoveEven(relocs[j].offset, relocs[i].offset + c.keep, c.drop, n);
      }
    }
  }

  lemma ShortenEditsEven(r: Reloc, c: Choice)
    requires r.offset % 2 == 0 && c.Shorten? && Allowed(r.kind, c)
    ensures c.drop % 2 == 0 && EvenRun(ShortenEdits(r.offset, c.data, c.keep, c.drop))
  {
  }

  lemma MoveEven(x: nat, addr: nat, count: nat, n: nat)
    requires x % 2 == 0 && count % 2 == 0
    ensures MoveOffset(x, addr, count, n) % 2 == 0
  {
  }

  datatype Result = Result(edits: seq<Edit>, relocs: seq<Reloc>, again: bool)

  /** Pass 0 from relocation i on: the edits made, the relocations left behind, and *again. */
  function ShortenFrom(relocs: seq<Reloc>, choices: seq<Choice>, i: nat, n: nat, again: bool): (r: Result)
    requires i <= |relocs| && n < WORD64 && SlotsFrom(relocs, i, n) && AllowedFrom(relocs, choices, i)
    ensures |r.relocs| == |relocs|
    decreases |relocs| - i
  {
    if i == |relocs| then Result([], relocs, again)
    else
      TurnKeeps(relocs, choices, i, n, again);
      var t := TurnAt(relocs, choices[i], i, n, again);
      var rest := ShortenFrom(t.relocs, choices, t.next, RunSize(n, t.edits), t.again);
      rest.(edits := t.edits + rest.edits)
  }

  // ---------------------------------------------------------------- what pass 0 keeps

  /** Relaxation terminates: a pass that asks to be run again has strictly shrunk the section.
      Without a PC-relative relocation that clears the flag the converse holds too. */
  lemma {:induction false} AgainShrinks(relocs: seq<Reloc>, choices: seq<Choice>, i: nat, n: nat, again: bool)
    requires i <= |relocs| && n < WORD64 && SlotsFrom(relocs, i, n) && AllowedFrom(relocs, choices, i)
    ensures var r := ShortenFrom(relocs, choices, i, n, again);
      && RunFits(n, r.edits)
      && (r.again && !again ==> RunSize(n, r.edits) < n)
      && ((forall j :: i <= j < |relocs| ==> choices[j] != ResetAgain) && (again || RunSize(n, r.edits) < n) ==>
        r.again)
    decreases |relocs| - i
  {
    hide TurnAt, RunFits, RunSize, SlotsFrom, EvenRun, EvenFrom;
    if i < |relocs| {
      TurnKeeps(relocs, choices, i, n, again);
      var t := TurnAt(relocs, choices[i], i, n, again);
      AgainShrinks(t.relocs, choices, t.next, RunSize(n, t.edits), t.again);
      RunFitsAppend(n, t.edits, ShortenFrom(t.relocs, choices, t.next, RunSize(n, t.edits), t.again).edits);
      NoEditsNoChange(n);
    } else {
      NoEditsNoChange(n);
    }
  }

  lemma NoEditsNoChange(n: nat)
    ensures RunFits(n, []) && RunSize(n, []) == n
  {
  }

  lemma {:induction false} ShortenIsEven(relocs: seq<Reloc>, choices: seq<Choice>, i: nat, n: nat, again: bool)
    requires i <= |relocs| && n < WORD64 && SlotsFrom(relocs, i, n) && AllowedFrom(relocs, choices, i)
    requires EvenFrom(relocs, i)
    ensures EvenRun(ShortenFrom(relocs, choices, i, n, again).edits)
    decreases |relocs| - i
  {
    hide TurnAt, RunFits, RunSize, SlotsFrom, EvenFrom;
    if i == |relocs| {
    } else {
      TurnKeeps(relocs, choices, i, n, again);
      var t := TurnAt(relocs, choices[i], i, n, again);
      ShortenIsEven(t.relocs, choices, t.next, RunSize(n, t.edits), t.again);
    }
  }

  /** In code at even offsets no shortening of a whole pass puts a jump of the section out of
      JAL reach. */
  lemma JumpsStillFit(relocs: seq<Reloc>, choices: seq<Choice>, n: nat, pc: nat, target: nat)
    requires n < WORD64 && SlotsFrom(relocs, 0, n) && AllowedFrom(relocs, choices, 0) && EvenFrom(relocs, 0)
    requires pc % 2 == 0 && FitsJal(target as int - pc)
    ensures var edits := ShortenFrom(relocs, choices, 0, n, false).edits;
      FitsJal(MapPos(target, edits) as int - MapPos(pc, edits))
  {
    hide *;
    ShortenIsEven(relocs, choices, 0, n, false);
    JalStillFits(pc, target, ShortenFrom(relocs, choices, 0, n, false).edits);
  }

  // ---------------------------------------------------------------- when *again is right

  // What the turns of a pass do to *again, in order: a shortening sets it, a reset clears it.
  datatype Event = Shortened | Cleared

  function EventsAt(relocs: seq<Reloc>, c: Choice, i: nat): seq<Event>
    requires i < |relocs|
  {
    if !Paired(relocs, i) then [] else if c.Shorten? then [Shortened] else if c == ResetAgain then [Cleared] else []
  }

  function Events(relocs: seq<Reloc>, choices: seq<Choice>, i: nat, n: nat): seq<Event>
    requires i <= |relocs| && n < WORD64 && SlotsFrom(relocs, i, n) && AllowedFrom(relocs, choices, i)
    decreases |relocs| - i
  {
    if i == |relocs| then []
    else
      TurnKeeps(relocs, choices, i, n, false);
      var t := TurnAt(relocs, choices[i], i, n, false);
      EventsAt(relocs, choices[i], i) + Events(t.relocs, choices, t.next, RunSize(n, t.edits))
  }

  /** The section shrinks if and only if some turn shortens, and *again tells the last event. */
  lemma {:induction false} EventsTell(relocs: seq<Reloc>, choices: seq<Choice>, i: nat, n: nat, again: bool)
    requires i <= |relocs| && n < WORD64 && SlotsFrom(relocs, i, n) && AllowedFrom(relocs, choices, i)
    ensures var r, ev := ShortenFrom(relocs, choices, i, n, again), Events(relocs, choices, i, n);
      && RunFits(n, r.edits) && (RunSize(n, r.edits) < n <==> Shortened in ev)
      && (r.edits == [] <==> Shortened !in ev)
      && (r.again <==> if ev == [] then again else ev[|ev| - 1] == Shortened)
    decreases |relocs| - i
  {
    hide RunFits, RunSize, SlotsFrom, EvenRun, EvenFrom, TurnAt, EventsAt;
    if i == |relocs| {
      NoEditsNoChange(n);
    } else {
      TurnKeeps(relocs, choices, i, n, again);
      TurnIgnoresFlag(relocs, choices, i, n, again);
      var t := TurnAt(relocs, choices[i], i, n, again);
      var size := RunSize(n, t.edits);
      EventsTell(t.relocs, choices, t.next, size, t.again);
      RunFitsAppend(n, t.edits, ShortenFrom(t.relocs, choices, t.next, size, t.again).edits);
      NoEditsNoChange(n);
    }
  }

  lemma TurnIgnoresFlag(relocs: seq<Reloc>, choices: seq<Choice>, i: nat, n: nat, again: bool)
    requires i < |relocs| && n < WORD64 && SlotsFrom(relocs, i, n) && AllowedFrom(relocs, choices, i)
    ensures var t, ev := TurnAt(relocs, choices[i], i, n, again), EventsAt(relocs, choices[i], i);
      && t == TurnAt(relocs, choices[i], i, n, false).(again := t.again)
      && |ev| <= 1 && (t.edits != [] <==> ev == [Shortened])
      && t.again == (if ev == [] then again else ev == [Shortened])
  {
  }

  /** When *again is right: it tells a shrunk section from one that kept its size if and only if
      no reset comes after the last shortening. */
  lemma AgainExact(relocs: seq<Reloc>, choices: seq<Choice>, n: nat)
    requires n < WORD64 && SlotsFrom(relocs, 0, n) && AllowedFrom(relocs, choices, 0)
    ensures var r, ev := ShortenFrom(relocs, choices, 0, n, false), Events(relocs, choices, 0, n);
      && RunFits(n, r.edits)
      && ((r.again <==> RunSize(n, r.edits) < n) <==> !(Shortened in ev && ev[|ev| - 1] == Cleared))
  {
    hide *;
    EventsTell(relocs, choices, 0, n, false);
    LastOrNone(Events(relocs, choices, 0, n));
  }

  lemma LastOrNone(ev: seq<Event>)
    ensures Shortened in ev ==> ev != []
    ensures ev != [] && ev[|ev| - 1] == Shortened ==> Shortened in ev
  {
  }

  // A list in which every relocation is followed by its R_RISCV_RELAX, as the assembler emits it.
  predicate AllPaired(relocs: seq<Reloc>, i: nat)
  {
    |relocs| % 2 == 0 && forall k :: i <= k < |relocs| && k % 2 == 0 ==> Paired(relocs, k)
  }

  function ChoiceEvents(choices: seq<Choice>, i: nat): seq<Event>
    decreases |choices| - i
  {
    if i >= |choices| then []
    else
      (if choices[i].Shorten? then [Shortened] else if choices[i] == ResetAgain then [Cleared] else [])
      + ChoiceEvents(choices, i + 2)
  }

  lemma PairedAfter(relocs: seq<Reloc>, choices: seq<Choice>, i: nat, n: nat)
    requires i < |relocs| && n < WORD64 && SlotsFrom(relocs, i, n) && AllowedFrom(relocs, choices, i)
    requires i % 2 == 0 && AllPaired(relocs, i)
    ensures var t := TurnAt(relocs, choices[i], i, n, false); t.next == i + 2 && AllPaired(t.relocs, i + 2)
  {
    hide RunOffset, RunSize, RunFits, SlotsFrom;
    assert Paired(relocs, i);
    var t := TurnAt(relocs, choices[i], i, n, false);
    if choices[i].Shorten? {
      ShortenFits(relocs, i, n, choices[i]);
    }
    forall k | i + 2 <= k < |relocs| && k % 2 == 0 ensures Paired(t.relocs, k) {
      assert Paired(relocs, k);
    }
  }

  lemma PairedEventsAt(relocs: seq<Reloc>, c: Choice, i: nat)
    requires i < |relocs| && i % 2 == 0 && AllPaired(relocs, i)
    ensures EventsAt(relocs, c, i)
         == if c.Shorten? then [Shortened] else if c == ResetAgain then [Cleared] else []
  {
    assert Paired(relocs, i);
  }

  /** In such a list the events can be read off the choices. */
  lemma {:induction false} PairedEvents(relocs: seq<Reloc>, choices: seq<Choice>, i: nat, n: nat)
    requires i <= |relocs| && n < WORD64 && SlotsFrom(relocs, i, n) && AllowedFrom(relocs, choices, i)
    requires i % 2 == 0 && AllPaired(relocs, i)
    ensures Events(relocs, choices, i, n) == ChoiceEvents(choices, i)
    decreases |relocs| - i
  {
    hide TurnAt, RunSize, RunFits, SlotsFrom, EvenRun, EvenFrom, Paired, EventsAt;
    if i == |relocs| {
    } else {
      TurnKeeps(relocs, choices, i, n, false);
      PairedAfter(relocs, choices, i, n);
      var t := TurnAt(relocs, choices[i], i, n, false);
      PairedEventsAt(relocs, choices[i], i);
      PairedEvents(t.relocs, choices, t.next, RunSize(n, t.edits));
    }
  }

  lemma {:induction false} ShortenedIn(choices: seq<Choice>, i: nat, j: nat)
    requires i <= j < |choices| && i % 2 == 0 && j % 2 == 0 && choices[j].Shorten?
    ensures Shortened in ChoiceEvents(choices, i)
    decreases j - i
  {
    if i == j {
      assert ChoiceEvents(choices, i)[0] == Shortened;
    } else {
      ShortenedIn(choices, i + 2, j);
    }
  }

  // A reset at relocation m with no shortening behind it.
  predicate ClearedAt(choices: seq<Choice>, m: nat)
  {
    && m < |choices| && m % 2 == 0 && choices[m] == ResetAgain
    && forall k :: m < k < |choices| && k % 2 == 0 ==> !choices[k].Shorten?
  }

  lemma {:induction false} ClearedLast(choices: seq<Choice>, i: nat, m: nat)
    requires i % 2 == 0 && ClearedAt(choices, m)
    ensures var ev := ChoiceEvents(choices, i);
      && (i <= m ==> ev != [])
      && (ev != [] ==> ev[|ev| - 1] == Cleared || i < m)
      && (ev != [] && i <= m ==> ev[|ev| - 1] == Cleared)
    decreases |choices| - i
  {
    if i >= |choices| {
    } else {
      ClearedLast(choices, i + 2, m);
    }
  }

  /** The flag fails at any length: when the list is paired, something was shortened, and the
      last thing done to a code sequence is a reset, the pass says it is done although the
      section shrank. */
  lemma ResetHidesShortening(relocs: seq<Reloc>, choices: seq<Choice>, n: nat, j: nat, m: nat)
    requires n < WORD64 && SlotsFrom(relocs, 0, n) && AllowedFrom(relocs, choices, 0) && AllPaired(relocs, 0)
    requires j < m && j % 2 == 0 && ClearedAt(choices, m) && choices[j].Shorten?
    ensures var r := ShortenFrom(relocs, choices, 0, n, false);
      !r.again && RunFits(n, r.edits) && RunSize(n, r.edits) < n
  {
    hide ShortenFrom, Events, RunFits, RunSize, SlotsFrom;
    PairedEvents(relocs, choices, 0, n);
    ShortenedIn(choices, 0, j);
    ClearedLast(choices, 0, m);
    EventsTell(relocs, choices, 0, n, false);
  }

  // When only the first turn shortens, its edits are all there are.
  lemma FirstTurnOnly(relocs: seq<Reloc>, choices: seq<Choice>, n: nat)
    requires n < WORD64 && SlotsFrom(relocs, 0, n) && AllowedFrom(relocs, choices, 0) && AllPaired(relocs, 0)
    requires relocs != [] && choices[0].Shorten? && Shortened !in ChoiceEvents(choices, 2)
    ensures var r := ShortenFrom(relocs, choices, 0, n, false);
      RunFits(n, r.edits) && RunSize(n, r.edits) == n - choices[0].drop
  {
    hide RunFits, RunSize, SlotsFrom, RunOffset, Events, ChoiceEvents;
    assert Paired(relocs, 0);
    TurnKeeps(relocs, choices, 0, n, false);
    PairedAfter(relocs, choices, 0, n);
    var t := TurnAt(relocs, choices[0], 0, n, false);
    var size := RunSize(n, t.edits);
    PairedEvents(t.relocs, choices, 2, size);
    EventsTell(t.relocs, choices, 2, size, true);
    ShortenFits(relocs, 0, n, choices[0]);
    assert t.edits + [] == t.edits;
  }

  function CallRelocs(): seq<Reloc>
  {
    [Reloc(0, 0, CALL), Reloc(0, 0, RELAX), Reloc(8, 0, PCREL_HI20), Reloc(8, 0, RELAX)]
  }

  function CallChoices(jump: seq<byte>): seq<Choice> { [Shorten(JAL, jump, 4, 4), Keep, ResetAgain, Keep] }

  /** A call that becomes a jump, followed by a PC-relative address: twelve bytes become eight,
      and *again is false. */
  lemma CallThenPcrel(jump: seq<byte>)
    requires |jump| == 4
    ensures SlotsFrom(CallRelocs(), 0, 12) && AllowedFrom(CallRelocs(), CallChoices(jump), 0)
    ensures var r := ShortenFrom(CallRelocs(), CallChoices(jump), 0, 12, false);
      !r.again && RunFits(12, r.edits) && RunSize(12, r.edits) == 8
  {
    hide ShortenFrom, SlotsFrom, AllowedFrom, AllPaired, ClearedAt, ChoiceEvents, RunFits, RunSize, CallRelocs,
         CallChoices;
    CallPlaced(jump);
    ResetHidesShortening(CallRelocs(), CallChoices(jump), 12, 0, 2);
    FirstTurnOnly(CallRelocs(), CallChoices(jump), 12);
  }

  lemma CallPlaced(jump: seq<byte>)
    requires |jump| == 4
    ensures SlotsFrom(CallRelocs(), 0, 12) && AllowedFrom(CallRelocs(), CallChoices(jump), 0)
    ensures AllPaired(CallRelocs(), 0) && CallRelocs() != [] && |CallChoices(jump)| == 4
    ensures CallChoices(jump)[0].Shorten? && CallChoices(jump)[0].drop == 4 && ClearedAt(CallChoices(jump), 2)
    ensures Shortened !in ChoiceEvents(CallChoices(jump), 2)
  {
    hide ShortenFrom, TurnAt, RunFits, RunSize;
  }

  // ---------------------------------------------------------------- from one pass to the next

  // The padding of a directive lies clear of the code a relocation covers.  A directive at the
  // very start of that code is out: if all of it goes, and nothing follows, the relocation of the
  // directive ends up at the end of the section, where no later deletion moves it.
  predicate Clear(pad: Reloc, code: Reloc)
  {
    || (pad.offset < code.offset && pad.offset + pad.addend <= code.offset)
    || code.offset + CodeLength(code.kind) <= pad.offset
  }

  /** What the passes ask of a section: its code sequences lie apart, its paddings lie in order,
      and the two kinds lie clear of each other. */
  predicate Placed(relocs: seq<Reloc>, n: nat)
  {
    && SlotsFrom(relocs, 0, n) && PadsFrom(relocs, 0, n)
    && forall j, k :: 0 <= j < |relocs| && 0 <= k < |relocs| && IsAlign(relocs[j]) && Eligible(relocs[k].kind) ==>
         Clear(relocs[j], relocs[k])
  }

  // The same paddings, each where the edits put the position behind it.
  predicate PadsKept(relocs: seq<Reloc>, relocs': seq<Reloc>, edits: seq<Edit>)
  {
    && |relocs'| == |relocs|
    && forall j :: 0 <= j < |relocs| ==>
         && (IsAlign(relocs'[j]) <==> IsAlign(relocs[j])) && relocs'[j].addend == relocs[j].addend
         && (IsAlign(relocs[j]) ==>
               MapPos(relocs[j].offset + relocs[j].addend, edits) == relocs'[j].offset + relocs[j].addend)
  }

  // Relocation i keeps the first bytes of its code; every other code sequence and padding is
  // before it and stays, or behind it and moves down.
  predicate Squeezed(relocs: seq<Reloc>, relocs': seq<Reloc>, i: nat, keep: nat, drop: nat)
    requires i < |relocs|
  {
    && |relocs'| == |relocs|
    && relocs'[i].offset == relocs[i].offset && relocs'[i].addend == relocs[i].addend
    && !IsAlign(relocs[i]) && !IsAlign(relocs'[i]) && CodeLength(relocs'[i].kind) <= keep
    && forall k :: 0 <= k < |relocs| && k != i ==>
         && relocs'[k].kind == relocs[k].kind && relocs'[k].addend == relocs[k].addend
         && (Eligible(relocs[k].kind) || IsAlign(relocs[k]) ==>
               || Stays(relocs[k], relocs'[k], relocs[i].offset)
               || Moves(relocs[k], relocs'[k], relocs[i].offset + keep, drop))
  }

  predicate Stays(r: Reloc, r': Reloc, at: nat)
  {
    && r'.offset == r.offset <= at && (IsAlign(r) ==> r.offset < at && r.offset + r.addend <= at)
    && r.offset + CodeLength(r.kind) <= at
  }

  predicate Moves(r: Reloc, r': Reloc, at: nat, drop: nat)
  {
    at + drop <= r.offset && r'.offset == r.offset - drop
  }

  lemma ShortenSqueezes(relocs: seq<Reloc>, i: nat, n: nat, c: Choice)
    requires i < |relocs| && Eligible(relocs[i].kind) && Placed(relocs, n) && n < WORD64
    requires c.Shorten? && Allowed(relocs[i].kind, c) && SlotsFrom(relocs, i, n)
    ensures RunFits(n, ShortenEdits(relocs[i].offset, c.data, c.keep, c.drop))
    ensures Squeezed(relocs, ShortenRelocs(relocs, i, n, c), i, c.keep, c.drop)
  {
    hide RunOffset, RunSize, RunFits, MapPos;
    ShortenFits(relocs, i, n, c);
    var relocs' := ShortenRelocs(relocs, i, n, c);
    forall k | 0 <= k < |relocs| && k != i && (Eligible(relocs[k].kind) || IsAlign(relocs[k]))
      ensures Stays(relocs[k], relocs'[k], relocs[i].offset)
              || Moves(relocs[k], relocs'[k], relocs[i].offset + c.keep, c.drop)
    {
      OtherSide(relocs, i, k, n);
      assert relocs'[k].offset == MoveOffset(relocs[k].offset, relocs[i].offset + c.keep, c.drop, n);
    }
  }

  lemma OtherSide(relocs: seq<Reloc>, i: nat, k: nat, n: nat)
    requires i < |relocs| && k < |relocs| && i != k && Placed(relocs, n) && Eligible(relocs[i].kind)
    requires Eligible(relocs[k].kind) || IsAlign(relocs[k])
    ensures relocs[k].offset < n
    ensures || relocs[i].offset + CodeLength(relocs[i].kind) <= relocs[k].offset
            || (relocs[k].offset + CodeLength(relocs[k].kind) <= relocs[i].offset
                && (IsAlign(relocs[k]) ==>
                      relocs[k].offset < relocs[i].offset && relocs[k].offset + relocs[k].addend <= relocs[i].offset))
  {
    if Eligible(relocs[k].kind) {
      assert Apart(relocs[if i < k then i else k], relocs[if i < k then k else i]);
    } else {
      assert Clear(relocs[k], relocs[i]);
    }
  }

  lemma SqueezedPlaced(relocs: seq<Reloc>, relocs': seq<Reloc>, i: nat, n: nat, keep: nat, drop: nat)
    requires i < |relocs| && Placed(relocs, n) && Squeezed(relocs, relocs', i, keep, drop)
    requires relocs[i].offset + keep + drop <= n
    ensures Placed(relocs', n - drop)
  {
    SqueezedSlots(relocs, relocs', i, n, keep, drop);
    SqueezedPads(relocs, relocs', i, n, keep, drop);
    SqueezedClear(relocs, relocs', i, n, keep, drop);
  }

  lemma SqueezedSlots(relocs: seq<Reloc>, relocs': seq<Reloc>, i: nat, n: nat, keep: nat, drop: nat)
    requires i < |relocs| && SlotsFrom(relocs, 0, n) && Squeezed(relocs, relocs', i, keep, drop)
    requires relocs[i].offset + keep + drop <= n
    ensures SlotsFrom(relocs', 0, n - drop)
  {
    forall j, k | 0 <= j < k < |relocs| && Eligible(relocs'[j].kind) && Eligible(relocs'[k].kind)
      ensures Apart(relocs'[j], relocs'[k])
    {
      if j != i && k != i {
        assert Apart(relocs[j], relocs[k]);
      }
    }
  }

  lemma SqueezedPads(relocs: seq<Reloc>, relocs': seq<Reloc>, i: nat, n: nat, keep: nat, drop: nat)
    requires i < |relocs| && PadsFrom(relocs, 0, n) && Squeezed(relocs, relocs', i, keep, drop)
    requires relocs[i].offset + keep + drop <= n
    ensures PadsFrom(relocs', 0, n - drop)
  {
    forall j, k | 0 <= j < k < |relocs| && IsAlign(relocs'[j]) && IsAlign(relocs'[k])
      ensures relocs'[j].offset + relocs'[j].addend <= relocs'[k].offset
    {
      assert IsAlign(relocs[j]) && IsAlign(relocs[k]);
    }
    forall j | 0 <= j < |relocs| && IsAlign(relocs'[j])
      ensures relocs'[j].offset + relocs'[j].addend <= n - drop && relocs'[j].offset < n - drop
    {
      assert IsAlign(relocs[j]);
    }
  }

  lemma SqueezedClear(relocs: seq<Reloc>, relocs': seq<Reloc>, i: nat, n: nat, keep: nat, drop: nat)
    requires i < |relocs| && Placed(relocs, n) && Squeezed(relocs, relocs', i, keep, drop)
    ensures forall j, k :: 0 <= j < |relocs'| && 0 <= k < |relocs'| ==>
              IsAlign(relocs'[j]) && Eligible(relocs'[k].kind) ==>
              Clear(relocs'[j], relocs'[k])
  {
    hide SlotsFrom, PadsFrom;
    forall j, k | 0 <= j < |relocs'| && 0 <= k < |relocs'| && IsAlign(relocs'[j]) && Eligible(relocs'[k].kind)
      ensures Clear(relocs'[j], relocs'[k])
    {
      if k != i {
        assert IsAlign(relocs[j]) && Eligible(relocs[k].kind);
        assert Clear(relocs[j], relocs[k]);
      }
    }
  }

  lemma SqueezedKeeps(relocs: seq<Reloc>, i: nat, n: nat, c: Choice)
    requires i < |relocs| && Eligible(relocs[i].kind) && Placed(relocs, n) && n < WORD64
    requires c.Shorten? && Allowed(relocs[i].kind, c) && SlotsFrom(relocs, i, n)
    ensures RunFits(n, ShortenEdits(relocs[i].offset, c.data, c.keep, c.drop))
    ensures PadsKept(relocs, ShortenRelocs(relocs, i, n, c), ShortenEdits(relocs[i].offset, c.data, c.keep, c.drop))
  {
    hide RunOffset, RunSize, RunFits, MapPos, Placed, ShortenRelocs, SlotsFrom, Eligible;
    ShortenSqueezes(relocs, i, n, c);
    ShortenFits(relocs, i, n, c);
    var r, relocs' := relocs[i], ShortenRelocs(relocs, i, n, c);
    forall j | 0 <= j < |relocs| && IsAlign(relocs[j])
      ensures MapPos(relocs[j].offset + relocs[j].addend, ShortenEdits(r.offset, c.data, c.keep, c.drop))
           == relocs'[j].offset + relocs[j].addend
    {
      ShortenMaps(r.offset, c, relocs[j].offset + relocs[j].addend);
    }
  }

  lemma ShortenMaps(offset: nat, c: Choice, x: nat)
    requires c.Shorten?
    ensures MapPos(x, ShortenEdits(offset, c.data, c.keep, c.drop)) == NewPos(x, offset + c.keep, c.drop)
  {
    var e := ShortenEdits(offset, c.data, c.keep, c.drop);
    assert MapPos(x, e) == MapPos(x, e[1..]);
    assert e[1..] == [e[1]] && [e[1]][1..] == [];
    assert MapPos(x, [e[1]]) == MapPos(NewPos(x, offset + c.keep, c.drop), []);
  }

  /** One turn leaves the section as the next pass needs it. */
  lemma TurnKeepsPlaced(relocs: seq<Reloc>, c: Choice, i: nat, n: nat, again: bool)
    requires i < |relocs| && n < WORD64 && Placed(relocs, n) && SlotsFrom(relocs, i, n) && Allowed(relocs[i].kind, c)
    ensures var t := TurnAt(relocs, c, i, n, again);
      RunFits(n, t.edits) && Placed(t.relocs, RunSize(n, t.edits)) && PadsKept(relocs, t.relocs, t.edits)
  {
    hide RunOffset, RunSize, RunFits, MapPos, SlotsFrom, PadsFrom;
    if Paired(relocs, i) && c.Shorten? {
      SlotInRange(relocs, i, n);
      ShortenFits(relocs, i, n, c);
      ShortenSqueezes(relocs, i, n, c);
      SqueezedPlaced(relocs, ShortenRelocs(relocs, i, n, c), i, n, c.keep, c.drop);
      SqueezedKeeps(relocs, i, n, c);
    } else {
      NoEditsNoChange(n);
      NothingMoves();
      if c.Retag? {
        RetagPlaced(relocs, c, i, n);
      }
    }
  }

  lemma SlotInRange(relocs: seq<Reloc>, i: nat, n: nat)
    requires i < |relocs| && SlotsFrom(relocs, i, n) && Eligible(relocs[i].kind)
    ensures relocs[i].offset + CodeLength(relocs[i].kind) <= n
  {
  }

  lemma NothingMoves()
    ensures forall x: nat :: MapPos(x, []) == x
  {
  }

  lemma RetagPlaced(relocs: seq<Reloc>, c: Choice, i: nat, n: nat)
    requires i < |relocs| && Placed(relocs, n) && Allowed(relocs[i].kind, c) && c.Retag?
    ensures Placed(relocs[i := relocs[i].(kind := c.newKind)], n)
  {
    hide SlotsFrom, PadsFrom, Clear;
    var relocs' := relocs[i := relocs[i].(kind := c.newKind)];
    RetagApart(relocs, relocs', i, n);
    assert forall k :: 0 <= k < |relocs| && (IsAlign(relocs'[k]) || Eligible(relocs'[k].kind)) ==>
           relocs'[k] == relocs[k];
  }

  // A relocation that is neither relaxable nor a directive any more constrains nothing.
  lemma RetagApart(relocs: seq<Reloc>, relocs': seq<Reloc>, i: nat, n: nat)
    requires i < |relocs| == |relocs'| && SlotsFrom(relocs, 0, n) && PadsFrom(relocs, 0, n)
    requires !IsAlign(relocs'[i]) && !Eligible(relocs'[i].kind)
    requires forall k :: 0 <= k < |relocs| && k != i ==> relocs'[k] == relocs[k]
    ensures SlotsFrom(relocs', 0, n) && PadsFrom(relocs', 0, n)
  {
  }

  /** A whole pass 0 leaves the section as the next pass needs it, with every padding behind the
      bytes it was behind. */
  lemma {:induction false} PassKeepsPlaced(relocs: seq<Reloc>, choices: seq<Choice>, i: nat, n: nat, again: bool)
    requires i <= |relocs| && n < WORD64 && Placed(relocs, n) && AllowedFrom(relocs, choices, i)
    ensures SlotsFrom(relocs, i, n)
    ensures var r := ShortenFrom(relocs, choices, i, n, again);
      RunFits(n, r.edits) && Placed(r.relocs, RunSize(n, r.edits)) && PadsKept(relocs, r.relocs, r.edits)
    decreases |relocs| - i
  {
    hide TurnAt, RunFits, RunSize, SlotsFrom, EvenRun, EvenFrom, Placed, PadsKept;
    PlacedSlots(relocs, i, n);
    if i == |relocs| {
      NoEditsNoChange(n);
      NothingKept(relocs);
    } else {
      TurnKeeps(relocs, choices, i, n, again);
      TurnKeepsPlaced(relocs, choices[i], i, n, again);
      var t := TurnAt(relocs, choices[i], i, n, again);
      var size := RunSize(n, t.edits);
      RunSmaller(n, t.edits);
      PassKeepsPlaced(t.relocs, choices, t.next, size, t.again);
      var rest := ShortenFrom(t.relocs, choices, t.next, size, t.again);
      RunFitsAppend(n, t.edits, rest.edits);
      PadsKeptTwice(relocs, t.relocs, rest.relocs, t.edits, rest.edits);
    }
  }

  lemma {:induction false} RunSmaller(n: nat, edits: seq<Edit>)
    requires RunFits(n, edits)
    ensures RunSize(n, edits) <= n
    decreases |edits|
  {
    if |edits| == 0 {
    } else {
      RunSmaller(SizeAfter(n, edits[0]), edits[1..]);
    }
  }

  lemma PlacedSlots(relocs: seq<Reloc>, i: nat, n: nat)
    requires Placed(relocs, n)
    ensures SlotsFrom(relocs, i, n)
  {
    hide PadsFrom;
    SlotsSkip(relocs, 0, i, n);
  }

  lemma NothingKept(relocs: seq<Reloc>)
    ensures PadsKept(relocs, relocs, [])
  {
    NothingMoves();
  }

  lemma PadsKeptTwice(a: seq<Reloc>, b: seq<Reloc>, c: seq<Reloc>, x: seq<Edit>, y: seq<Edit>)
    requires PadsKept(a, b, x) && PadsKept(b, c, y)
    ensures PadsKept(a, c, x + y)
  {
    hide MapPos;
    forall j | 0 <= j < |a| && IsAlign(a[j])
      ensures MapPos(a[j].offset + a[j].addend, x + y) == c[j].offset + a[j].addend
    {
      MapPosAppend(a[j].offset + a[j].addend, x, y);
    }
  }
}
