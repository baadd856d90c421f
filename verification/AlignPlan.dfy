/** Pass 1 of relaxation as a plan of edits: for each R_RISCV_ALIGN in order, how many NOP
    bytes it keeps and what it deletes, and what holds of the section when all are done. */
module AlignPlan {
  import opened Bits
  import opened Buffers
  import opened Relaxation

  datatype RelocKind =
    | NONE | ALIGN | RELAX
    | CALL | CALL_PLT | JAL | RVC_JUMP
    | HI20 | LO12_I | LO12_S | RVC_LUI | GPREL_I | GPREL_S
    | TPREL_HI20 | TPREL_ADD | TPREL_LO12_I | TPREL_LO12_S | TPREL_I | TPREL_S
    | PCREL_HI20 | PCREL_LO12_I
    | OTHER(code: nat)

  datatype Reloc = Reloc(offset: nat, addend: nat, kind: RelocKind)

  datatype Plan = Impossible | Possible(edits: seq<Edit>)

  // The least power of two above the addend.
  function Alignment(addend: nat): (a: nat)
    ensures a > addend
    ensures addend > 0 ==> a <= 2 * addend && a % 2 == 0
    ensures addend == 0 ==> a == 1
  {
    if addend == 0 then 1 else 2 * Alignment(addend / 2)
  }

  lemma {:induction false} AlignmentIsPower(addend: nat) returns (k: nat)
    ensures Alignment(addend) == Pow2(k)
    ensures addend < WORD63 ==> k <= 63
  {
    Pow2Words();
    if addend == 0 {
      k := 0;
    } else {
      var j := AlignmentIsPower(addend / 2);
      k := j + 1;
      if k > 63 {
        Pow2Monotone(64, k);
      }
    }
  }

  /** No smaller power of two exceeds the addend. */
  lemma {:induction false} AlignmentIsLeast(addend: nat, k: nat)
    requires Pow2(k) > addend
    ensures Alignment(addend) <= Pow2(k)
    decreases k
  {
    if addend == 0 {
    } else {
      AlignmentIsLeast(addend / 2, k - 1);
    }
  }

  // ((symval - 1) & ~(alignment - 1)) + alignment, and the distance to it.
  function AlignedAddr(symval: nat, alignment: nat): nat
    requires alignment >= 1
  {
    var below := Sub64(symval, 1);
    Add64(Sub64(below, And(below, alignment - 1)), alignment)
  }

  function NopBytes(symval: nat, addend: nat): nat
  {
    Sub64(AlignedAddr(symval, Alignment(addend)), symval)
  }

  // How far an address is below the next multiple of the alignment an addend asks for.
  function PadTo(address: int, addend: nat): nat
  {
    (-address) % Alignment(addend)
  }

  /** The code's wrapping formula is the distance to the nearest aligned address at or above
      symval, at every address, also where the sum runs over the top of the address space. */
  lemma NopBytesNearest(symval: nat, addend: nat)
    requires symval < WORD64 && addend < WORD63
    ensures NopBytes(symval, addend) == PadTo(symval, addend)
  {
    var q := NearestMultiple(symval, addend);
    PadUnique(symval, NopBytes(symval, addend), addend, q);
  }

  lemma PadUnique(address: int, nops: nat, addend: nat, q: int)
    requires address + nops == Alignment(addend) * q && nops < Alignment(addend)
    ensures nops == PadTo(address, addend)
  {
    hide Alignment;
    Negated(Alignment(addend), q);
    ModUnique(-address, Alignment(addend), -q, nops);
  }

  lemma Negated(a: int, q: int)
    ensures a * -q == -(a * q)
  {
  }

  lemma NearestMultiple(symval: nat, addend: nat) returns (q: nat)
    requires symval < WORD64 && addend < WORD63
    ensures symval + NopBytes(symval, addend) == Alignment(addend) * q
    ensures NopBytes(symval, addend) < Alignment(addend)
  {
    hide *;
    var a := Alignment(addend);
    var k := AlignmentIsPower(addend);
    var t := WordMultiple(a, k);
    var q0, r := NopBytesSplit(symval, addend);
    Remainder(Sub64(symval, 1), a, q0, r);
    WrappedNops(symval, a, r);
    q := MultipleAbove(symval, a, t, q0, r);
  }

  // An alignment divides the size of the address space.
  lemma WordMultiple(a: nat, k: nat) returns (t: nat)
    requires a == Pow2(k) && k <= 63
    ensures t >= 1 && t * a == WORD64 && a <= WORD64
  {
    hide Pow2;
    Pow2Words();
    Pow2Add(64 - k, k);
    t := Pow2(64 - k);
    MulLe(a, 1, t);
  }

  lemma NopBytesSplit(symval: nat, addend: nat) returns (q: nat, r: nat)
    ensures r < Alignment(addend) && Sub64(symval, 1) == Alignment(addend) * q + r
    ensures NopBytes(symval, addend) == Sub64(Add64(Sub64(Sub64(symval, 1), r), Alignment(addend)), symval)
  {
    r := And(Sub64(symval, 1), Alignment(addend) - 1);
    var k := AlignmentIsPower(addend);
    q := MaskSplit(Sub64(symval, 1), Alignment(addend), k, r);
  }

  lemma MaskSplit(x: nat, a: nat, k: nat, r: nat) returns (q: nat)
    requires a == Pow2(k) && r == And(x, a - 1)
    ensures r < a && x == a * q + r
  {
    assert r == x % a by {
      AndMask(x, k);
    }
    q := Quotient(x, a);
  }

  lemma Quotient(x: nat, a: nat) returns (q: nat)
    requires a > 0
    ensures x == a * q + x % a
  {
    q := x / a;
  }

  lemma Remainder(x: nat, a: nat, q: nat, r: nat)
    requires x == a * q + r
    ensures r <= x
  {
    MulLe(a, 0, q);
  }

  // Modulo 2^64 the formula is alignment - 1 - r, whichever of its steps wraps.
  lemma WrappedNops(symval: nat, a: nat, r: nat)
    requires symval < WORD64 && r < a <= WORD64 && r <= Sub64(symval, 1)
    ensures Sub64(Add64(Sub64(Sub64(symval, 1), r), a), symval) == a - 1 - r
  {
    var below := Sub64(symval, 1);
    var wrap := if symval == 0 then 1 else 0;
    ModUnique(symval - 1, WORD64, -wrap, symval - 1 + wrap * WORD64);
    ModUnique(below - r, WORD64, 0, below - r);
    var over := if below - r + a >= WORD64 then 1 else 0;
    ModUnique(below - r + a, WORD64, over, below - r + a - over * WORD64);
    ModUnique(below - r + a - over * WORD64 - symval, WORD64, wrap - over, a - 1 - r);
  }

  lemma MultipleAbove(symval: nat, a: nat, t: nat, q0: nat, r: nat) returns (q: nat)
    requires symval < WORD64 && t >= 1 && t * a == WORD64 && r < a && Sub64(symval, 1) == a * q0 + r
    ensures symval + (a - 1 - r) == a * q
  {
    if symval == 0 {
      LastMultiple(a, t, q0, r);
      q := 0;
    } else {
      q := q0 + 1;
      assert a * q == a * q0 + a;
    }
  }

  lemma LastMultiple(a: nat, t: nat, q: nat, r: nat)
    requires 1 <= t && t * a == WORD64 && r < a && WORD64 - 1 == a * q + r
    ensures a <= WORD64 && r == a - 1
  {
    MulLe(a, 1, t);
    assert a * (t - (q + 1)) == r + 1 - a;
    MulSmall(a, t - (q + 1));
  }

  // 4-byte NOPs (addi x0, x0, 0), little endian.
  function Nops(words: nat): (data: seq<byte>)
    ensures |data| == 4 * words
  {
    if words == 0 then [] else Nops(words - 1) + [0x13, 0, 0, 0]
  }

  /** What is written for n NOP bytes: 4-byte NOPs, then one 2-byte c.nop if n is not a
      multiple of four. */
  function NopData(n: nat): (data: seq<byte>)
    ensures n % 2 == 0 ==> |data| == n
    ensures |data| <= n + 1
  {
    Nops(n / 4) + if n % 4 != 0 then [0x01, 0x00] else []
  }

  /** Word by word: addi x0, x0, 0, and c.nop in the half word that may be left. */
  lemma {:induction false} NopDataWords(n: nat, k: nat)
    requires n % 2 == 0
    ensures |NopData(n)| == n
    ensures k < n / 4 ==> NopData(n)[4 * k..4 * k + 4] == [0x13, 0, 0, 0]
    ensures n % 4 == 2 ==> NopData(n)[n - 2..] == [0x01, 0x00]
  {
    if k < n / 4 {
      NopsAt(n / 4, k);
    }
  }

  lemma {:induction false} NopsAt(words: nat, k: nat)
    requires k < words
    ensures Nops(words)[4 * k..4 * k + 4] == [0x13, 0, 0, 0]
  {
    if k == words - 1 {
    } else {
      NopsAt(words - 1, k);
      assert Nops(words)[4 * k..4 * k + 4] == Nops(words - 1)[4 * k..4 * k + 4];
    }
  }

  function AlignEdits(offset: nat, addend: nat, nops: nat): seq<Edit>
    requires nops <= addend
  {
    if nops == addend then []
    else [Patch(offset, NopData(nops)), Delete(offset + nops, addend - nops)]
  }

  // All relocations after one alignment was handled.
  function MoveRelocs(relocs: seq<Reloc>, n: nat, edits: seq<Edit>): (r: seq<Reloc>)
    requires RunFits(n, edits)
    ensures |r| == |relocs|
    ensures forall k :: 0 <= k < |r| ==> r[k] == relocs[k].(offset := RunOffset(relocs[k].offset, n, edits))
  {
    seq(|relocs|, k requires 0 <= k < |relocs| => relocs[k].(offset := RunOffset(relocs[k].offset, n, edits)))
  }

  predicate IsAlign(r: Reloc) { r.kind == ALIGN }

  // The padding of every remaining directive is inside the section, in order, without overlap.
  predicate PadsFrom(relocs: seq<Reloc>, i: nat, n: nat)
  {
    && (forall j :: i <= j < |relocs| && IsAlign(relocs[j]) ==>
          relocs[j].offset + relocs[j].addend <= n && relocs[j].offset < n)
    && (forall j, k :: i <= j < k < |relocs| && IsAlign(relocs[j]) && IsAlign(relocs[k]) ==>
          relocs[j].offset + relocs[j].addend <= relocs[k].offset)
  }

  lemma AlignEditsFit(relocs: seq<Reloc>, i: nat, n: nat, nops: nat)
    requires i < |relocs| && IsAlign(relocs[i]) && PadsFrom(relocs, i, n) && nops <= relocs[i].addend
    ensures var e := AlignEdits(relocs[i].offset, relocs[i].addend, nops);
      RunFits(n, e) && RunSize(n, e) == n - (relocs[i].addend - nops)
  {
    AlignEditsSize(relocs[i].offset, relocs[i].addend, nops, n);
  }

  // A position behind or at the start of the padding, under the two edits of one directive.
  lemma AlignEditsMove(offset: nat, addend: nat, nops: nat, n: nat, x: nat)
    requires nops <= addend && offset + addend <= n < WORD64 && x <= n && RunFits(n, AlignEdits(offset, addend, nops))
    ensures var e := AlignEdits(offset, addend, nops);
      && (x <= offset + nops ==> MapPos(x, e) == x && RunOffset(x, n, e) == x)
      && (x >= offset + addend ==> MapPos(x, e) == x - (addend - nops))
      && (offset + addend <= x < n ==> RunOffset(x, n, e) == x - (addend - nops))
  {
    if nops < addend {
      PatchThenDeleteFits(n, x, Patch(offset, NopData(nops)), Delete(offset + nops, addend - nops));
    }
  }

  lemma PadsAfter(relocs: seq<Reloc>, i: nat, n: nat, nops: nat)
    requires i < |relocs| && IsAlign(relocs[i]) && PadsFrom(relocs, i, n) && nops <= relocs[i].addend
    requires n < WORD64
    ensures var e := AlignEdits(relocs[i].offset, relocs[i].addend, nops);
      && RunFits(n, e)
      && PadsFrom(MoveRelocs(relocs, n, e), i + 1, RunSize(n, e))
      && (forall j :: i < j < |relocs| && IsAlign(relocs[j]) ==>
            MoveRelocs(relocs, n, e)[j].offset == relocs[j].offset - (relocs[i].addend - nops))
  {
    var r := relocs[i];
    var e := AlignEdits(r.offset, r.addend, nops);
    AlignEditsFit(relocs, i, n, nops);
    forall j | i < j < |relocs| && IsAlign(relocs[j])
      ensures RunOffset(relocs[j].offset, n, e) == relocs[j].offset - (r.addend - nops)
    {
      AlignEditsMove(r.offset, r.addend, nops, n, relocs[j].offset);
    }
  }

  lemma PadsSkip(relocs: seq<Reloc>, i: nat, n: nat)
    requires i < |relocs| && PadsFrom(relocs, i, n)
    ensures PadsFrom(relocs, i + 1, n)
  {
  }

  // NOP bytes a directive needs, from the offset of its padding and its addend.
  type Need = (nat, nat) -> nat

  // The rule of _bfd_riscv_relax_align in a section at address `base`.
  function NeedAt(base: nat): Need
  {
    (offset: nat, addend: nat) => NopBytes(Add64(base, offset), addend)
  }

  /** The edits of pass 1 from relocation i on, or Impossible when some directive has fewer
      padding bytes than its alignment needs. */
  function AlignPlanFrom(relocs: seq<Reloc>, i: nat, need: Need, n: nat): Plan
    requires i <= |relocs| && PadsFrom(relocs, i, n) && n < WORD64
    decreases |relocs| - i
  {
    if i == |relocs| then Possible([])
    else if !IsAlign(relocs[i]) then AlignPlanFrom(relocs, i + 1, need, n)
    else
      var r := relocs[i];
      var nops := need(r.offset, r.addend);
      if r.addend < nops then Impossible
      else
        PadsAfter(relocs, i, n, nops);
        var e := AlignEdits(r.offset, r.addend, nops);
        match AlignPlanFrom(MoveRelocs(relocs, n, e), i + 1, need, RunSize(n, e))
        case Impossible => Impossible
        case Possible(rest) => Possible(e + rest)
  }

  // ---------------------------------------------------------------- what the plan achieves

  lemma {:induction false} PlanFits(relocs: seq<Reloc>, i: nat, need: Need, n: nat)
    requires i <= |relocs| && PadsFrom(relocs, i, n) && n < WORD64
    requires AlignPlanFrom(relocs, i, need, n).Possible?
    ensures RunFits(n, AlignPlanFrom(relocs, i, need, n).edits)
    decreases |relocs| - i
  {
    if i == |relocs| {
    } else {
      if !IsAlign(relocs[i]) {
        PlanFits(relocs, i + 1, need, n);
      } else {
        var r := relocs[i];
        var nops := need(r.offset, r.addend);
        var e := AlignEdits(r.offset, r.addend, nops);
        PadsAfter(relocs, i, n, nops);
        PlanFits(MoveRelocs(relocs, n, e), i + 1, need, RunSize(n, e));
        RunFitsAppend(n, e, AlignPlanFrom(MoveRelocs(relocs, n, e), i + 1, need, RunSize(n, e)).edits);
      }
    }
  }

  // Contents after one directive: prefix, filled padding, suffix.
  ghost predicate StepBytes(s: seq<byte>, s': seq<byte>, offset: nat, addend: nat, nops: nat)
    requires nops <= addend && offset + addend <= |s|
  {
    && |s'| == |s| - (addend - nops)
    && s'[..offset] == s[..offset]
    && s'[offset + nops..] == s[offset + addend..]
    && (nops == addend ==> s' == s)
    && (nops < addend && nops % 2 == 0 ==> s'[offset..offset + nops] == NopData(nops))
  }

  lemma AlignEditsBytes(s: seq<byte>, offset: nat, addend: nat, nops: nat)
    requires nops <= addend && offset + addend <= |s| && RunFits(|s|, AlignEdits(offset, addend, nops))
    ensures StepBytes(s, RunBytes(s, AlignEdits(offset, addend, nops)), offset, addend, nops)
  {
    hide RunBytes, RunSize, RunFits, Splice, DeleteRange;
    var e := AlignEdits(offset, addend, nops);
    if nops == addend {
      NoEdits(s);
    } else {
      PatchThenDelete(s, 0, e[0], e[1]);
      FillThenCut(s, offset, NopData(nops), addend, nops);
    }
  }

  lemma NoEdits(s: seq<byte>)
    ensures RunFits(|s|, []) && RunBytes(s, []) == s
  {
  }

  lemma FillThenCut(s: seq<byte>, offset: nat, data: seq<byte>, addend: nat, nops: nat)
    requires nops <= addend && |data| <= addend && offset + addend <= |s|
    ensures var t := DeleteRange(Splice(s, offset, data), offset + nops, addend - nops);
      && t[..offset] == s[..offset]
      && (|data| <= nops + 1 ==> t[offset + nops..] == s[offset + addend..])
      && (|data| == nops ==> t[offset..offset + nops] == data)
  {
  }

  /** One directive's share of the plan, seen from outside: its padding shrinks to `nops`
      bytes, what is before stays, what is behind moves down as a whole, and the rest of the
      plan runs on the result. */
  lemma PlanStep(relocs: seq<Reloc>, i: nat, need: Need, s: seq<byte>)
    returns (relocs': seq<Reloc>, s': seq<byte>, rest: seq<Edit>)
    requires i < |relocs| && IsAlign(relocs[i]) && PadsFrom(relocs, i, |s|) && |s| < WORD64
    requires AlignPlanFrom(relocs, i, need, |s|).Possible?
    ensures need(relocs[i].offset, relocs[i].addend) <= relocs[i].addend
    ensures relocs[i].offset + relocs[i].addend <= |s|
    ensures StepBytes(s, s', relocs[i].offset, relocs[i].addend, need(relocs[i].offset, relocs[i].addend))
    ensures StepRuns(s, s', relocs[i].offset, relocs[i].addend, need(relocs[i].offset, relocs[i].addend), rest)
    ensures |s'| == |s| - (relocs[i].addend - need(relocs[i].offset, relocs[i].addend))
    ensures |relocs'| == |relocs| && PadsFrom(relocs', i + 1, |s'|)
    ensures AlignPlanFrom(relocs', i + 1, need, |s'|) == Possible(rest) && RunFits(|s'|, rest)
    ensures AlignPlanFrom(relocs, i, need, |s|)
         == Possible(AlignEdits(relocs[i].offset, relocs[i].addend, need(relocs[i].offset, relocs[i].addend)) + rest)
    ensures forall j :: 0 <= j < |relocs| ==> relocs'[j].kind == relocs[j].kind
    ensures forall j :: i < j < |relocs| && IsAlign(relocs[j]) ==>
              && relocs[i].offset + relocs[i].addend <= relocs[j].offset < |s|
              && relocs[j].offset + relocs[j].addend <= |s|
              && relocs'[j] == relocs[j].(offset := relocs[j].offset - (|s| - |s'|))
  {
    var r, n := relocs[i], |s|;
    var nops := need(r.offset, r.addend);
    var e := AlignEdits(r.offset, r.addend, nops);
    PadsAfter(relocs, i, n, nops);
    relocs', s' := MoveRelocs(relocs, n, e), RunBytes(s, e);
    rest := AlignPlanFrom(relocs', i + 1, need, |s'|).edits;
    PlanFits(relocs', i + 1, need, |s'|);
    RunAppend(s, e, rest);
    AlignEditsBytes(s, r.offset, r.addend, nops);
  }

  // The whole plan on the contents is the rest of the plan on the result of the step.
  ghost predicate StepRuns(s: seq<byte>, s': seq<byte>, offset: nat, addend: nat, nops: nat, rest: seq<Edit>)
    requires nops <= addend
  {
    && RunFits(|s'|, rest)
    && RunFits(|s|, AlignEdits(offset, addend, nops) + rest)
    && RunBytes(s, AlignEdits(offset, addend, nops) + rest) == RunBytes(s', rest)
  }

  // A directive's own edits leave a relocation at or before the kept padding, and move one behind it.
  lemma OffsetBefore(offset: nat, addend: nat, nops: nat, n: nat, y: nat, rest: seq<Edit>)
    requires nops <= addend && offset + addend <= n < WORD64
    requires RunFits(n, AlignEdits(offset, addend, nops)) && RunFits(n - (addend - nops), rest)
    requires y <= offset + nops
    ensures RunFits(n, AlignEdits(offset, addend, nops) + rest)
    ensures RunOffset(y, n, AlignEdits(offset, addend, nops) + rest) == RunOffset(y, n - (addend - nops), rest)
  {
    AlignEditsSize(offset, addend, nops, n);
    AlignEditsMove(offset, addend, nops, n, y);
    RunOffsetAppend(y, n, AlignEdits(offset, addend, nops), rest);
  }

  lemma OffsetBehind(offset: nat, addend: nat, nops: nat, n: nat, y: nat, rest: seq<Edit>)
    requires nops <= addend && offset + addend <= n < WORD64
    requires RunFits(n, AlignEdits(offset, addend, nops)) && RunFits(n - (addend - nops), rest)
    requires offset + addend <= y < n
    ensures RunFits(n, AlignEdits(offset, addend, nops) + rest)
    ensures RunOffset(y, n, AlignEdits(offset, addend, nops) + rest)
         == RunOffset(y - (addend - nops), n - (addend - nops), rest)
  {
    AlignEditsSize(offset, addend, nops, n);
    AlignEditsMove(offset, addend, nops, n, y);
    RunOffsetAppend(y, n, AlignEdits(offset, addend, nops), rest);
  }

  lemma PlaceBefore(offset: nat, addend: nat, nops: nat, n: nat, y: nat, rest: seq<Edit>)
    requires nops <= addend && offset + addend <= n < WORD64
    requires RunFits(n, AlignEdits(offset, addend, nops)) && RunFits(n - (addend - nops), rest)
    requires y <= offset + nops
    ensures MapPos(y, AlignEdits(offset, addend, nops) + rest) == MapPos(y, rest)
  {
    AlignEditsMove(offset, addend, nops, n, y);
    MapPosAppend(y, AlignEdits(offset, addend, nops), rest);
  }

  lemma PlaceBehind(offset: nat, addend: nat, nops: nat, n: nat, y: nat, rest: seq<Edit>)
    requires nops <= addend && offset + addend <= n < WORD64
    requires RunFits(n, AlignEdits(offset, addend, nops)) && RunFits(n - (addend - nops), rest)
    requires offset + addend <= y <= n
    ensures MapPos(y, AlignEdits(offset, addend, nops) + rest) == MapPos(y - (addend - nops), rest)
  {
    AlignEditsMove(offset, addend, nops, n, y);
    MapPosAppend(y, AlignEdits(offset, addend, nops), rest);
  }

  lemma AlignEditsSize(offset: nat, addend: nat, nops: nat, n: nat)
    requires nops <= addend && offset + addend <= n
    ensures RunFits(n, AlignEdits(offset, addend, nops))
    ensures RunSize(n, AlignEdits(offset, addend, nops)) == n - (addend - nops)
  {
    if nops < addend {
      PatchThenDeleteFits(n, 0, Patch(offset, NopData(nops)), Delete(offset + nops, addend - nops));
    }
  }

  // The edits leave everything up to position x as it is.
  ghost predicate SettledAt(s: seq<byte>, x: nat, edits: seq<Edit>)
  {
    && x <= |s| && RunFits(|s|, edits) && x <= RunSize(|s|, edits)
    && MapPos(x, edits) == x
    && RunBytes(s, edits)[..x] == s[..x]
    && (forall y :: 0 <= y <= x ==> RunOffset(y, |s|, edits) == y)
  }

  /** Later alignments never disturb what lies at or before their padding. */
  lemma {:induction false} Settled(relocs: seq<Reloc>, i: nat, need: Need, s: seq<byte>, x: nat)
    requires i <= |relocs| && PadsFrom(relocs, i, |s|) && |s| < WORD64 && x <= |s|
    requires AlignPlanFrom(relocs, i, need, |s|).Possible?
    requires forall j :: i <= j < |relocs| && IsAlign(relocs[j]) ==> x <= relocs[j].offset
    ensures SettledAt(s, x, AlignPlanFrom(relocs, i, need, |s|).edits)
    decreases |relocs| - i
  {
    hide StepBytes, StepRuns, AlignEdits, MoveRelocs;
    if i == |relocs| {
    } else if !IsAlign(relocs[i]) {
      Settled(relocs, i + 1, need, s, x);
    } else {
      SettledStep(relocs, i, need, s, x);
    }
  }

  lemma {:induction false} SettledStep(relocs: seq<Reloc>, i: nat, need: Need, s: seq<byte>, x: nat)
    requires i < |relocs| && IsAlign(relocs[i]) && PadsFrom(relocs, i, |s|) && |s| < WORD64 && x <= |s|
    requires AlignPlanFrom(relocs, i, need, |s|).Possible?
    requires forall j :: i <= j < |relocs| && IsAlign(relocs[j]) ==> x <= relocs[j].offset
    ensures SettledAt(s, x, AlignPlanFrom(relocs, i, need, |s|).edits)
    decreases |relocs| - i, 0
  {
    hide SettledAt, AlignPlanFrom, StepBytes, StepRuns, AlignEdits, RunFits, RunBytes, RunSize;
    var relocs', s', rest := PlanStep(relocs, i, need, s);
    Settled(relocs', i + 1, need, s', x);
    SettledBefore(s, s', relocs[i], need(relocs[i].offset, relocs[i].addend), rest, x);
  }

  lemma SettledBefore(s: seq<byte>, s': seq<byte>, r: Reloc, nops: nat, rest: seq<Edit>, x: nat)
    requires nops <= r.addend && r.offset + r.addend <= |s| < WORD64 && x <= r.offset
    requires StepBytes(s, s', r.offset, r.addend, nops) && StepRuns(s, s', r.offset, r.addend, nops, rest)
    requires SettledAt(s', x, rest)
    ensures SettledAt(s, x, AlignEdits(r.offset, r.addend, nops) + rest)
  {
    hide AlignEdits, RunBytes, RunFits, RunOffset, MapPos, RunSize, NopData;
    assert s'[..x] == s'[..r.offset][..x] == s[..r.offset][..x] == s[..x];
    AlignEditsSize(r.offset, r.addend, nops, |s|);
    PlaceBefore(r.offset, r.addend, nops, |s|, x, rest);
    forall y | 0 <= y <= x
      ensures RunOffset(y, |s|, AlignEdits(r.offset, r.addend, nops) + rest) == RunOffset(y, |s'|, rest)
    {
      OffsetBefore(r.offset, r.addend, nops, |s|, y, rest);
    }
  }

  // After the pass: the padding of r starts at `start`, its old end is at `end`.
  ghost predicate PadIsRight(s: seq<byte>, t: seq<byte>, r: Reloc, start: nat, end: nat, need: Need)
  {
    && need(start, r.addend) <= r.addend && end == start + need(start, r.addend) <= |t|
    && r.offset + r.addend <= |s|
    && (end - start == r.addend ==> t[start..end] == s[r.offset..r.offset + r.addend])
    && (end - start < r.addend && (end - start) % 2 == 0 ==> t[start..end] == NopData(end - start))
  }

  ghost predicate AlignedBy(s: seq<byte>, edits: seq<Edit>, r: Reloc, need: Need)
  {
    && RunFits(|s|, edits)
    && PadIsRight(s, RunBytes(s, edits), r, RunOffset(r.offset, |s|, edits), MapPos(r.offset + r.addend, edits), need)
  }

  lemma MakeAligned(s: seq<byte>, edits: seq<Edit>, t: seq<byte>, r: Reloc, start: nat, end: nat, need: Need)
    requires RunFits(|s|, edits) && t == RunBytes(s, edits)
    requires start == RunOffset(r.offset, |s|, edits) && end == MapPos(r.offset + r.addend, edits)
    requires PadIsRight(s, t, r, start, end, need)
    ensures AlignedBy(s, edits, r, need)
  {
  }

  lemma AlignedMeans(s: seq<byte>, edits: seq<Edit>, r: Reloc, need: Need)
    requires AlignedBy(s, edits, r, need)
    ensures RunFits(|s|, edits)
    ensures PadIsRight(s, RunBytes(s, edits), r, RunOffset(r.offset, |s|, edits), MapPos(r.offset + r.addend, edits),
             need)
  {
  }

  /** Every directive of the section at once: after the whole pass its relocation sits at the
      start of its padding, the position that was the end of its padding is exactly the needed
      number of NOP bytes further on, and the bytes between are NOPs (or, where nothing had to
      go, the assembler's own padding). */
  lemma {:induction false} PlanAligns(relocs: seq<Reloc>, i: nat, need: Need, s: seq<byte>, j: nat)
    requires i <= j < |relocs| && IsAlign(relocs[j]) && PadsFrom(relocs, i, |s|) && |s| < WORD64
    requires AlignPlanFrom(relocs, i, need, |s|).Possible?
    ensures AlignedBy(s, AlignPlanFrom(relocs, i, need, |s|).edits, relocs[j], need)
    decreases |relocs| - i
  {
    if !IsAlign(relocs[i]) {
      PlanAligns(relocs, i + 1, need, s, j);
    } else {
      PlanAlignsFrom(relocs, i, need, s, j);
    }
  }

  lemma {:induction false} PlanAlignsFrom(relocs: seq<Reloc>, i: nat, need: Need, s: seq<byte>, j: nat)
    requires i <= j < |relocs| && IsAlign(relocs[i]) && IsAlign(relocs[j])
    requires PadsFrom(relocs, i, |s|) && |s| < WORD64
    requires AlignPlanFrom(relocs, i, need, |s|).Possible?
    ensures AlignedBy(s, AlignPlanFrom(relocs, i, need, |s|).edits, relocs[j], need)
    decreases |relocs| - i, 0
  {
    hide AlignPlanFrom, AlignEdits, PadsFrom, AlignedBy, StepBytes, StepRuns, SettledAt, RunFits;
    var relocs', s', rest := PlanStep(relocs, i, need, s);
    if i == j {
      Settled(relocs', i + 1, need, s', relocs[i].offset + need(relocs[i].offset, relocs[i].addend));
      FirstAligned(s, s', relocs[i], rest, need);
    } else {
      PlanAligns(relocs', i + 1, need, s', j);
      LaterAligned(s, s', relocs[i], rest, relocs[j], relocs'[j], need);
    }
  }

  lemma StepMeans(s: seq<byte>, s': seq<byte>, offset: nat, addend: nat, nops: nat, rest: seq<Edit>)
    requires nops <= addend && offset + addend <= |s|
    requires StepBytes(s, s', offset, addend, nops) && StepRuns(s, s', offset, addend, nops, rest)
    ensures |s'| == |s| - (addend - nops) && RunFits(|s'|, rest)
    ensures RunFits(|s|, AlignEdits(offset, addend, nops))
    ensures RunFits(|s|, AlignEdits(offset, addend, nops) + rest)
    ensures RunBytes(s, AlignEdits(offset, addend, nops) + rest) == RunBytes(s', rest)
  {
    AlignEditsSize(offset, addend, nops, |s|);
  }

  lemma SettledMeans(s: seq<byte>, x: nat, y: nat, edits: seq<Edit>)
    requires SettledAt(s, x, edits) && y <= x
    ensures x <= |s| && RunFits(|s|, edits) && x <= |RunBytes(s, edits)|
    ensures MapPos(x, edits) == x && RunBytes(s, edits)[..x] == s[..x] && RunOffset(y, |s|, edits) == y
  {
  }

  lemma FirstAligned(s: seq<byte>, s': seq<byte>, r: Reloc, rest: seq<Edit>, need: Need)
    requires need(r.offset, r.addend) <= r.addend && r.offset + r.addend <= |s| < WORD64
    requires StepBytes(s, s', r.offset, r.addend, need(r.offset, r.addend))
    requires StepRuns(s, s', r.offset, r.addend, need(r.offset, r.addend), rest)
    requires SettledAt(s', r.offset + need(r.offset, r.addend), rest)
    ensures AlignedBy(s, AlignEdits(r.offset, r.addend, need(r.offset, r.addend)) + rest, r, need)
  {
    hide *;
    var nops := need(r.offset, r.addend);
    StepMeans(s, s', r.offset, r.addend, nops, rest);
    SettledMeans(s', r.offset + nops, r.offset, rest);
    OffsetBefore(r.offset, r.addend, nops, |s|, r.offset, rest);
    PlaceBehind(r.offset, r.addend, nops, |s|, r.offset + r.addend, rest);
    FirstPad(s, s', RunBytes(s', rest), r, nops, need);
    MakeAligned(s, AlignEdits(r.offset, r.addend, nops) + rest, RunBytes(s', rest), r, r.offset, r.offset + nops, need);
  }

  lemma LaterAligned(s: seq<byte>, s': seq<byte>, r: Reloc, rest: seq<Edit>, later: Reloc, later': Reloc, need: Need)
    requires need(r.offset, r.addend) <= r.addend && r.offset + r.addend <= |s| < WORD64
    requires StepBytes(s, s', r.offset, r.addend, need(r.offset, r.addend))
    requires StepRuns(s, s', r.offset, r.addend, need(r.offset, r.addend), rest)
    requires r.offset + r.addend <= later.offset < |s| && later.offset + later.addend <= |s|
    requires |s'| == |s| - (r.addend - need(r.offset, r.addend))
    requires later' == later.(offset := later.offset - (|s| - |s'|))
    requires AlignedBy(s', rest, later', need)
    ensures AlignedBy(s, AlignEdits(r.offset, r.addend, need(r.offset, r.addend)) + rest, later, need)
  {
    hide *;
    var nops := need(r.offset, r.addend);
    StepMeans(s, s', r.offset, r.addend, nops, rest);
    var t := RunBytes(s', rest);
    var start, end := RunOffset(later'.offset, |s'|, rest), MapPos(later'.offset + later'.addend, rest);
    AlignedMeans(s', rest, later', need);
    OffsetBehind(r.offset, r.addend, nops, |s|, later.offset, rest);
    PlaceBehind(r.offset, r.addend, nops, |s|, later.offset + later.addend, rest);
    LaterPad(s, s', t, r.offset, r.addend, nops, later, later', start, end, need);
    MakeAligned(s, AlignEdits(r.offset, r.addend, nops) + rest, t, later, start, end, need);
  }

  lemma FirstPad(s: seq<byte>, s': seq<byte>, t: seq<byte>, r: Reloc, nops: nat, need: Need)
    requires nops == need(r.offset, r.addend) <= r.addend && r.offset + r.addend <= |s|
    requires StepBytes(s, s', r.offset, r.addend, nops)
    requires r.offset + nops <= |t| && t[..r.offset + nops] == s'[..r.offset + nops]
    ensures PadIsRight(s, t, r, r.offset, r.offset + nops, need)
  {
    var x := r.offset + nops;
    assert t[r.offset..x] == t[..x][r.offset..];
    assert s'[r.offset..x] == s'[..x][r.offset..];
  }

  // The padding of a later directive is the same bytes, moved down as a whole.
  lemma LaterPad(s: seq<byte>, s': seq<byte>, t: seq<byte>, offset: nat, addend: nat, nops: nat,
                 r: Reloc, r': Reloc, start: nat, end: nat, need: Need)
    requires nops <= addend && offset + addend <= r.offset && r.offset + r.addend <= |s|
    requires r' == r.(offset := r.offset - (addend - nops))
    requires StepBytes(s, s', offset, addend, nops)
    requires PadIsRight(s', t, r', start, end, need)
    ensures PadIsRight(s, t, r, start, end, need)
  {
    SliceOfTail(s', offset + nops, r'.offset, r'.offset + r.addend);
    SliceOfTail(s, offset + addend, r.offset, r.offset + r.addend);
  }

  lemma SliceOfTail(s: seq<byte>, p: nat, lo: nat, hi: nat)
    requires p <= lo <= hi <= |s|
    ensures s[lo..hi] == s[p..][lo - p..hi - p]
  {
  }

  // ---------------------------------------------------------------- the pass at its real addresses

  lemma Below63(n: nat)
    requires n < WORD63
    ensures n < WORD64
  {
  }

  /** All alignment directives hold at once when the pass succeeds: the code after each padding
      starts at a multiple of the least power of two above the addend, at the nearest such
      address at or after the padding's start. */
  lemma DirectiveHolds(relocs: seq<Reloc>, base: nat, s: seq<byte>, j: nat)
    requires j < |relocs| && IsAlign(relocs[j]) && PadsFrom(relocs, 0, |s|) && |s| < WORD63
    requires AlignPlanFrom(relocs, 0, NeedAt(base), |s|).Possible?
    ensures var edits := AlignPlanFrom(relocs, 0, NeedAt(base), |s|).edits;
      && RunFits(|s|, edits)
      && var start, end := RunOffset(relocs[j].offset, |s|, edits), MapPos(relocs[j].offset + relocs[j].addend, edits);
      && start <= end <= RunSize(|s|, edits)
      && (base + end) % Alignment(relocs[j].addend) == 0
      && end - start < Alignment(relocs[j].addend) && end - start <= relocs[j].addend
  {
    hide *;
    Below63(|s|);
    PlanAligns(relocs, 0, NeedAt(base), s, j);
    var edits := AlignPlanFrom(relocs, 0, NeedAt(base), |s|).edits;
    AlignedMeans(s, edits, relocs[j], NeedAt(base));
    var start, end := RunOffset(relocs[j].offset, |s|, edits), MapPos(relocs[j].offset + relocs[j].addend, edits);
    PadMeans(s, RunBytes(s, edits), relocs[j], start, end, NeedAt(base));
    NeedNearest(base, start, relocs[j].addend);
  }

  lemma PadMeans(s: seq<byte>, t: seq<byte>, r: Reloc, start: nat, end: nat, need: Need)
    requires PadIsRight(s, t, r, start, end, need)
    ensures need(start, r.addend) <= r.addend <= |s| && end == start + need(start, r.addend) <= |t|
  {
  }

  lemma NeedNearest(base: nat, offset: nat, addend: nat)
    requires addend < WORD63
    ensures (base + offset + NeedAt(base)(offset, addend)) % Alignment(addend) == 0
    ensures NeedAt(base)(offset, addend) < Alignment(addend)
    ensures NeedAt(base)(offset, addend) == PadTo(base + offset, addend)
  {
    hide NopBytes, Alignment, NeedAt;
    var q := NeedMultiple(base, offset, addend);
    ModUnique(base + offset + NeedAt(base)(offset, addend), Alignment(addend), q, 0);
    PadUnique(base + offset, NeedAt(base)(offset, addend), addend, q);
  }

  // Addresses, offsets and padding sizes are multiples of the size of the smallest instruction:
  // 2 bytes in compressed code, 4 bytes otherwise.
  predicate GrainPads(relocs: seq<Reloc>, i: nat, base: nat, g: nat)
    requires g > 0
  {
    base % g == 0
    && forall j :: i <= j < |relocs| && IsAlign(relocs[j]) ==> relocs[j].offset % g == 0 && relocs[j].addend % g == 0
  }

  lemma NeedIsGrain(base: nat, offset: nat, addend: nat, g: nat)
    requires g in {2, 4} && base % g == 0 && offset % g == 0 && addend % g == 0 && addend < WORD63
    ensures NeedAt(base)(offset, addend) % g == 0
    ensures addend + g >= Alignment(addend) ==> NeedAt(base)(offset, addend) <= addend
  {
    hide *;
    var q := NeedMultiple(base, offset, addend);
    NoAlignment();
    if addend > 0 {
      GrainDivides(addend, g);
      GrainSum(base, offset, g);
      GrainLeft(base + offset, NeedAt(base)(offset, addend), Alignment(addend), q, g);
    }
  }

  lemma NoAlignment()
    ensures Alignment(0) == 1
  {
  }

  lemma GrainSum(x: nat, y: nat, g: nat)
    requires g in {2, 4} && x % g == 0 && y % g == 0
    ensures (x + y) % g == 0
  {
  }

  lemma GrainDivides(addend: nat, g: nat)
    requires g in {2, 4} && addend % g == 0 && addend > 0
    ensures Alignment(addend) % g == 0
  {
    if g == 4 {
      FourDivides(addend);
    }
  }

  lemma FourDivides(addend: nat)
    requires addend % 4 == 0 && addend > 0
    ensures Alignment(addend) % 4 == 0
  {
    hide Alignment;
    AlignmentDoubled(addend);
    TwiceEven(Alignment(addend / 2));
  }

  lemma AlignmentDoubled(addend: nat)
    requires addend > 0
    ensures Alignment(addend) == 2 * Alignment(addend / 2)
  {
  }

  lemma TwiceEven(x: nat)
    requires x % 2 == 0
    ensures 2 * x % 4 == 0
  {
  }

  lemma GrainLeft(address: nat, nops: nat, a: nat, q: nat, g: nat)
    requires g in {2, 4} && address % g == 0 && a % g == 0 && address + nops == a * q && nops < a
    ensures nops % g == 0 && nops + g <= a
  {
    var h := a / g;
    assert a == g * h;
    assert a * q == g * (h * q);
    if g == 2 {
      LeftOfTwo(address, nops, a, h * q);
    } else {
      LeftOfFour(address, nops, a, h * q);
    }
  }

  lemma LeftOfTwo(address: nat, nops: nat, a: nat, m: int)
    requires address % 2 == 0 && a % 2 == 0 && address + nops == 2 * m && nops < a
    ensures nops % 2 == 0 && nops + 2 <= a
  {
  }

  lemma LeftOfFour(address: nat, nops: nat, a: nat, m: int)
    requires address % 4 == 0 && a % 4 == 0 && address + nops == 4 * m && nops < a
    ensures nops % 4 == 0 && nops + 4 <= a
  {
  }

  lemma NeedMultiple(base: nat, offset: nat, addend: nat) returns (q: nat)
    requires addend < WORD63
    ensures base + offset + NeedAt(base)(offset, addend) == Alignment(addend) * q
    ensures NeedAt(base)(offset, addend) < Alignment(addend)
  {
    hide NopBytes, Alignment;
    var k := AlignmentIsPower(addend);
    var t := WordMultiple(Alignment(addend), k);
    var q0 := NearestMultiple(Add64(base, offset), addend);
    q := AcrossWraps(base + offset, NopBytes(Add64(base, offset), addend), Alignment(addend), t, q0);
  }

  lemma AcrossWraps(address: nat, nops: nat, a: nat, t: nat, q0: nat) returns (q: nat)
    requires t * a == WORD64 && address % WORD64 + nops == a * q0
    ensures address + nops == a * q
  {
    var c := address / WORD64;
    q := q0 + t * c;
    calc {
      a * q;
      a * q0 + a * (t * c);
      a * q0 + (t * a) * c;
      a * q0 + WORD64 * c;
    }
  }

  lemma GrainAfter(relocs: seq<Reloc>, relocs': seq<Reloc>, i: nat, base: nat, d: nat, g: nat)
    requires g in {2, 4} && i < |relocs| == |relocs'| && GrainPads(relocs, i, base, g) && d % g == 0
    requires forall j :: 0 <= j < |relocs| ==> relocs'[j].kind == relocs[j].kind
    requires forall j :: i < j < |relocs| && IsAlign(relocs[j]) ==>
               relocs[j].offset >= d && relocs'[j] == relocs[j].(offset := relocs[j].offset - d)
    ensures GrainPads(relocs', i + 1, base, g)
  {
    forall j | i < j < |relocs| && IsAlign(relocs'[j])
      ensures relocs'[j].offset % g == 0 && relocs'[j].addend % g == 0
    {
      assert IsAlign(relocs[j]);
      GrainDifference(relocs[j].offset, d, g);
    }
  }

  /** In even code the pass deletes only even ranges, so jumps that fit keep fitting. */
  lemma {:induction false} PlanIsEven(relocs: seq<Reloc>, i: nat, base: nat, s: seq<byte>)
    requires i <= |relocs| && PadsFrom(relocs, i, |s|) && |s| < WORD63 && GrainPads(relocs, i, base, 2)
    requires AlignPlanFrom(relocs, i, NeedAt(base), |s|).Possible?
    ensures EvenRun(AlignPlanFrom(relocs, i, NeedAt(base), |s|).edits)
    decreases |relocs| - i
  {
    if i == |relocs| {
    } else if !IsAlign(relocs[i]) {
      PlanIsEven(relocs, i + 1, base, s);
    } else {
      PlanIsEvenFrom(relocs, i, base, s);
    }
  }

  lemma {:induction false} PlanIsEvenFrom(relocs: seq<Reloc>, i: nat, base: nat, s: seq<byte>)
    requires i < |relocs| && IsAlign(relocs[i])
    requires PadsFrom(relocs, i, |s|) && |s| < WORD63 && GrainPads(relocs, i, base, 2)
    requires AlignPlanFrom(relocs, i, NeedAt(base), |s|).Possible?
    ensures EvenRun(AlignPlanFrom(relocs, i, NeedAt(base), |s|).edits)
    decreases |relocs| - i, 0
  {
    hide AlignPlanFrom, RunFits, RunBytes, RunSize, StepBytes, StepRuns, NopBytes, AlignEdits, NeedAt, EvenRun;
    var r := relocs[i];
    var relocs', s', rest := PlanStep(relocs, i, NeedAt(base), s);
    NeedIsGrain(base, r.offset, r.addend, 2);
    var nops := NeedAt(base)(r.offset, r.addend);
    GrainAfter(relocs, relocs', i, base, r.addend - nops, 2);
    PlanIsEven(relocs', i + 1, base, s');
    EvenStep(r.offset, r.addend, nops, rest);
  }

  lemma EvenStep(offset: nat, addend: nat, nops: nat, rest: seq<Edit>)
    requires nops <= addend && offset % 2 == 0 && addend % 2 == 0 && nops % 2 == 0 && EvenRun(rest)
    ensures EvenRun(AlignEdits(offset, addend, nops) + rest)
  {
    hide NopData;
    var e := AlignEdits(offset, addend, nops);
    assert EvenRun(e);
    assert forall x :: x in e + rest ==> x in e || x in rest;
  }

  /** When the assembler pads with the alignment less one smallest instruction, as it does with
      and without compressed code, the pass cannot fail. */
  lemma {:induction false} PaddingSuffices(relocs: seq<Reloc>, i: nat, base: nat, n: nat, g: nat)
    requires g in {2, 4} && i <= |relocs| && PadsFrom(relocs, i, n) && n < WORD63 && GrainPads(relocs, i, base, g)
    requires forall j :: i <= j < |relocs| && IsAlign(relocs[j]) ==> relocs[j].addend + g >= Alignment(relocs[j].addend)
    ensures AlignPlanFrom(relocs, i, NeedAt(base), n).Possible?
    decreases |relocs| - i
  {
    if i == |relocs| {
    } else if !IsAlign(relocs[i]) {
      PaddingSuffices(relocs, i + 1, base, n, g);
    } else {
      PaddingStep(relocs, i, base, n, g);
    }
  }

  lemma {:induction false} PaddingStep(relocs: seq<Reloc>, i: nat, base: nat, n: nat, g: nat)
    requires g in {2, 4} && i < |relocs| && IsAlign(relocs[i])
    requires PadsFrom(relocs, i, n) && n < WORD63 && GrainPads(relocs, i, base, g)
    requires forall j :: i <= j < |relocs| && IsAlign(relocs[j]) ==> relocs[j].addend + g >= Alignment(relocs[j].addend)
    ensures AlignPlanFrom(relocs, i, NeedAt(base), n).Possible?
    decreases |relocs| - i, 0
  {
    hide AlignPlanFrom, RunFits, RunSize, RunOffset, NopBytes, Alignment, AlignEdits, NeedAt;
    var r := relocs[i];
    NeedIsGrain(base, r.offset, r.addend, g);
    var nops := NeedAt(base)(r.offset, r.addend);
    var e := AlignEdits(r.offset, r.addend, nops);
    PadsAfter(relocs, i, n, nops);
    AlignEditsSize(r.offset, r.addend, nops, n);
    var relocs' := MoveRelocs(relocs, n, e);
    GrainDifference(r.addend, nops, g);
    GrainAfter(relocs, relocs', i, base, r.addend - nops, g);
    PaddingSuffices(relocs', i + 1, base, RunSize(n, e), g);
    PossibleStep(relocs, i, NeedAt(base), n);
  }

  lemma GrainDifference(x: nat, y: nat, g: nat)
    requires g in {2, 4} && x % g == 0 && y % g == 0 && y <= x
    ensures (x - y) % g == 0
  {
  }

  // The test a reader would make by hand: each padding, moved down by what the ones before it
  // lost, must reach the next aligned address.
  predicate PadsReach(relocs: seq<Reloc>, i: nat, base: nat, lost: nat)
    requires i <= |relocs|
    decreases |relocs| - i
  {
    if i == |relocs| then true
    else if !IsAlign(relocs[i]) then PadsReach(relocs, i + 1, base, lost)
    else
      var r := relocs[i];
      var pad := PadTo(base + r.offset - lost, r.addend);
      pad <= r.addend && PadsReach(relocs, i + 1, base, lost + (r.addend - pad))
  }

  /** Pass 1 succeeds exactly when every padding reaches its aligned address. */
  lemma PlanExists(relocs: seq<Reloc>, base: nat, n: nat)
    requires PadsFrom(relocs, 0, n) && n < WORD63
    ensures AlignPlanFrom(relocs, 0, NeedAt(base), n).Possible? <==> PadsReach(relocs, 0, base, 0)
  {
    PlanExistsFrom(relocs, relocs, 0, base, 0, n);
  }

  // `moved` is the list pass 1 sees at relocation i, `lost` what it has deleted so far.
  lemma {:induction false} PlanExistsFrom(relocs: seq<Reloc>, moved: seq<Reloc>, i: nat, base: nat, lost: nat, n: nat)
    requires i <= |relocs| == |moved| && PadsFrom(moved, i, n) && n < WORD63
    requires forall j :: i <= j < |relocs| ==> (IsAlign(moved[j]) <==> IsAlign(relocs[j]))
    requires forall j :: i <= j < |relocs| && IsAlign(relocs[j]) ==>
               moved[j].offset + lost == relocs[j].offset && moved[j].addend == relocs[j].addend
    ensures AlignPlanFrom(moved, i, NeedAt(base), n).Possible? <==> PadsReach(relocs, i, base, lost)
    decreases |relocs| - i
  {
    hide RunFits, RunSize, RunOffset, NopBytes, Alignment, AlignEdits, NeedAt, PadTo;
    if i == |relocs| {
    } else if !IsAlign(relocs[i]) {
      PlanExistsFrom(relocs, moved, i + 1, base, lost, n);
    } else {
      var r := moved[i];
      NeedNearest(base, r.offset, r.addend);
      var nops := NeedAt(base)(r.offset, r.addend);
      assert nops == PadTo(base + relocs[i].offset - lost, relocs[i].addend);
      if nops <= r.addend {
        PadsAfter(moved, i, n, nops);
        AlignEditsSize(r.offset, r.addend, nops, n);
        var e := AlignEdits(r.offset, r.addend, nops);
        PlanExistsFrom(relocs, MoveRelocs(moved, n, e), i + 1, base, lost + (r.addend - nops), RunSize(n, e));
      }
    }
  }

  lemma PossibleStep(relocs: seq<Reloc>, i: nat, need: Need, n: nat)
    requires i < |relocs| && IsAlign(relocs[i]) && PadsFrom(relocs, i, n) && n < WORD64
    requires need(relocs[i].offset, relocs[i].addend) <= relocs[i].addend
    requires var e := AlignEdits(relocs[i].offset, relocs[i].addend, need(relocs[i].offset, relocs[i].addend));
      RunFits(n, e) && PadsFrom(MoveRelocs(relocs, n, e), i + 1, RunSize(n, e))
      && AlignPlanFrom(MoveRelocs(relocs, n, e), i + 1, need, RunSize(n, e)).Possible?
    ensures AlignPlanFrom(relocs, i, need, n).Possible?
  {
  }

  lemma {:induction false} RunOffsetEven(x: nat, n: nat, edits: seq<Edit>)
    requires RunFits(n, edits) && EvenRun(edits) && x % 2 == 0
    ensures RunOffset(x, n, edits) % 2 == 0
    decreases |edits|
  {
    hide *;
    OffsetFirst(x, n, edits);
    if |edits| == 0 {
    } else {
      EvenFirst(x, n, edits);
      RunOffsetEven(EditOffset(x, n, edits[0]), SizeAfter(n, edits[0]), edits[1..]);
    }
  }

  lemma OffsetFirst(x: nat, n: nat, edits: seq<Edit>)
    requires RunFits(n, edits)
    ensures |edits| == 0 ==> RunOffset(x, n, edits) == x
    ensures |edits| > 0 ==>
              && Fits(n, edits[0]) && RunFits(SizeAfter(n, edits[0]), edits[1..])
              && RunOffset(x, n, edits) == RunOffset(EditOffset(x, n, edits[0]), SizeAfter(n, edits[0]), edits[1..])
  {
    hide EditOffset;
  }

  lemma EvenFirst(x: nat, n: nat, edits: seq<Edit>)
    requires |edits| > 0 && EvenRun(edits) && x % 2 == 0 && Fits(n, edits[0])
    ensures EvenRun(edits[1..]) && EditOffset(x, n, edits[0]) % 2 == 0
  {
    assert forall d :: d in edits[1..] ==> d in edits;
    assert edits[0] in edits;
  }

  // The bytes [start, end) of the relaxed section t, for the directive r of the section s: NOPs
  // when the padding shrank, the assembler's own bytes when it did not.
  predicate IsFilled(s: seq<byte>, t: seq<byte>, r: Reloc, start: nat, end: nat)
  {
    && start <= end <= |t| && r.offset + r.addend <= |s|
    && t[start..end] == if end - start < r.addend then NopData(end - start) else s[r.offset..r.offset + r.addend]
  }

  /** In even code every padding that shrank is exactly filled: 4-byte NOPs, then at most one
      2-byte NOP.  A padding that kept its size keeps the assembler's bytes. */
  lemma PaddingIsFilled(relocs: seq<Reloc>, base: nat, s: seq<byte>, j: nat)
    requires j < |relocs| && IsAlign(relocs[j]) && PadsFrom(relocs, 0, |s|)
    requires |s| < WORD63 && GrainPads(relocs, 0, base, 2)
    requires AlignPlanFrom(relocs, 0, NeedAt(base), |s|).Possible?
    ensures var edits := AlignPlanFrom(relocs, 0, NeedAt(base), |s|).edits;
      && RunFits(|s|, edits)
      && IsFilled(s, RunBytes(s, edits), relocs[j], RunOffset(relocs[j].offset, |s|, edits),
                  MapPos(relocs[j].offset + relocs[j].addend, edits))
  {
    hide *;
    Below63(|s|);
    PlanAligns(relocs, 0, NeedAt(base), s, j);
    var edits := AlignPlanFrom(relocs, 0, NeedAt(base), |s|).edits;
    AlignedMeans(s, edits, relocs[j], NeedAt(base));
    var start, end := RunOffset(relocs[j].offset, |s|, edits), MapPos(relocs[j].offset + relocs[j].addend, edits);
    PadMeans(s, RunBytes(s, edits), relocs[j], start, end, NeedAt(base));
    StartIsEven(relocs, base, s, j);
    EvenMeans(relocs, 0, base, j);
    NeedIsGrain(base, start, relocs[j].addend, 2);
    PadBytes(s, RunBytes(s, edits), relocs[j], start, end, NeedAt(base));
  }

  lemma StartIsEven(relocs: seq<Reloc>, base: nat, s: seq<byte>, j: nat)
    requires j < |relocs| && IsAlign(relocs[j]) && PadsFrom(relocs, 0, |s|)
    requires |s| < WORD63 && GrainPads(relocs, 0, base, 2)
    requires AlignPlanFrom(relocs, 0, NeedAt(base), |s|).Possible?
    ensures var edits := AlignPlanFrom(relocs, 0, NeedAt(base), |s|).edits;
      RunFits(|s|, edits) && RunOffset(relocs[j].offset, |s|, edits) % 2 == 0
  {
    hide *;
    Below63(|s|);
    PlanFits(relocs, 0, NeedAt(base), |s|);
    PlanIsEven(relocs, 0, base, s);
    EvenMeans(relocs, 0, base, j);
    RunOffsetEven(relocs[j].offset, |s|, AlignPlanFrom(relocs, 0, NeedAt(base), |s|).edits);
  }

  lemma EvenMeans(relocs: seq<Reloc>, i: nat, base: nat, j: nat)
    requires GrainPads(relocs, i, base, 2) && i <= j < |relocs| && IsAlign(relocs[j])
    ensures base % 2 == 0 && relocs[j].offset % 2 == 0 && relocs[j].addend % 2 == 0
  {
  }

  lemma PadBytes(s: seq<byte>, t: seq<byte>, r: Reloc, start: nat, end: nat, need: Need)
    requires PadIsRight(s, t, r, start, end, need) && need(start, r.addend) % 2 == 0
    ensures IsFilled(s, t, r, start, end)
  {
  }
}
