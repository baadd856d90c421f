/** What deleting bytes from a section does to everything that points into it: contents,
    relocation offsets and symbols, for one deletion and for any run of edits. */
module Relaxation {
  import opened Bits
  import opened Buffers

  datatype Sym = Sym(value: nat, size: nat)

  // What relaxation does to a section: delete a range, or rewrite bytes in place.
  datatype Edit = Delete(addr: nat, count: nat) | Patch(addr: nat, data: seq<byte>)

  // ---------------------------------------------------------------- one edit

  function DeleteRange<T>(s: seq<T>, addr: nat, count: nat): (r: seq<T>)
    requires addr + count <= |s|
    ensures |r| == |s| - count
  {
    s[..addr] + s[addr + count..]
  }

  // Relocation offsets strictly inside the moved bytes move down.
  function MoveOffset(offset: nat, addr: nat, count: nat, toaddr: nat): nat
  {
    if addr < offset < toaddr then Sub64(offset, count) else offset
  }

  // The size test reads the value the first test may just have changed.
  function MoveSym(s: Sym, addr: nat, count: nat, toaddr: nat): Sym
  {
    var v := if addr < s.value <= toaddr then Sub64(s.value, count) else s.value;
    var end := Add64(v, s.size);
    if v <= addr && addr < end <= toaddr then Sym(v, Sub64(s.size, count)) else Sym(v, s.size)
  }

  // An entry listed m times in the hash vector is adjusted m times.
  function MoveSymTimes(s: Sym, m: nat, addr: nat, count: nat, toaddr: nat): Sym
    decreases m, s
  {
    if m == 0 then s else MoveSym(MoveSymTimes(s, m - 1, addr, count, toaddr), addr, count, toaddr)
  }

  lemma MovedOnce(s: Sym, addr: nat, count: nat, n: nat)
    ensures MoveSymTimes(s, 1, addr, count, n) == MoveSym(s, addr, count, n)
  {
    assert MoveSymTimes(s, 1, addr, count, n) == MoveSym(MoveSymTimes(s, 0, addr, count, n), addr, count, n);
  }

  /** Where position x of a section should go: the number of surviving positions below it. */
  function NewPos(x: nat, addr: nat, count: nat): nat
  {
    if x <= addr then x else if x < addr + count then addr else x - count
  }

  /** A relocation inside the section goes where it should exactly when it does not point
      strictly inside the deleted range. */
  lemma MoveOffsetExact(offset: nat, addr: nat, count: nat, toaddr: nat)
    requires addr + count <= toaddr < WORD64 && offset < toaddr
    ensures MoveOffset(offset, addr, count, toaddr) == NewPos(offset, addr, count)
       <==> !(addr < offset < addr + count)
  {
  }

  // The symbols a deletion does not spoil.
  predicate SymMovesWell(s: Sym, addr: nat, count: nat)
  {
    && !(addr < s.value < addr + count)
    && !(s.value <= addr < s.value + s.size < addr + count)
    && !(s.value == addr + count && s.size > 0 && count > 0)
  }

  /** A symbol inside the section keeps exactly its surviving bytes if and only if the deletion
      contains neither its start nor its end and does not stop right where it starts.  The last
      case is the code's re-test of the value it has just changed: a non-empty symbol that
      follows the deleted bytes immediately loses `count` bytes of its size. */
  lemma MoveSymExact(s: Sym, addr: nat, count: nat, toaddr: nat)
    requires addr + count <= toaddr < WORD64 && s.value + s.size <= toaddr
    ensures (var t := MoveSym(s, addr, count, toaddr);
             t.value == NewPos(s.value, addr, count)
             && t.value + t.size == NewPos(s.value + s.size, addr, count))
       <==> SymMovesWell(s, addr, count)
  {
    if s.value <= addr {
      MoveSymBefore(s, addr, count, toaddr);
    } else {
      MoveSymBehind(s, addr, count, toaddr);
    }
  }

  lemma MoveSymBefore(s: Sym, addr: nat, count: nat, toaddr: nat)
    requires addr + count <= toaddr < WORD64 && s.value + s.size <= toaddr && s.value <= addr
    ensures var t := MoveSym(s, addr, count, toaddr);
      t == if s.value + s.size <= addr then s
           else Sym(s.value, if count <= s.size then s.size - count else s.size - count + WORD64)
  {
    assert Add64(s.value, s.size) == s.value + s.size;
  }

  lemma MoveSymBehind(s: Sym, addr: nat, count: nat, toaddr: nat)
    requires addr + count <= toaddr < WORD64 && s.value + s.size <= toaddr && addr < s.value
    ensures var t := MoveSym(s, addr, count, toaddr);
      && (addr + count <= s.value ==> t.value == s.value - count)
      && (addr + count < s.value ==> t.size == s.size)
      && (addr + count == s.value ==> t.size == if s.size == 0 then 0 else Sub64(s.size, count))
      && (s.value < addr + count ==> t.value != addr)
  {
    if s.value < count {
      assert Sub64(s.value, count) == s.value - count + WORD64;
    } else {
      assert Sub64(s.value, count) == s.value - count;
      assert Add64(s.value - count, s.size) == s.value - count + s.size;
    }
  }

  /** The witness: a four-byte function right behind two deleted bytes comes out two bytes short. */
  lemma FollowingSymbolLosesBytes(addr: nat, count: nat, size: nat, toaddr: nat)
    requires 0 < count <= size && addr + count + size <= toaddr < WORD64
    ensures MoveSym(Sym(addr + count, size), addr, count, toaddr) == Sym(addr, size - count)
  {
    assert Sub64(addr + count, count) == addr;
    assert Add64(addr, size) == addr + size;
    assert Sub64(size, count) == size - count;
  }

  /** An entry listed twice is moved twice, so it ends `count` bytes below its place. */
  lemma ListedTwiceMovesTwice(s: Sym, addr: nat, count: nat, toaddr: nat)
    requires 0 < count && addr + 2 * count < s.value && s.value + s.size <= toaddr < WORD64
    ensures MoveSymTimes(s, 1, addr, count, toaddr) == Sym(NewPos(s.value, addr, count), s.size)
    ensures MoveSymTimes(s, 2, addr, count, toaddr) == Sym(NewPos(s.value, addr, count) - count, s.size)
  {
    var t := Sym(s.value - count, s.size);
    assert MoveSym(s, addr, count, toaddr) == t;
    assert MoveSymTimes(s, 1, addr, count, toaddr)
           == MoveSym(MoveSymTimes(s, 0, addr, count, toaddr), addr, count, toaddr);
    assert MoveSym(t, addr, count, toaddr) == Sym(t.value - count, s.size);
    assert MoveSymTimes(s, 2, addr, count, toaddr)
           == MoveSym(MoveSymTimes(s, 1, addr, count, toaddr), addr, count, toaddr);
  }

  // Both ends of the symbol are where the surviving bytes put them.
  predicate MapsEnds(s: Sym, t: Sym, addr: nat, count: nat)
  {
    t.value == NewPos(s.value, addr, count) && t.value + t.size == NewPos(s.value + s.size, addr, count)
  }

  // A deletion after which a second visit finds nothing more to move.
  predicate SettlesAtOnce(s: Sym, addr: nat, count: nat)
  {
    SymMovesWell(s, addr, count) && s.value + s.size <= addr + count
  }

  // A symbol that lost its place for good: its value is too low or out of the section, or its
  // value is right and its size is too small or has wrapped.
  predicate Strayed(s: Sym, t: Sym, addr: nat, count: nat, toaddr: nat)
  {
    var v, end := NewPos(s.value, addr, count), NewPos(s.value + s.size, addr, count);
    || t.value < v
    || t.value > toaddr
    || (t.value == v <= addr && t.size < WORD64 && (v + t.size < end || t.size > toaddr))
  }

  lemma StrayedIsWrong(s: Sym, t: Sym, addr: nat, count: nat, toaddr: nat)
    requires addr + count <= toaddr && s.value + s.size <= toaddr && Strayed(s, t, addr, count, toaddr)
    ensures !MapsEnds(s, t, addr, count)
  {
  }

  lemma StrayedStays(s: Sym, t: Sym, addr: nat, count: nat, toaddr: nat)
    requires addr + count <= toaddr < WORD63 && s.value + s.size <= toaddr
    requires Strayed(s, t, addr, count, toaddr)
    ensures Strayed(s, MoveSym(t, addr, count, toaddr), addr, count, toaddr)
  {
    var v := NewPos(s.value, addr, count);
    if t.value < v {
      SubCases(t.value, count);
    } else if t.value > toaddr {
    } else {
      SubCases(t.size, count);
      AddCases(t.value, t.size);
    }
  }

  lemma SubCases(x: nat, y: nat)
    requires x < WORD64 && y <= WORD64
    ensures Sub64(x, y) == if y <= x then x - y else x - y + WORD64
  {
  }

  lemma AddCases(x: nat, y: nat)
    requires x < WORD64 && y < WORD64
    ensures Add64(x, y) == if x + y < WORD64 then x + y else x + y - WORD64
  {
  }

  // Whatever does not settle at once has strayed by the second visit.
  lemma SecondVisitStrays(s: Sym, addr: nat, count: nat, toaddr: nat)
    requires 0 < count && addr + count <= toaddr < WORD63 && s.value + s.size <= toaddr
    requires !SettlesAtOnce(s, addr, count)
    ensures Strayed(s, MoveSym(MoveSym(s, addr, count, toaddr), addr, count, toaddr), addr, count, toaddr)
  {
    if s.value <= addr {
      BeforeStrays(s, addr, count, toaddr);
    } else {
      BehindStrays(s, addr, count, toaddr);
    }
  }

  lemma BeforeStrays(s: Sym, addr: nat, count: nat, toaddr: nat)
    requires 0 < count && addr + count <= toaddr < WORD63 && s.value + s.size <= toaddr
    requires s.value <= addr && !SettlesAtOnce(s, addr, count)
    ensures Strayed(s, MoveSym(MoveSym(s, addr, count, toaddr), addr, count, toaddr), addr, count, toaddr)
  {
    hide Sub64, Add64;
    var t := MoveSym(s, addr, count, toaddr);
    SubCases(s.size, count);
    AddCases(s.value, s.size);
    SubCases(t.size, count);
    AddCases(s.value, t.size);
  }

  lemma BehindStrays(s: Sym, addr: nat, count: nat, toaddr: nat)
    requires 0 < count && addr + count <= toaddr < WORD63 && s.value + s.size <= toaddr
    requires addr < s.value && !SettlesAtOnce(s, addr, count)
    ensures Strayed(s, MoveSym(MoveSym(s, addr, count, toaddr), addr, count, toaddr), addr, count, toaddr)
  {
    hide Sub64, Add64;
    var t := MoveSym(s, addr, count, toaddr);
    SubCases(s.value, count);
    SubCases(s.size, count);
    AddCases(t.value, s.size);
    if Strayed(s, t, addr, count, toaddr) {
      StrayedStays(s, t, addr, count, toaddr);
    } else {
      SubCases(t.value, count);
      SubCases(t.size, count);
      AddCases(t.value, t.size);
    }
  }

  lemma {:induction false} SettledStays(s: Sym, m: nat, addr: nat, count: nat, toaddr: nat)
    requires m > 0 && addr + count <= toaddr < WORD64 && s.value + s.size <= toaddr && SettlesAtOnce(s, addr, count)
    ensures MapsEnds(s, MoveSymTimes(s, m, addr, count, toaddr), addr, count)
  {
    hide MoveSym, NewPos;
    TimesStep(s, m, addr, count, toaddr);
    if m == 1 {
      TimesStep(s, 0, addr, count, toaddr);
      MoveSymExact(s, addr, count, toaddr);
    } else {
      SettledStays(s, m - 1, addr, count, toaddr);
      SettledVisit(s, MoveSymTimes(s, m - 1, addr, count, toaddr), addr, count, toaddr);
    }
  }

  lemma TimesStep(s: Sym, m: nat, addr: nat, count: nat, toaddr: nat)
    ensures MoveSymTimes(s, m, addr, count, toaddr)
         == if m == 0 then s else MoveSym(MoveSymTimes(s, m - 1, addr, count, toaddr), addr, count, toaddr)
  {
  }

  lemma SettledVisit(s: Sym, t: Sym, addr: nat, count: nat, toaddr: nat)
    requires addr + count <= toaddr < WORD64 && s.value + s.size <= toaddr && SettlesAtOnce(s, addr, count)
    requires MapsEnds(s, t, addr, count)
    ensures MoveSym(t, addr, count, toaddr) == t
  {
    AddCases(t.value, t.size);
  }

  lemma {:induction false} StrayedForGood(s: Sym, m: nat, addr: nat, count: nat, toaddr: nat)
    requires m >= 2 && 0 < count && addr + count <= toaddr < WORD63 && s.value + s.size <= toaddr
    requires !SettlesAtOnce(s, addr, count)
    ensures Strayed(s, MoveSymTimes(s, m, addr, count, toaddr), addr, count, toaddr)
  {
    hide MoveSym, Strayed, SettlesAtOnce;
    TimesStep(s, m, addr, count, toaddr);
    if m == 2 {
      TimesStep(s, 1, addr, count, toaddr);
      TimesStep(s, 0, addr, count, toaddr);
      SecondVisitStrays(s, addr, count, toaddr);
    } else {
      StrayedForGood(s, m - 1, addr, count, toaddr);
      StrayedStays(s, MoveSymTimes(s, m - 1, addr, count, toaddr), addr, count, toaddr);
    }
  }

  /** An entry listed more than once comes out right exactly when one visit is right and leaves
      nothing to move: the symbol ends at or before the end of the deleted range.  Any symbol that
      reaches beyond it is spoiled by the second listing. */
  lemma ListedOftenExact(s: Sym, m: nat, addr: nat, count: nat, toaddr: nat)
    requires m >= 2 && 0 < count && addr + count <= toaddr < WORD63 && s.value + s.size <= toaddr
    ensures MapsEnds(s, MoveSymTimes(s, m, addr, count, toaddr), addr, count)
       <==> SymMovesWell(s, addr, count) && s.value + s.size <= addr + count
  {
    hide MoveSym, MapsEnds, Strayed;
    if SettlesAtOnce(s, addr, count) {
      SettledStays(s, m, addr, count, toaddr);
    } else {
      StrayedForGood(s, m, addr, count, toaddr);
      StrayedIsWrong(s, MoveSymTimes(s, m, addr, count, toaddr), addr, count, toaddr);
    }
  }

  /** The same for two listings of a symbol one visit would move well, up to the last address. */
  lemma ListedTwiceExact(s: Sym, addr: nat, count: nat, toaddr: nat)
    requires 0 < count && addr + count <= toaddr < WORD64 && s.value + s.size <= toaddr && SymMovesWell(s, addr, count)
    ensures MapsEnds(s, MoveSymTimes(s, 2, addr, count, toaddr), addr, count) <==> s.value + s.size <= addr + count
  {
    var t := MoveSym(s, addr, count, toaddr);
    TimesStep(s, 2, addr, count, toaddr);
    TimesStep(s, 1, addr, count, toaddr);
    TimesStep(s, 0, addr, count, toaddr);
    if SettlesAtOnce(s, addr, count) {
      SettledStays(s, 2, addr, count, toaddr);
    } else if s.value <= addr {
      MoveSymBefore(s, addr, count, toaddr);
      MoveSymBefore(t, addr, count, toaddr);
    } else {
      MoveSymBehind(s, addr, count, toaddr);
      SubCases(t.value, count);
    }
  }

  /** In a section that fills half the address space a third visit can wrap back to the right
      place, so the condition above asks for less. */
  lemma ThirdVisitWrapsBack()
    ensures var s, half := Sym(0x8000_0000_0000_0001, 0), WORD63;
            MapsEnds(s, MoveSymTimes(s, 3, 0, half, WORD64 - 1), 0, half) && s.value + s.size > half
  {
    var s, half, top := Sym(0x8000_0000_0000_0001, 0), WORD63, WORD64 - 1;
    TimesStep(s, 3, 0, half, top);
    TimesStep(s, 2, 0, half, top);
    TimesStep(s, 1, 0, half, top);
    TimesStep(s, 0, 0, half, top);
    var a, b := Sym(1, 0), Sym(half + 1, 0);
    assert MoveSym(s, 0, half, top) == a;
    assert MoveSym(a, 0, half, top) == b;
    assert MoveSym(b, 0, half, top) == a;
  }

  // ---------------------------------------------------------------- runs

  predicate Fits(n: nat, e: Edit)
  {
    match e
    case Delete(addr, count) => addr + count <= n
    case Patch(addr, data) => addr + |data| <= n
  }

  function SizeAfter(n: nat, e: Edit): (m: nat)
    requires Fits(n, e)
    ensures m <= n
  {
    if e.Delete? then n - e.count else n
  }

  // Every edit is inside the section as the earlier ones left it.
  predicate RunFits(n: nat, edits: seq<Edit>)
    decreases |edits|
  {
    |edits| == 0 || (Fits(n, edits[0]) && RunFits(SizeAfter(n, edits[0]), edits[1..]))
  }

  function RunSize(n: nat, edits: seq<Edit>): (m: nat)
    requires RunFits(n, edits)
    ensures m <= n
    decreases |edits|
  {
    if |edits| == 0 then n else RunSize(SizeAfter(n, edits[0]), edits[1..])
  }

  function EditBytes(s: seq<byte>, e: Edit): (r: seq<byte>)
    requires Fits(|s|, e)
    ensures |r| == SizeAfter(|s|, e)
  {
    match e
    case Delete(addr, count) => DeleteRange(s, addr, count)
    case Patch(addr, data) => Splice(s, addr, data)
  }

  function RunBytes(s: seq<byte>, edits: seq<Edit>): (r: seq<byte>)
    requires RunFits(|s|, edits)
    ensures |r| == RunSize(|s|, edits)
    decreases |edits|
  {
    if |edits| == 0 then s else RunBytes(EditBytes(s, edits[0]), edits[1..])
  }

  function EditOffset(offset: nat, n: nat, e: Edit): nat
  {
    if e.Delete? then MoveOffset(offset, e.addr, e.count, n) else offset
  }

  function RunOffset(offset: nat, n: nat, edits: seq<Edit>): nat
    requires RunFits(n, edits)
    decreases |edits|
  {
    if |edits| == 0 then offset
    else RunOffset(EditOffset(offset, n, edits[0]), SizeAfter(n, edits[0]), edits[1..])
  }

  function EditSym(s: Sym, m: nat, n: nat, e: Edit): Sym
  {
    if e.Delete? then MoveSymTimes(s, m, e.addr, e.count, n) else s
  }

  function RunSym(s: Sym, m: nat, n: nat, edits: seq<Edit>): Sym
    requires RunFits(n, edits)
    decreases |edits|
  {
    if |edits| == 0 then s
    else RunSym(EditSym(s, m, n, edits[0]), m, SizeAfter(n, edits[0]), edits[1..])
  }

  // Where position x of the original section ends up.
  function MapPos(x: nat, edits: seq<Edit>): nat
    decreases |edits|
  {
    if |edits| == 0 then x
    else MapPos(if edits[0].Delete? then NewPos(x, edits[0].addr, edits[0].count) else x, edits[1..])
  }

  // Provenance: which original position each surviving byte came from.
  function Origins(o: seq<nat>, edits: seq<Edit>): (r: seq<nat>)
    requires RunFits(|o|, edits)
    ensures |r| == RunSize(|o|, edits)
    decreases |edits|
  {
    if |edits| == 0 then o
    else Origins(if edits[0].Delete? then DeleteRange(o, edits[0].addr, edits[0].count) else o, edits[1..])
  }

  predicate Increasing(o: seq<nat>)
  {
    forall i, j :: 0 <= i < j < |o| ==> o[i] < o[j]
  }

  function Positions(n: nat): (o: seq<nat>)
    ensures |o| == n && forall i :: 0 <= i < n ==> o[i] == i
  {
    if n == 0 then [] else Positions(n - 1) + [n - 1]
  }

  // r counts the entries of o below x.
  predicate CountsBelow(o: seq<nat>, x: nat, r: nat)
  {
    r <= |o| && forall k :: 0 <= k < |o| ==> (k < r <==> o[k] < x)
  }

  lemma {:induction false} OriginsFrom(o: seq<nat>, x: nat, r: nat, edits: seq<Edit>)
    requires RunFits(|o|, edits) && Increasing(o) && CountsBelow(o, x, r)
    ensures Increasing(Origins(o, edits))
    ensures CountsBelow(Origins(o, edits), x, MapPos(r, edits))
    decreases |edits|
  {
    if |edits| == 0 {
    } else {
      match edits[0]
      case Delete(addr, count) =>
        var o' := DeleteRange(o, addr, count);
        DeleteKeepsOrder(o, x, r, addr, count);
        OriginsFrom(o', x, NewPos(r, addr, count), edits[1..]);
      case Patch(_, _) =>
        OriginsFrom(o, x, r, edits[1..]);
    }
  }

  lemma DeleteKeepsOrder(o: seq<nat>, x: nat, r: nat, addr: nat, count: nat)
    requires addr + count <= |o| && Increasing(o) && CountsBelow(o, x, r)
    ensures Increasing(DeleteRange(o, addr, count))
    ensures CountsBelow(DeleteRange(o, addr, count), x, NewPos(r, addr, count))
  {
    var o' := DeleteRange(o, addr, count);
    assert forall k :: 0 <= k < |o'| ==> o'[k] == o[if k < addr then k else k + count];
  }

  /** The final section holds its bytes in their original order, and the final place of any
      position x is the number of surviving bytes below x. */
  lemma RunKeepsOrder(n: nat, x: nat, edits: seq<Edit>)
    requires RunFits(n, edits) && x <= n
    ensures Increasing(Origins(Positions(n), edits))
    ensures CountsBelow(Origins(Positions(n), edits), x, MapPos(x, edits))
  {
    OriginsFrom(Positions(n), x, x, edits);
  }

  // Some patch hits the byte that started at x.
  predicate Touched(x: nat, edits: seq<Edit>)
    decreases |edits|
  {
    if |edits| == 0 then false
    else match edits[0]
      case Delete(addr, count) => Touched(NewPos(x, addr, count), edits[1..])
      case Patch(addr, data) => addr <= x < addr + |data| || Touched(x, edits[1..])
  }

  // No deletion removes the byte that started at x.
  predicate Survives(x: nat, edits: seq<Edit>)
    decreases |edits|
  {
    if |edits| == 0 then true
    else match edits[0]
      case Delete(addr, count) => !(addr <= x < addr + count) && Survives(NewPos(x, addr, count), edits[1..])
      case Patch(_, _) => Survives(x, edits[1..])
  }

  lemma {:induction false} SurvivorInRange(x: nat, n: nat, edits: seq<Edit>)
    requires x < n && RunFits(n, edits) && Survives(x, edits)
    ensures MapPos(x, edits) < RunSize(n, edits)
    decreases |edits|
  {
    if |edits| == 0 {
    } else {
      match edits[0]
      case Delete(addr, count) => SurvivorInRange(NewPos(x, addr, count), n - count, edits[1..]);
      case Patch(_, _) => SurvivorInRange(x, n, edits[1..]);
    }
  }

  /** What follows a surviving byte follows it still. */
  lemma {:induction false} SurvivorSteps(x: nat, edits: seq<Edit>)
    requires Survives(x, edits)
    ensures MapPos(x + 1, edits) == MapPos(x, edits) + 1
    decreases |edits|
  {
    if |edits| == 0 {
    } else {
      match edits[0]
      case Delete(addr, count) => SurvivorSteps(NewPos(x, addr, count), edits[1..]);
      case Patch(_, _) => SurvivorSteps(x, edits[1..]);
    }
  }

  lemma {:induction false} SurvivorRun(x: nat, k: nat, edits: seq<Edit>)
    requires forall y: nat :: x <= y < x + k ==> Survives(y, edits)
    ensures MapPos(x + k, edits) == MapPos(x, edits) + k
    decreases k
  {
    hide Survives, MapPos;
    if k == 0 {
    } else {
      SurvivorRun(x, k - 1, edits);
      SurvivorSteps(x + (k - 1), edits);
    }
  }

  lemma EditKeepsByte(s: seq<byte>, x: nat, e: Edit)
    requires x < |s| && Fits(|s|, e)
    ensures e.Delete? && !(e.addr <= x < e.addr + e.count) ==>
              NewPos(x, e.addr, e.count) < |EditBytes(s, e)| && EditBytes(s, e)[NewPos(x, e.addr, e.count)] == s[x]
    ensures e.Patch? && !(e.addr <= x < e.addr + |e.data|) ==> EditBytes(s, e)[x] == s[x]
  {
  }

  lemma {:induction false} SurvivorIsThere(s: seq<byte>, x: nat, edits: seq<Edit>)
    requires x < |s| && RunFits(|s|, edits) && Survives(x, edits)
    ensures MapPos(x, edits) < RunSize(|s|, edits)
    ensures !Touched(x, edits) ==> RunBytes(s, edits)[MapPos(x, edits)] == s[x]
    decreases |edits|
  {
    SurvivorInRange(x, |s|, edits);
    if |edits| == 0 {
    } else {
      EditKeepsByte(s, x, edits[0]);
      match edits[0]
      case Delete(addr, count) => SurvivorIsThere(EditBytes(s, edits[0]), NewPos(x, addr, count), edits[1..]);
      case Patch(_, _) => SurvivorIsThere(EditBytes(s, edits[0]), x, edits[1..]);
    }
  }

  lemma {:induction false} OriginOfSurvivor(o: seq<nat>, x: nat, edits: seq<Edit>)
    requires x < |o| && RunFits(|o|, edits) && Survives(x, edits)
    ensures MapPos(x, edits) < RunSize(|o|, edits) && Origins(o, edits)[MapPos(x, edits)] == o[x]
    decreases |edits|
  {
    if |edits| == 0 {
    } else {
      match edits[0]
      case Delete(addr, count) => OriginOfSurvivor(DeleteRange(o, addr, count), NewPos(x, addr, count), edits[1..]);
      case Patch(_, _) => OriginOfSurvivor(o, x, edits[1..]);
    }
  }

  /** Contents after a run: every byte no deletion removed and no patch rewrote is still there,
      at the place the deletions below it imply. */
  lemma SurvivingByte(s: seq<byte>, x: nat, edits: seq<Edit>)
    requires x < |s| && RunFits(|s|, edits) && Survives(x, edits)
    ensures MapPos(x, edits) < RunSize(|s|, edits)
    ensures Origins(Positions(|s|), edits)[MapPos(x, edits)] == x
    ensures !Touched(x, edits) ==> RunBytes(s, edits)[MapPos(x, edits)] == s[x]
  {
    SurvivorIsThere(s, x, edits);
    OriginOfSurvivor(Positions(|s|), x, edits);
  }

  /** A relocation designates the same byte after any run that does not remove that byte. */
  lemma {:induction false} RelocKeepsByte(offset: nat, n: nat, edits: seq<Edit>)
    requires RunFits(n, edits) && offset < n < WORD64 && Survives(offset, edits)
    ensures RunOffset(offset, n, edits) == MapPos(offset, edits) < RunSize(n, edits)
    decreases |edits|
  {
    if |edits| == 0 {
    } else {
      match edits[0]
      case Delete(addr, count) =>
        MoveOffsetExact(offset, addr, count, n);
        RelocKeepsByte(NewPos(offset, addr, count), n - count, edits[1..]);
      case Patch(_, _) =>
        RelocKeepsByte(offset, n, edits[1..]);
    }
  }

  // The guard, step by step: no deletion of the run meets the symbol in one of the bad ways.
  predicate SymRunsWell(s: Sym, edits: seq<Edit>)
    decreases |edits|
  {
    if |edits| == 0 then true
    else match edits[0]
      case Delete(addr, count) =>
        var v, e := NewPos(s.value, addr, count), NewPos(s.value + s.size, addr, count);
        SymMovesWell(s, addr, count) && v <= e && SymRunsWell(Sym(v, e - v), edits[1..])
      case Patch(_, _) => SymRunsWell(s, edits[1..])
  }

  lemma {:induction false} SymFollowsRun(s: Sym, n: nat, edits: seq<Edit>)
    requires RunFits(n, edits) && s.value + s.size <= n < WORD64 && SymRunsWell(s, edits)
    ensures var t := RunSym(s, 1, n, edits);
      t.value == MapPos(s.value, edits) && t.value + t.size == MapPos(s.value + s.size, edits)
    decreases |edits|
  {
    if |edits| == 0 {
    } else {
      match edits[0]
      case Delete(addr, count) =>
        MoveSymExact(s, addr, count, n);
        assert MoveSymTimes(s, 1, addr, count, n) == MoveSym(MoveSymTimes(s, 0, addr, count, n), addr, count, n);
        SymFollowsRun(EditSym(s, 1, n, edits[0]), n - count, edits[1..]);
      case Patch(_, _) =>
        SymFollowsRun(s, n, edits[1..]);
    }
  }

  /** A symbol's final extent is its original bytes with the deleted ones removed: a surviving
      byte is inside it afterwards exactly when it was inside it before. */
  lemma SymKeepsBytes(s: Sym, n: nat, edits: seq<Edit>, k: nat)
    requires RunFits(n, edits) && s.value + s.size <= n < WORD64 && SymRunsWell(s, edits)
    requires k < RunSize(n, edits)
    ensures var t := RunSym(s, 1, n, edits);
      t.value <= k < t.value + t.size <==> s.value <= Origins(Positions(n), edits)[k] < s.value + s.size
  {
    SymFollowsRun(s, n, edits);
    RunKeepsOrder(n, s.value, edits);
    RunKeepsOrder(n, s.value + s.size, edits);
  }

  // ---------------------------------------------------------------- distances only shrink

  lemma {:induction false} DistanceShrinks(x: nat, y: nat, edits: seq<Edit>)
    requires x <= y
    ensures 0 <= MapPos(y, edits) - MapPos(x, edits) <= y - x
    decreases |edits|
  {
    if |edits| == 0 {
    } else {
      if edits[0].Delete? {
        DistanceShrinks(NewPos(x, edits[0].addr, edits[0].count), NewPos(y, edits[0].addr, edits[0].count), edits[1..]);
      } else {
        DistanceShrinks(x, y, edits[1..]);
      }
    }
  }

  // Instructions are deleted and kept in units of two bytes.
  predicate EvenRun(edits: seq<Edit>)
  {
    forall e :: e in edits && e.Delete? ==> e.addr % 2 == 0 && e.count % 2 == 0
  }

  lemma {:induction false} ParityKept(x: nat, edits: seq<Edit>)
    requires EvenRun(edits) && x % 2 == 0
    ensures MapPos(x, edits) % 2 == 0
    decreases |edits|
  {
    if |edits| == 0 {
    } else {
      var e := edits[0];
      assert EvenRun(edits[1..]) by {
        assert forall d :: d in edits[1..] ==> d in edits;
      }
      if e.Delete? {
        assert e in edits;
        ParityKept(NewPos(x, e.addr, e.count), edits[1..]);
      } else {
        ParityKept(x, edits[1..]);
      }
    }
  }

  // A JAL reaches even displacements in [-2^20, 2^20).
  predicate FitsJal(displacement: int)
  {
    displacement % 2 == 0 && -0x10_0000 <= displacement < 0x10_0000
  }

  /** A jump that fits a JAL inside its section still fits after every later deletion. */
  lemma {:induction false} JalStillFits(pc: nat, target: nat, edits: seq<Edit>)
    requires FitsJal(target as int - pc) && pc % 2 == 0 && EvenRun(edits)
    ensures FitsJal(MapPos(target, edits) as int - MapPos(pc, edits))
  {
    hide *;
    FitsMeans(target as int - pc);
    ParityKept(pc, edits);
    ParityKept(target, edits);
    if pc <= target {
      DistanceShrinks(pc, target, edits);
    } else {
      DistanceShrinks(target, pc, edits);
    }
    FitsMeans(MapPos(target, edits) as int - MapPos(pc, edits));
  }

  lemma FitsMeans(d: int)
    ensures FitsJal(d) <==> d % 2 == 0 && -0x10_0000 <= d < 0x10_0000
  {
  }

  // ---------------------------------------------------------------- joining runs

  lemma OneEdit(s: seq<byte>, x: nat, e: Edit)
    requires Fits(|s|, e)
    ensures RunFits(|s|, [e]) && RunSize(|s|, [e]) == SizeAfter(|s|, e)
    ensures RunBytes(s, [e]) == EditBytes(s, e)
    ensures RunOffset(x, |s|, [e]) == EditOffset(x, |s|, e)
    ensures MapPos(x, [e]) == if e.Delete? then NewPos(x, e.addr, e.count) else x
  {
    assert [e][1..] == [];
  }

  lemma OneEditSym(s: Sym, m: nat, n: nat, e: Edit)
    requires Fits(n, e)
    ensures RunFits(n, [e]) && RunSym(s, m, n, [e]) == EditSym(s, m, n, e)
  {
    assert [e][1..] == [];
  }

  lemma PatchThenDelete(s: seq<byte>, x: nat, p: Edit, d: Edit)
    requires Fits(|s|, p) && Fits(|s|, d) && p.Patch? && d.Delete?
    ensures RunFits(|s|, [p, d]) && RunSize(|s|, [p, d]) == |s| - d.count
    ensures RunBytes(s, [p, d]) == DeleteRange(Splice(s, p.addr, p.data), d.addr, d.count)
    ensures RunOffset(x, |s|, [p, d]) == MoveOffset(x, d.addr, d.count, |s|)
    ensures MapPos(x, [p, d]) == NewPos(x, d.addr, d.count)
  {
    assert [p, d][1..] == [d];
    OneEdit(EditBytes(s, p), x, d);
  }

  lemma PatchThenDeleteFits(n: nat, x: nat, p: Edit, d: Edit)
    requires Fits(n, p) && Fits(n, d) && p.Patch? && d.Delete?
    ensures RunFits(n, [p, d]) && RunSize(n, [p, d]) == n - d.count
    ensures RunOffset(x, n, [p, d]) == MoveOffset(x, d.addr, d.count, n)
    ensures MapPos(x, [p, d]) == NewPos(x, d.addr, d.count)
  {
    PatchThenDelete(seq(n, _ => 0), x, p, d);
  }

  lemma {:induction false} RunAppend(s: seq<byte>, a: seq<Edit>, b: seq<Edit>)
    requires RunFits(|s|, a) && RunFits(RunSize(|s|, a), b)
    ensures RunFits(|s|, a + b) && RunSize(|s|, a + b) == RunSize(RunSize(|s|, a), b)
    ensures RunBytes(s, a + b) == RunBytes(RunBytes(s, a), b)
    decreases |a|
  {
    if |a| == 0 {
      assert a + b == b;
    } else {
      assert (a + b)[1..] == a[1..] + b;
      RunAppend(EditBytes(s, a[0]), a[1..], b);
    }
  }

  lemma {:induction false} RunFitsAppend(n: nat, a: seq<Edit>, b: seq<Edit>)
    requires RunFits(n, a) && RunFits(RunSize(n, a), b)
    ensures RunFits(n, a + b) && RunSize(n, a + b) == RunSize(RunSize(n, a), b)
    decreases |a|
  {
    if |a| == 0 {
      assert a + b == b;
    } else {
      assert (a + b)[1..] == a[1..] + b;
      RunFitsAppend(SizeAfter(n, a[0]), a[1..], b);
    }
  }

  lemma {:induction false} RunOffsetAppend(x: nat, n: nat, a: seq<Edit>, b: seq<Edit>)
    requires RunFits(n, a) && RunFits(RunSize(n, a), b)
    ensures RunFits(n, a + b)
    ensures RunOffset(x, n, a + b) == RunOffset(RunOffset(x, n, a), RunSize(n, a), b)
    decreases |a|
  {
    RunFitsAppend(n, a, b);
    if |a| == 0 {
      assert a + b == b;
    } else {
      assert (a + b)[1..] == a[1..] + b;
      RunOffsetAppend(EditOffset(x, n, a[0]), SizeAfter(n, a[0]), a[1..], b);
    }
  }

  lemma {:induction false} MapPosAppend(x: nat, a: seq<Edit>, b: seq<Edit>)
    ensures MapPos(x, a + b) == MapPos(MapPos(x, a), b)
    decreases |a|
  {
    if |a| == 0 {
      assert a + b == b;
    } else {
      assert (a + b)[1..] == a[1..] + b;
      MapPosAppend(if a[0].Delete? then NewPos(x, a[0].addr, a[0].count) else x, a[1..], b);
    }
  }

  lemma {:induction false} RunSymAppend(s: Sym, m: nat, n: nat, a: seq<Edit>, b: seq<Edit>)
    requires RunFits(n, a) && RunFits(RunSize(n, a), b)
    ensures RunFits(n, a + b)
    ensures RunSym(s, m, n, a + b) == RunSym(RunSym(s, m, n, a), m, RunSize(n, a), b)
    decreases |a|
  {
    RunFitsAppend(n, a, b);
    if |a| == 0 {
      assert a + b == b;
    } else {
      assert (a + b)[1..] == a[1..] + b;
      RunSymAppend(EditSym(s, m, n, a[0]), m, SizeAfter(n, a[0]), a[1..], b);
    }
  }

}
