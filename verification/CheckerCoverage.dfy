/**
 How much of the code a passing verdict of the admission checker covers: which functions that the code can jump to were
 visited, and which bytes of a visited function were looked at.
 */
module CheckerCoverage {
  import opened Checker
  import opened Options
  import opened Reachability

  // ---------------------------------------------------------------------------------------------
  // Functions

  /** The function that an instruction without a relocation leads to in its own section, conditionally or not. */
  function DirectTarget(elf: Elf, section: nat, i: Insn): Option<string>
    requires section < |elf.sections|
  {
    if FindReloc(elf.sections[section].relocs, i.address, i.size).Some? || i.target.None? then None
    else ResolveFunc(elf.symbols, section, Normalize(i.target.value))
  }

  /** The binary that a function with usable code is scanned in. */
  predicate IsHome(input: Input, f: string, elf: Elf) {
    Owner(input.elfs, f) == Some(elf) && f in elf.defined && HasCode(elf, f)
  }

  /** Instruction `n` of `f` leads to `g`. */
  ghost predicate JumpsAt(input: Input, f: string, g: string, n: nat) {
    exists elf :: IsHome(input, f, elf) && n < |Instructions(elf, f)|
                  && DirectTarget(elf, elf.defined[f].section.value, Instructions(elf, f)[n]) == Some(g)
  }

  /** A named function to which `f` jumps directly, whatever the checker makes of it. */
  ghost predicate Jumps(input: Input, f: string, g: string) { g != "" && exists n: nat :: JumpsAt(input, f, g, n) }

  /** The checker passes over instruction `n`: it is a conditional jump, or one before it has ended the scan. */
  ghost predicate PassedOver(input: Input, f: string, n: nat) {
    exists elf :: IsHome(input, f, elf) && n < |Instructions(elf, f)|
                  && (!Instructions(elf, f)[n].branch || exists m :: 0 <= m <= n && Instructions(elf, f)[m].priv)
  }

  ghost predicate Skips(input: Input, f: string, g: string) {
    g != "" && exists n: nat :: JumpsAt(input, f, g, n) && PassedOver(input, f, n)
  }

  /** The names of all function symbols. */
  ghost function SymbolNames(elfs: seq<Elf>): set<string> {
    if elfs == [] then {} else (set s | s in elfs[0].symbols :: s.name) + SymbolNames(elfs[1..])
  }

  /** What the checker follows, and all direct jumps besides. */
  ghost function AllEdges(input: Input, f: string): set<string> {
    Edges(input, f) + (set g | g in SymbolNames(input.elfs) && Jumps(input, f, g))
  }

  ghost function AllSucc(input: Input): string -> set<string> { f => AllEdges(input, f) }

  lemma {:induction false} ResolvedIsSymbol(symbols: seq<Symbol>, section: nat, offset: int)
    requires ResolveFunc(symbols, section, offset).Some?
    ensures exists s :: s in symbols && s.name == ResolveFunc(symbols, section, offset).value
  {
    var s := symbols[0];
    if !(s.isFunc && s.section == Some(section)
         && ((s.size == 0 && s.value == offset) || s.value <= offset < s.value + s.size)) {
      ResolvedIsSymbol(symbols[1..], section, offset);
      var t :| t in symbols[1..] && t.name == ResolveFunc(symbols, section, offset).value;
      assert t in symbols;
    } else {
      assert s in symbols;
    }
  }

  lemma {:induction false} OwnerSymbols(elfs: seq<Elf>, f: string)
    requires Owner(elfs, f).Some?
    ensures forall s :: s in Owner(elfs, f).value.symbols ==> s.name in SymbolNames(elfs)
  {
    if f !in elfs[0].defined {
      OwnerSymbols(elfs[1..], f);
    }
  }

  /** So the edges are all there. */
  lemma JumpIsEdge(input: Input, f: string, g: string)
    requires Jumps(input, f, g)
    ensures g in AllEdges(input, f)
  {
    var n: nat :| JumpsAt(input, f, g, n);
    var elf :| IsHome(input, f, elf) && n < |Instructions(elf, f)|
               && DirectTarget(elf, elf.defined[f].section.value, Instructions(elf, f)[n]) == Some(g);
    ResolvedIsSymbol(elf.symbols, elf.defined[f].section.value, Normalize(Instructions(elf, f)[n].target.value));
    OwnerSymbols(input.elfs, f);
  }

  /** A direct jump that is not passed over is followed, unless it leads to the function itself. */
  lemma JumpFollowed(input: Input, f: string, g: string, n: nat)
    requires JumpsAt(input, f, g, n) && !PassedOver(input, f, n) && g != f && g != ""
    ensures g in Edges(input, f)
  {
    hide ResolveFunc, FindReloc, Effects;
    var elf :| IsHome(input, f, elf) && n < |Instructions(elf, f)|
               && DirectTarget(elf, elf.defined[f].section.value, Instructions(elf, f)[n]) == Some(g);
    var section, insns := elf.defined[f].section.value, Instructions(elf, f);
    forall m | 0 <= m <= n ensures !insns[m].priv {
      assert !PassedOver(input, f, n);
    }
    NotCutShort(input, elf, f, section, insns, n);
    assert InsnEffect(input, elf, f, section, insns[n]) == Queue(g);
    assert Queue(g) in Findings(input, f);
  }

  /** Without a privileged instruction so far there is an effect for the next. */
  lemma {:induction false} NotCutShort(input: Input, elf: Elf, f: string, section: nat, insns: seq<Insn>, n: nat)
    requires section < |elf.sections| && n < |insns| && forall m :: 0 <= m <= n ==> !insns[m].priv
    ensures InsnEffect(input, elf, f, section, insns[n]) in Effects(input, elf, f, section, insns)
  {
    hide InsnEffect;
    if n > 0 {
      NotCutShort(input, elf, f, section, insns[1..], n - 1);
    }
  }

  ghost predicate Visited(input: Input, target: string, f: string) { Reaches(Succ(input), target, f) }

  ghost predicate Reachable(input: Input, target: string, f: string) { Reaches(AllSucc(input), target, f) }

  /** Every jump that is passed over leads to a function that is visited all the same. */
  ghost predicate SkipsStay(input: Input, target: string) {
    forall f, g :: Visited(input, target, f) && Skips(input, f, g) ==> Visited(input, target, g)
  }

  lemma VisitedIsReachable(input: Input, target: string, f: string)
    requires Visited(input, target, f)
    ensures Reachable(input, target, f)
  {
    var p :| Path(Succ(input), p) && p[0] == target && p[|p| - 1] == f;
    forall i | 0 <= i < |p| - 1 ensures p[i + 1] in AllSucc(input)(p[i]) {
      assert p[i + 1] in Succ(input)(p[i]);
    }
    assert Path(AllSucc(input), p);
  }

  lemma {:induction false} AlongPath(input: Input, target: string, p: seq<string>, i: nat)
    requires SkipsStay(input, target) && Path(AllSucc(input), p) && p[0] == target && i < |p|
    ensures Visited(input, target, p[i])
  {
    hide Edges, Reaches;
    if i == 0 {
      ReachesSelf(Succ(input), target);
    } else {
      AlongPath(input, target, p, i - 1);
      var f, g := p[i - 1], p[i];
      assert p[i - 1 + 1] in AllSucc(input)(f);
      if g in Edges(input, f) {
        ReachesNext(Succ(input), target, f, g);
      } else if g != f {
        var n: nat :| JumpsAt(input, f, g, n);
        if !PassedOver(input, f, n) {
          JumpFollowed(input, f, g, n);
        }
        assert Skips(input, f, g);
      }
    }
  }

  /**
   The functions visited are all that the code can reach, over conditional jumps too, if and only if no visited function
   has a jump that is passed over and leads to one that is not visited.
   */
  lemma VisitsAll(input: Input, target: string)
    ensures (forall f :: Reachable(input, target, f) <==> Visited(input, target, f)) <==> SkipsStay(input, target)
  {
    hide Reaches, Skips, Jumps, AllEdges;
    if SkipsStay(input, target) {
      forall f ensures Reachable(input, target, f) <==> Visited(input, target, f) {
        if Reachable(input, target, f) {
          OverPath(input, target, f);
        }
        if Visited(input, target, f) {
          VisitedIsReachable(input, target, f);
        }
      }
    } else {
      var f, g :| Visited(input, target, f) && Skips(input, f, g) && !Visited(input, target, g);
      SkipIsJump(input, f, g);
      JumpIsEdge(input, f, g);
      VisitedIsReachable(input, target, f);
      ReachesNext(AllSucc(input), target, f, g);
      assert Reachable(input, target, g);
    }
  }

  lemma OverPath(input: Input, target: string, f: string)
    requires SkipsStay(input, target) && Reachable(input, target, f)
    ensures Visited(input, target, f)
  {
    hide AllSucc, SkipsStay;
    var p :| Path(AllSucc(input), p) && p[0] == target && p[|p| - 1] == f;
    AlongPath(input, target, p, |p| - 1);
  }

  lemma SkipIsJump(input: Input, f: string, g: string)
    requires Skips(input, f, g)
    ensures Jumps(input, f, g)
  {
  }

  /** A conditional jump of `f` leads to `g`. */
  ghost predicate JumpsConditionally(input: Input, f: string, g: string) {
    g != "" && exists elf, i :: IsHome(input, f, elf) && i in Instructions(elf, f) && !i.branch
                                && DirectTarget(elf, elf.defined[f].section.value, i) == Some(g)
  }

  /** In a clean function, what is passed over are conditional jumps. */
  lemma CleanSkips(input: Input, f: string, g: string)
    requires IsClean(input, f)
    ensures Skips(input, f, g) <==> JumpsConditionally(input, f, g)
  {
    hide DirectTarget, HasCode, IsClean;
    CleanFunction(input, f);
    var elf := Owner(input.elfs, f).value;
    if Skips(input, f, g) {
      var n: nat :| JumpsAt(input, f, g, n) && PassedOver(input, f, n);
      var i := Instructions(elf, f)[n];
      assert forall m :: 0 <= m <= n ==> Instructions(elf, f)[m] in Instructions(elf, f);
      assert i in Instructions(elf, f) && !i.branch;
    }
    if JumpsConditionally(input, f, g) {
      var i :| i in Instructions(elf, f) && !i.branch && DirectTarget(elf, elf.defined[f].section.value, i) == Some(g);
      var n: nat :| n < |Instructions(elf, f)| && Instructions(elf, f)[n] == i;
      assert JumpsAt(input, f, g, n) && PassedOver(input, f, n);
    }
  }

  /** A passing run has visited everything if and only if conditional jumps from visited functions lead to visited ones. */
  lemma PassVisitsAll(input: Input, target: string)
    requires forall f :: Visited(input, target, f) ==> IsClean(input, f)
    ensures (forall f :: Reachable(input, target, f) <==> Visited(input, target, f))
       <==> (forall f, g :: Visited(input, target, f) && JumpsConditionally(input, f, g) ==> Visited(input, target, g))
  {
    hide Reachable, Visited, IsClean, JumpsConditionally, Skips;
    forall f, g | Visited(input, target, f) ensures Skips(input, f, g) <==> JumpsConditionally(input, f, g) {
      CleanSkips(input, f, g);
    }
    VisitsAll(input, target);
  }

  /** All conditional jumps of a function stay in it, or lead to where no named function is. */
  ghost predicate JumpsInside(input: Input, f: string) {
    forall elf, i :: IsHome(input, f, elf) && i in Instructions(elf, f) && !i.branch ==>
      DirectTarget(elf, elf.defined[f].section.value, i) in {None, Some(""), Some(f)}
  }

  /**
   So where conditional jumps stay inside their functions, a passing verdict speaks for everything the code can reach:
   every such function was visited, has an owner and code, and nothing in it counts against it.
   */
  lemma PassIsForAll(input: Input, target: string)
    requires forall f :: JumpsInside(input, f)
    requires forall f :: Visited(input, target, f) ==> IsClean(input, f)
    ensures forall f :: Reachable(input, target, f) ==> Visited(input, target, f) && IsClean(input, f)
  {
    hide Reachable, Visited, IsClean, DirectTarget;
    forall f, g | JumpsConditionally(input, f, g) ensures g == f {
      assert JumpsInside(input, f);
    }
    PassVisitsAll(input, target);
  }

  // ---------------------------------------------------------------------------------------------
  // Bytes

  /** Where instruction `n` begins when the instructions before it follow each other from `base`. */
  ghost function Begin(insns: seq<Insn>, base: int, n: nat): int
    requires n <= |insns|
  {
    if n == 0 then base else Begin(insns, base, n - 1) + insns[n - 1].size
  }

  ghost predicate InRow(insns: seq<Insn>, base: int) {
    forall n :: 0 <= n < |insns| ==> insns[n].address == Begin(insns, base, n)
  }

  /** What a disassembler makes of `size` bytes: instructions one behind the other, up to the first that it cannot read. */
  ghost predicate Decoded(insns: seq<Insn>, base: int, size: nat) {
    InRow(insns, base) && Begin(insns, base, |insns|) <= base + size
  }

  ghost predicate CoversByte(i: Insn, a: int) { i.address <= a < i.address + i.size }

  lemma {:induction false} ByteIsCovered(insns: seq<Insn>, base: int, n: nat, a: int)
    requires n <= |insns| && InRow(insns, base)
    requires base <= a < Begin(insns, base, n)
    ensures exists m :: 0 <= m < n && CoversByte(insns[m], a)
  {
    hide InRow;
    if a < Begin(insns, base, n - 1) {
      ByteIsCovered(insns, base, n - 1, a);
    } else {
      AddressInRow(insns, base, n - 1);
      assert CoversByte(insns[n - 1], a);
    }
  }

  lemma AddressInRow(insns: seq<Insn>, base: int, n: nat)
    requires InRow(insns, base) && n < |insns|
    ensures insns[n].address == Begin(insns, base, n)
  {
    hide Begin;
  }

  lemma {:induction false} BeginGrows(insns: seq<Insn>, base: int, m: nat, n: nat)
    requires m <= n <= |insns|
    ensures Begin(insns, base, m) <= Begin(insns, base, n)
  {
    if m < n {
      BeginGrows(insns, base, m, n - 1);
    }
  }

  /** A byte of the function that was looked at, as part of an instruction. */
  ghost predicate Looked(input: Input, elf: Elf, f: string, a: int)
    requires f in elf.defined && HasCode(elf, f)
  {
    exists i :: i in Instructions(elf, f) && CoversByte(i, a) && IsScanned(input, elf, f, i)
  }

  /** All bytes of a clean function were looked at if and only if the sizes of its instructions add up to its own. */
  lemma AllBytesLooked(input: Input, elf: Elf, f: string)
    requires IsClean(input, f) && IsHome(input, f, elf)
    requires Decoded(Instructions(elf, f), elf.defined[f].value, elf.defined[f].size)
    ensures (forall a :: elf.defined[f].value <= a < elf.defined[f].value + elf.defined[f].size ==>
               Looked(input, elf, f, a))
       <==> Begin(Instructions(elf, f), 0, |Instructions(elf, f)|) == elf.defined[f].size
  {
    hide HasCode, IsClean, IsScanned, InRow;
    var insns, base, size := Instructions(elf, f), elf.defined[f].value, elf.defined[f].size;
    CleanFunction(input, f);
    FromZero(insns, base, |insns|);
    var end := Begin(insns, base, |insns|);
    if end == base + size {
      forall a | base <= a < base + size ensures Looked(input, elf, f, a) {
        ByteIsCovered(insns, base, |insns|, a);
      }
    } else {
      forall i | i in insns ensures !CoversByte(i, end) {
        var n :| 0 <= n < |insns| && insns[n] == i;
        BeginGrows(insns, base, n + 1, |insns|);
        AddressInRow(insns, base, n);
      }
      assert !Looked(input, elf, f, end);
      BeginGrows(insns, base, 0, |insns|);
    }
  }

  lemma {:induction false} FromZero(insns: seq<Insn>, base: int, n: nat)
    requires n <= |insns|
    ensures Begin(insns, base, n) == base + Begin(insns, 0, n)
  {
    if n > 0 {
      FromZero(insns, base, n - 1);
    }
  }
}
