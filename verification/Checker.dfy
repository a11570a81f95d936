/**
 The admission checker: a worklist over function names that scans each function's instructions and relocations.

 Disassembly is a given: `code` holds, per symbol, the instructions that came out for the symbol's bytes.
 */
module Checker {
  import opened Options
  import opened Reachability

  // ---------------------------------------------------------------------------------------------
  // Binaries

  datatype Symbol = Symbol(name: string, section: Option<nat>, value: int, size: nat, isFunc: bool)

  datatype Reloc = Reloc(rtype: nat, symbol: nat, offset: int, addend: int)

  datatype Section = Section(name: string, addr: int, length: nat, exec: bool, relocs: map<int, Reloc>)

  /**
   `branch` is CALL or JMP, `target` the first operand when it is an immediate; a conditional jump has a target too but
   is not a `branch`.
   */
  datatype Insn = Insn(address: int, size: nat, priv: bool, branch: bool, target: Option<int>)

  datatype Elf = Elf(executable: bool, symbols: seq<Symbol>, sections: seq<Section>,
                     defined: map<string, Symbol>, code: map<string, seq<Insn>>)

  /** The binaries in the order names are looked up in them (modules, then vmlinux), and the cut-off names. */
  datatype Input = Input(elfs: seq<Elf>, shims: set<string>, prefixes: seq<string>)

  const EXACT: set<string> := {"__fentry__", "mcount", "__stack_chk_fail", "__stack_chk_fail_local"}

  const PREFIXES: seq<string> :=
    ["__asan_", "__ubsan_", "__tsan_", "__kcfi_", "__llvm_profile_", "__sanitizer_"]

  const INDIRECT_THUNK := "__x86_indirect_thunk_"
  const RETURN_THUNK := "__x86_return_thunk"

  predicate IsAbsolute(rtype: nat) { rtype in {1, 10, 11} }

  predicate IsPcRelative(rtype: nat) { rtype in {2, 4} }

  /** Instrumentation and thunks: calls that are cut off. */
  predicate IsCut(input: Input, name: string) {
    || name in EXACT
    || (exists p :: p in PREFIXES && p <= name)
    || (exists p :: p in input.prefixes && p <= name)
    || INDIRECT_THUNK <= name
    || RETURN_THUNK <= name
  }

  // ---------------------------------------------------------------------------------------------
  // What one instruction contributes

  datatype Effect = Nothing | Queue(name: string) | HardFail | Unanalyzable

  /** The relocation at the lowest offset within the instruction; later ones are not looked at. */
  function FindReloc(relocs: map<int, Reloc>, address: int, size: nat): Option<Reloc>
    decreases size
  {
    if size == 0 then None
    else if address in relocs then Some(relocs[address])
    else FindReloc(relocs, address + 1, size - 1)
  }

  /** The first function symbol of the section whose extent holds the offset. */
  function ResolveFunc(symbols: seq<Symbol>, section: nat, offset: int): Option<string> {
    if symbols == [] then None
    else
      var s := symbols[0];
      if s.isFunc && s.section == Some(section)
         && ((s.size == 0 && s.value == offset) || s.value <= offset < s.value + s.size) then Some(s.name)
      else ResolveFunc(symbols[1..], section, offset)
  }

  function TargetName(elf: Elf, s: Symbol): string {
    if s.name != "" || s.section.None? || s.section.value >= |elf.sections| then s.name
    else elf.sections[s.section.value].name
  }

  /** A negative immediate is read as an unsigned 64-bit address. */
  function Normalize(imm: int): int { if imm < 0 then imm % 0x1_0000_0000_0000_0000 else imm }

  function RelocEffect(input: Input, elf: Elf, i: Insn, r: Reloc): Effect {
    if r.symbol >= |elf.symbols| then Unanalyzable
    else
      var s := elf.symbols[r.symbol];
      var name := TargetName(elf, s);
      if IsAbsolute(r.rtype) then HardFail
      else if !IsPcRelative(r.rtype) || IsCut(input, name) then Nothing
      else if s.section.None? then (if name in input.shims then Nothing else Queue(name))
      else if s.section.value >= |elf.sections| then Unanalyzable
      else if !elf.sections[s.section.value].exec then Nothing
      else if s.isFunc && s.name != "" then Queue(s.name)
      else
        var f := ResolveFunc(elf.symbols, s.section.value, r.addend - r.offset + i.address + i.size);
        if f.Some? && f.value != "" then Queue(f.value) else Unanalyzable
  }

  function InsnEffect(input: Input, elf: Elf, f: string, section: nat, i: Insn): Effect
    requires section < |elf.sections|
  {
    if i.priv then HardFail
    else
      var reloc := FindReloc(elf.sections[section].relocs, i.address, i.size);
      if reloc.Some? then RelocEffect(input, elf, i, reloc.value)
      else if i.branch && i.target.Some? then
        var g := ResolveFunc(elf.symbols, section, Normalize(i.target.value));
        if g.Some? && g.value != f then Queue(g.value) else Nothing
      else Nothing
  }

  // ---------------------------------------------------------------------------------------------
  // What one function contributes

  function Owner(elfs: seq<Elf>, f: string): Option<Elf> {
    if elfs == [] then None else if f in elfs[0].defined then Some(elfs[0]) else Owner(elfs[1..], f)
  }

  /** The section and the instructions of a function whose symbol lies in range, and has some. */
  predicate HasCode(elf: Elf, f: string)
    requires f in elf.defined
  {
    var s := elf.defined[f];
    && s.section.Some? && s.section.value < |elf.sections|
    && s.size > 0
    && var sec := elf.sections[s.section.value];
       var offset := if elf.executable then s.value - sec.addr else s.value;
       0 <= offset && offset + s.size <= sec.length
  }

  function Instructions(elf: Elf, f: string): seq<Insn> { if f in elf.code then elf.code[f] else [] }

  /** The effects of the instructions, up to the first privileged one, where the scan of the function ends. */
  function Effects(input: Input, elf: Elf, f: string, section: nat, insns: seq<Insn>): seq<Effect>
    requires section < |elf.sections|
  {
    if insns == [] then []
    else if insns[0].priv then [HardFail]
    else [InsnEffect(input, elf, f, section, insns[0])] + Effects(input, elf, f, section, insns[1..])
  }

  /** Everything the scan of the function named `f` finds. */
  function Findings(input: Input, f: string): seq<Effect> {
    var elf := Owner(input.elfs, f);
    if elf.None? then []
    else if f in elf.value.defined && HasCode(elf.value, f) then
      Effects(input, elf.value, f, elf.value.defined[f].section.value, Instructions(elf.value, f))
    else []
  }

  predicate IsMissing(input: Input, f: string) { Owner(input.elfs, f).None? }

  predicate HasHardFail(input: Input, f: string) { HardFail in Findings(input, f) }

  /** The scan is not the whole story: no usable code, nothing decoded, or a target that could not be made out. */
  predicate IsIncomplete(input: Input, f: string) {
    !IsMissing(input, f) && (Findings(input, f) == [] || Unanalyzable in Findings(input, f))
  }

  function Edges(input: Input, f: string): set<string> {
    set e | e in Findings(input, f) && e.Queue? && e.name != "" :: e.name
  }

  ghost function Succ(input: Input): string -> set<string> { f => Edges(input, f) }

  // ---------------------------------------------------------------------------------------------
  // The engine

  class Engine {
    const input: Input
    const target: string
    var queue: seq<string>
    var visited: set<string>
    var hardFails: seq<string>
    var missingDeps: set<string>
    var unanalyzable: seq<string>

    constructor (input: Input, target: string)
      ensures this.input == input && this.target == target
      ensures queue == [target] && visited == {} && hardFails == [] && missingDeps == {} && unanalyzable == []
    {
      this.input, this.target := input, target;
      queue, visited, hardFails, missingDeps, unanalyzable := [target], {}, [], {}, [];
    }

    /** The reports name exactly the visited functions they are about. */
    ghost predicate Reported(done: set<string>)
      reads this
    {
      && (forall f :: f in hardFails <==> f in done && HasHardFail(input, f))
      && (forall f :: f in missingDeps <==> f in done && IsMissing(input, f))
      && (forall f :: f in unanalyzable <==> f in done && IsIncomplete(input, f))
    }

    ghost predicate Explored(done: set<string>)
      reads this
    {
      && target in visited + (set g | g in queue)
      && (forall f :: f in visited || f in queue ==> Reaches(Succ(input), target, f))
      && (forall f, g :: f in done && g in Edges(input, f) ==> g in visited || g in queue)
    }

    method QueueFunc(name: string)
      modifies this`queue
      ensures queue == old(queue) || queue == old(queue) + [name]
      ensures name != "" ==> name in visited || name in queue
      ensures name == "" ==> queue == old(queue)
    {
      if name == "" {
        return;
      }
      if name in visited || name in queue {
        return;
      }
      queue := queue + [name];
    }

    /** The scan of one function; the reports gain its name where it has findings, the queue gains its targets. */
    method AnalyzeFunction(f: string, elf: Elf)
      requires Owner(input.elfs, f) == Some(elf) && f in elf.defined
      modifies this`queue, this`hardFails, this`unanalyzable
      ensures forall g :: g in hardFails <==> g in old(hardFails) || (g == f && HasHardFail(input, f))
      ensures forall g :: g in unanalyzable <==> g in old(unanalyzable) || (g == f && IsIncomplete(input, f))
      ensures forall g :: g in old(queue) ==> g in queue
      ensures forall g :: g in queue ==> g in old(queue) || g in Edges(input, f)
      ensures forall g :: g in Edges(input, f) ==> g in visited || g in queue
    {
      hide Effects, InsnEffect;
      if !HasCode(elf, f) {
        unanalyzable := unanalyzable + [f];
        return;
      }
      var section := elf.defined[f].section.value;
      var insns := Instructions(elf, f);
      ghost var findings := Findings(input, f);
      assert findings == Effects(input, elf, f, section, insns);
      EffectsLength(input, elf, f, section, insns);
      var n := 0;
      while n < |insns|
        invariant n <= |insns| && (n < |insns| ==> n < |findings|) && (n == |insns| ==> |findings| == n)
        invariant forall g :: g in hardFails <==> g in old(hardFails) || (g == f && HardFail in findings[..n])
        invariant forall g :: g in unanalyzable <==> g in old(unanalyzable) || (g == f && Unanalyzable in findings[..n])
        invariant forall g :: g in old(queue) ==> g in queue
        invariant forall g :: g in queue ==> g in old(queue) || g in Edges(input, f)
        invariant forall k :: 0 <= k < n && findings[k].Queue? && findings[k].name != "" ==>
                    findings[k].name in visited || findings[k].name in queue
      {
        EffectsAt(input, elf, f, section, insns, n);
        assert findings[..n + 1] == findings[..n] + [findings[n]];
        if insns[n].priv {
          hardFails := hardFails + [f];
          PrivFails(input, elf, f, section, insns[n]);
          assert findings[..n + 1] == findings;
          return;
        }
        match InsnEffect(input, elf, f, section, insns[n]) {
          case Nothing =>
          case HardFail => hardFails := hardFails + [f];
          case Unanalyzable => unanalyzable := unanalyzable + [f];
          case Queue(name) => QueueFunc(name);
        }
        n := n + 1;
      }
      assert findings[..n] == findings;
      if n == 0 {
        unanalyzable := unanalyzable + [f];
      }
    }

    /** What is done with a name taken from the queue for the first time. */
    method Visit(f: string)
      requires f !in visited && Reported(visited)
      modifies this
      ensures visited == old(visited) + {f} && Reported(visited)
      ensures forall g :: g in old(queue) ==> g in queue
      ensures forall g :: g in queue ==> g in old(queue) || g in Edges(input, f)
      ensures forall g :: g in Edges(input, f) ==> g in visited || g in queue
    {
      hide HasHardFail, IsIncomplete, Edges, Findings, Owner;
      visited := visited + {f};
      var owner := Owner(input.elfs, f);
      if owner.None? {
        missingDeps := missingDeps + {f};
        MissingHasNothing(input, f);
      } else {
        OwnerDefines(input.elfs, f);
        AnalyzeFunction(f, owner.value);
      }
    }

    /** One turn of the worklist loop. */
    method Next()
      requires queue != [] && Explored(visited) && Reported(visited)
      modifies this
      ensures Explored(visited) && Reported(visited)
      ensures forall f :: f in visited || f in queue ==> f in old(visited) || f in old(queue) || f in Names(input)
      ensures (visited == old(visited) && |queue| == |old(queue)| - 1)
           || (exists f :: f in old(queue) && f !in old(visited) && visited == old(visited) + {f})
    {
      hide Edges, Names, Reaches, HasHardFail, IsMissing, IsIncomplete;
      var f := queue[0];
      ghost var before := queue;
      queue := queue[1..];
      assert before == [f] + queue;
      if f in visited {
        return;
      }
      Visit(f);
      NamesHaveEdges(input, f);
      forall g | g in Edges(input, f) ensures Reaches(Succ(input), target, g) {
        ReachesNext(Succ(input), target, f, g);
      }
    }

    /** The worklist loop; it ends with every reachable function visited, and nothing else. */
    method Analyze()
      requires queue == [target] && visited == {} && hardFails == [] && missingDeps == {} && unanalyzable == []
      modifies this
      ensures queue == [] && Reported(visited)
      ensures forall f :: f in visited <==> Reaches(Succ(input), target, f)
    {
      hide Edges, Names, Reaches, HasHardFail, IsMissing, IsIncomplete;
      ghost var all := Names(input) + {target};
      ReachesSelf(Succ(input), target);
      while queue != []
        invariant Explored(visited) && Reported(visited)
        invariant forall f :: f in visited || f in queue ==> f in all
        decreases all - visited, |queue|
      {
        Next();
      }
      ReachableSet(Succ(input), target, visited);
    }

    /** The exit code. */
    method Verdict() returns (code: nat)
      ensures code == if hardFails != [] then 1 else if missingDeps != {} || unanalyzable != [] then 2 else 0
    {
      if hardFails != [] {
        code := 1;
      } else if missingDeps != {} || unanalyzable != [] {
        code := 2;
      } else {
        code := 0;
      }
    }
  }

  lemma PrivFails(input: Input, elf: Elf, f: string, section: nat, i: Insn)
    requires section < |elf.sections| && i.priv
    ensures InsnEffect(input, elf, f, section, i) == HardFail
  {
  }

  lemma MissingHasNothing(input: Input, f: string)
    requires Owner(input.elfs, f).None?
    ensures Edges(input, f) == {} && !HasHardFail(input, f) && !IsIncomplete(input, f)
  {
    assert Findings(input, f) == [];
  }

  lemma {:induction false} OwnerDefines(elfs: seq<Elf>, f: string)
    requires Owner(elfs, f).Some?
    ensures f in Owner(elfs, f).value.defined
  {
    if f !in elfs[0].defined { OwnerDefines(elfs[1..], f); }
  }

  /** One effect per instruction, unless a privileged one ends the scan. */
  lemma {:induction false} EffectsLength(input: Input, elf: Elf, f: string, section: nat, insns: seq<Insn>)
    requires section < |elf.sections|
    ensures insns != [] ==> Effects(input, elf, f, section, insns) != []
    ensures insns == [] ==> Effects(input, elf, f, section, insns) == []
  {
  }

  /** Effect `n`, when no instruction before it is privileged. */
  lemma {:induction false} EffectsAt(input: Input, elf: Elf, f: string, section: nat, insns: seq<Insn>, n: nat)
    requires section < |elf.sections| && n < |insns| && n < |Effects(input, elf, f, section, insns)|
    ensures Effects(input, elf, f, section, insns)[n] == InsnEffect(input, elf, f, section, insns[n])
    ensures insns[n].priv ==> |Effects(input, elf, f, section, insns)| == n + 1
    ensures !insns[n].priv ==> (n + 1 < |insns| <==> n + 1 < |Effects(input, elf, f, section, insns)|)
  {
    if n > 0 {
      EffectsAt(input, elf, f, section, insns[1..], n - 1);
    } else if !insns[0].priv && |insns| > 1 {
      EffectsLength(input, elf, f, section, insns[1..]);
    }
  }

  /** All names that any defined function can add to the queue. */
  ghost function Names(input: Input): set<string> {
    set f, g | f in Defined(input.elfs) && g in Edges(input, f) :: g
  }

  ghost function Defined(elfs: seq<Elf>): set<string> {
    if elfs == [] then {} else elfs[0].defined.Keys + Defined(elfs[1..])
  }

  lemma {:induction false} OwnedIsDefined(elfs: seq<Elf>, f: string)
    requires Owner(elfs, f).Some?
    ensures f in Defined(elfs)
  {
    if f !in elfs[0].defined { OwnedIsDefined(elfs[1..], f); }
  }

  lemma NamesHaveEdges(input: Input, f: string)
    ensures Edges(input, f) <= Names(input)
  {
    if Owner(input.elfs, f).Some? {
      OwnedIsDefined(input.elfs, f);
    } else {
      assert Findings(input, f) == [];
    }
  }

  // ---------------------------------------------------------------------------------------------
  // What the verdict means

  /** Owned, with code in range that decodes to something, and nothing found that counts against it. */
  predicate IsClean(input: Input, f: string) {
    !IsMissing(input, f) && !HasHardFail(input, f) && !IsIncomplete(input, f)
  }

  lemma {:induction false} EffectsComplete(input: Input, elf: Elf, f: string, section: nat, insns: seq<Insn>, n: nat)
    requires section < |elf.sections| && n < |insns|
    requires HardFail !in Effects(input, elf, f, section, insns)
    ensures !insns[n].priv && InsnEffect(input, elf, f, section, insns[n]) in Effects(input, elf, f, section, insns)
  {
    var effects := Effects(input, elf, f, section, insns);
    assert insns[0].priv ==> effects == [HardFail];
    if n > 0 {
      forall e | e in Effects(input, elf, f, section, insns[1..]) ensures e in effects {
      }
      EffectsComplete(input, elf, f, section, insns[1..], n - 1);
    } else {
      assert effects[0] == InsnEffect(input, elf, f, section, insns[0]);
    }
  }

  ghost predicate IsScanned(input: Input, elf: Elf, f: string, i: Insn)
    requires f in elf.defined && HasCode(elf, f)
  {
    var section := elf.defined[f].section.value;
    var reloc := FindReloc(elf.sections[section].relocs, i.address, i.size);
    var effect := InsnEffect(input, elf, f, section, i);
    && !i.priv
    && (reloc.Some? ==> reloc.value.symbol < |elf.symbols| && !IsAbsolute(reloc.value.rtype))
    && !effect.Unanalyzable?
    && (effect.Queue? && effect.name != "" ==> effect.name in Edges(input, f))
  }

  /**
   What a clean function is like: it has an owner and code in range, none of its instructions is privileged, the first
   relocation of none is absolute, and every target the scan can make out is followed.
   */
  lemma CleanFunction(input: Input, f: string)
    requires IsClean(input, f)
    ensures Owner(input.elfs, f).Some? && f in Owner(input.elfs, f).value.defined
    ensures HasCode(Owner(input.elfs, f).value, f) && Instructions(Owner(input.elfs, f).value, f) != []
    ensures forall i :: i in Instructions(Owner(input.elfs, f).value, f) ==>
              IsScanned(input, Owner(input.elfs, f).value, f, i)
  {
    OwnerDefines(input.elfs, f);
    var elf := Owner(input.elfs, f).value;
    var section := elf.defined[f].section.value;
    var insns := Instructions(elf, f);
    assert Findings(input, f) == Effects(input, elf, f, section, insns);
    forall n | 0 <= n < |insns| ensures IsScanned(input, elf, f, insns[n]) {
      EffectsComplete(input, elf, f, section, insns, n);
    }
  }

  // ---------------------------------------------------------------------------------------------
  // What the verdict does not mean

  predicate AbsoluteAt(relocs: map<int, Reloc>, i: Insn, at: int) {
    i.address <= at < i.address + i.size && at in relocs && IsAbsolute(relocs[at].rtype)
  }

  /** An absolute relocation that stands behind another relocation of the same instruction. */
  ghost predicate HiddenAt(relocs: map<int, Reloc>, i: Insn, at: int) {
    AbsoluteAt(relocs, i, at) && exists before :: i.address <= before < at && before in relocs
  }

  lemma {:induction false} FindRelocIsFirst(relocs: map<int, Reloc>, address: int, size: nat, at: int)
    requires address <= at < address + size && at in relocs
    requires forall before :: address <= before < at ==> before !in relocs
    ensures FindReloc(relocs, address, size) == Some(relocs[at])
    decreases size
  {
    if address < at {
      FindRelocIsFirst(relocs, address + 1, size - 1, at);
    }
  }

  /**
   An instruction of a clean function is free of absolute relocations if and only if none hides behind another relocation
   of the instruction; in particular when each instruction carries at most one.
   */
  lemma AbsoluteFree(input: Input, elf: Elf, f: string, i: Insn)
    requires f in elf.defined && HasCode(elf, f) && IsScanned(input, elf, f, i)
    ensures (exists at :: AbsoluteAt(elf.sections[elf.defined[f].section.value].relocs, i, at))
       <==> (exists at :: HiddenAt(elf.sections[elf.defined[f].section.value].relocs, i, at))
  {
    var relocs := elf.sections[elf.defined[f].section.value].relocs;
    if at :| AbsoluteAt(relocs, i, at) {
      if forall before :: i.address <= before < at ==> before !in relocs {
        FindRelocIsFirst(relocs, i.address, i.size, at);
        assert false;
      }
      assert HiddenAt(relocs, i, at);
    }
  }

  const TWO_RELOCS := Insn(0, 11, false, false, None)

  const CONDITIONAL := Insn(11, 6, false, false, Some(64))

  /** One function of 32 bytes, of which 17 were decoded, next to a function "h" it jumps to. */
  const BLIND: Elf :=
    var f, h := Symbol("f", Some(0), 0, 32, true), Symbol("h", Some(0), 64, 16, true);
    Elf(false, [f, h, Symbol("g", None, 0, 0, false)],
        [Section(".text", 0, 128, true, map[3 := Reloc(2, 2, 3, -8), 7 := Reloc(11, 2, 7, 0)])],
        map["f" := f, "h" := h], map["f" := [TWO_RELOCS, CONDITIONAL]])

  lemma BlindFindings(input: Input)
    requires input == Input([BLIND], {"g"}, [])
    ensures Findings(input, "f") == [Nothing, Nothing]
  {
    var relocs := BLIND.sections[0].relocs;
    assert FindReloc(relocs, 0, 11) == FindReloc(relocs, 1, 10) == FindReloc(relocs, 2, 9)
        == FindReloc(relocs, 3, 8) == Some(Reloc(2, 2, 3, -8));
    assert FindReloc(relocs, 11, 6) == FindReloc(relocs, 12, 5) == FindReloc(relocs, 13, 4)
        == FindReloc(relocs, 14, 3) == FindReloc(relocs, 15, 2) == FindReloc(relocs, 16, 1) == None;
    assert InsnEffect(input, BLIND, "f", 0, TWO_RELOCS) == Nothing;
    assert InsnEffect(input, BLIND, "f", 0, CONDITIONAL) == Nothing;
    assert [TWO_RELOCS, CONDITIONAL][1..] == [CONDITIONAL] && [CONDITIONAL][1..] == [];
    assert Effects(input, BLIND, "f", 0, [CONDITIONAL]) == [Nothing] + Effects(input, BLIND, "f", 0, []);
  }

  /**
   Three things a passing function may still do: carry a second, absolute relocation in one instruction, jump
   conditionally into another function, and go on after the last instruction that was decoded.
   */
  lemma BlindSpots(input: Input)
    requires input == Input([BLIND], {"g"}, [])
    ensures forall f :: Reaches(Succ(input), "f", f) ==> f == "f" && IsClean(input, f)
    ensures Instructions(BLIND, "f") == [TWO_RELOCS, CONDITIONAL]
    ensures AbsoluteAt(BLIND.sections[0].relocs, TWO_RELOCS, 7)
    ensures ResolveFunc(BLIND.symbols, 0, CONDITIONAL.target.value) == Some("h")
    ensures TWO_RELOCS.size + CONDITIONAL.size < BLIND.defined["f"].size
  {
    hide Findings;
    BlindFindings(input);
    assert Edges(input, "f") == {};
    assert BLIND.symbols[1..][0] == BLIND.defined["h"];
    assert Closed(Succ(input), {"f"});
    ReachesSelf(Succ(input), "f");
    ReachableSet(Succ(input), "f", {"f"});
  }
}
