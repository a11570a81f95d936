/** What the exit code of the admission checker says about instructions, relocations and symbols. */
module CheckerVerdict {
  import opened Checker
  import opened Options
  import opened Reachability

  // ---------------------------------------------------------------------------------------------
  // Binaries, as they are

  /** The first binary that defines the name, where the symbol's bytes lie in its section. */
  ghost predicate IsHome(input: Input, f: string, elf: Elf) {
    && (exists n :: 0 <= n < |input.elfs| && input.elfs[n] == elf && f in elf.defined
                    && forall m :: 0 <= m < n ==> f !in input.elfs[m].defined)
    && var s := elf.defined[f];
       s.section.Some? && s.section.value < |elf.sections| && s.size > 0
       && var sec := elf.sections[s.section.value];
          var offset := if elf.executable then s.value - sec.addr else s.value;
          0 <= offset && offset + s.size <= sec.length
  }

  ghost predicate IsFirstReloc(relocs: map<int, Reloc>, i: Insn, r: Reloc) {
    exists at :: i.address <= at < i.address + i.size && at in relocs && relocs[at] == r
                 && forall before :: i.address <= before < at ==> before !in relocs
  }

  ghost predicate NoReloc(relocs: map<int, Reloc>, i: Insn) {
    forall at :: i.address <= at < i.address + i.size ==> at !in relocs
  }

  /** A symbol's name, or its section's when it has none. */
  ghost function NameOf(elf: Elf, s: Symbol): string {
    if s.name == "" && s.section.Some? && s.section.value < |elf.sections| then elf.sections[s.section.value].name
    else s.name
  }

  /** Names of instrumentation and thunks. */
  ghost predicate CutOff(input: Input, name: string) {
    || name in {"__fentry__", "mcount", "__stack_chk_fail", "__stack_chk_fail_local"}
    || "__asan_" <= name || "__ubsan_" <= name || "__tsan_" <= name || "__kcfi_" <= name
    || "__llvm_profile_" <= name || "__sanitizer_" <= name
    || "__x86_indirect_thunk_" <= name || "__x86_return_thunk" <= name
    || exists p :: p in input.prefixes && p <= name
  }

  /** The function symbol at an offset of a section: the first whose extent holds it. */
  ghost predicate IsFuncAt(elf: Elf, section: nat, offset: int, k: int) {
    0 <= k < |elf.symbols| && Spans(elf.symbols[k], section, offset)
    && forall j :: 0 <= j < k ==> !Spans(elf.symbols[j], section, offset)
  }

  ghost predicate Spans(s: Symbol, section: nat, offset: int) {
    s.isFunc && s.section == Some(section)
    && ((s.size == 0 && s.value == offset) || s.value <= offset < s.value + s.size)
  }

  /** Where a pc-relative relocation of an instruction points to, in the section of its symbol. */
  ghost function PointsAt(i: Insn, r: Reloc): int { r.addend - r.offset + i.address + i.size }

  ghost function Address(imm: int): int { if imm >= 0 then imm else imm % 0x1_0000_0000_0000_0000 }

  // ---------------------------------------------------------------------------------------------
  // One instruction

  /** A pc-relative relocation that is not cut off is accounted for, given what was visited. */
  ghost predicate RelocFollowed(input: Input, elf: Elf, i: Insn, r: Reloc, visited: set<string>)
    requires r.symbol < |elf.symbols|
  {
    var s := elf.symbols[r.symbol];
    match s.section
    case None => s.name == "" || s.name in input.shims || s.name in visited
    case Some(section) =>
      section < |elf.sections| &&
      (elf.sections[section].exec ==>
         if s.isFunc && s.name != "" then s.name in visited
         else exists k :: IsFuncAt(elf, section, PointsAt(i, r), k) && elf.symbols[k].name != ""
                          && elf.symbols[k].name in visited)
  }

  /** Nothing about the instruction speaks against the function, and all that it leads to was visited. */
  ghost predicate InsnPasses(input: Input, elf: Elf, section: nat, i: Insn, visited: set<string>)
    requires section < |elf.sections|
  {
    && !i.priv
    && (forall r :: IsFirstReloc(elf.sections[section].relocs, i, r) ==>
          && r.symbol < |elf.symbols| && r.rtype !in {1, 10, 11}
          && (r.rtype in {2, 4} && !CutOff(input, NameOf(elf, elf.symbols[r.symbol])) ==>
                RelocFollowed(input, elf, i, r, visited)))
    && (NoReloc(elf.sections[section].relocs, i) && i.branch && i.target.Some? ==>
          forall k :: IsFuncAt(elf, section, Address(i.target.value), k) && elf.symbols[k].name != "" ==>
            elf.symbols[k].name in visited)
  }

  /** The instruction leads to the function `g`. */
  ghost predicate InsnLeads(input: Input, elf: Elf, section: nat, i: Insn, g: string)
    requires section < |elf.sections|
  {
    || (exists r :: IsFirstReloc(elf.sections[section].relocs, i, r) && r.symbol < |elf.symbols| && r.rtype in {2, 4}
                    && !CutOff(input, NameOf(elf, elf.symbols[r.symbol])) && RelocLeads(input, elf, i, r, g))
    || (NoReloc(elf.sections[section].relocs, i) && i.branch && i.target.Some?
        && exists k :: IsFuncAt(elf, section, Address(i.target.value), k) && elf.symbols[k].name == g)
  }

  ghost predicate RelocLeads(input: Input, elf: Elf, i: Insn, r: Reloc, g: string)
    requires r.symbol < |elf.symbols|
  {
    var s := elf.symbols[r.symbol];
    match s.section
    case None => s.name == g && g !in input.shims
    case Some(section) =>
      section < |elf.sections| && elf.sections[section].exec
      && if s.isFunc && s.name != "" then s.name == g
         else exists k :: IsFuncAt(elf, section, PointsAt(i, r), k) && elf.symbols[k].name == g
  }

  // ---------------------------------------------------------------------------------------------
  // One function

  /** It is defined somewhere, has bytes that decode to something, and all its instructions pass. */
  ghost predicate Passes(input: Input, f: string, visited: set<string>) {
    exists elf :: IsHome(input, f, elf) && f in elf.code && elf.code[f] != []
                  && forall i :: i in elf.code[f] ==> InsnPasses(input, elf, elf.defined[f].section.value, i, visited)
  }

  /** Instruction `n`, with no privileged one before it. */
  ghost predicate IsScannedAt(input: Input, f: string, elf: Elf, n: nat) {
    IsHome(input, f, elf) && f in elf.code && n < |elf.code[f]| && forall m :: 0 <= m < n ==> !elf.code[f][m].priv
  }

  ghost predicate LeadsTo(input: Input, f: string, g: string) {
    exists elf, n: nat :: IsScannedAt(input, f, elf, n) && !elf.code[f][n].priv
                          && InsnLeads(input, elf, elf.defined[f].section.value, elf.code[f][n], g)
  }

  /** A privileged instruction, or an absolute relocation that comes first in an instruction before any such. */
  ghost predicate FailsHard(input: Input, f: string) {
    exists elf, n: nat :: IsScannedAt(input, f, elf, n)
                          && (elf.code[f][n].priv
                              || exists r ::
                                   IsFirstReloc(elf.sections[elf.defined[f].section.value].relocs, elf.code[f][n], r)
                                             && r.symbol < |elf.symbols| && r.rtype in {1, 10, 11})
  }

  // ---------------------------------------------------------------------------------------------
  // From the scan to the facts

  lemma {:induction false} FirstRelocFound(relocs: map<int, Reloc>, address: int, size: nat, i: Insn)
    requires i.address <= address && address + size == i.address + i.size
    requires forall at :: i.address <= at < address ==> at !in relocs
    ensures FindReloc(relocs, address, size).Some? ==> IsFirstReloc(relocs, i, FindReloc(relocs, address, size).value)
    ensures FindReloc(relocs, address, size).None? ==> NoReloc(relocs, i)
    decreases size
  {
    if size != 0 && address !in relocs {
      FirstRelocFound(relocs, address + 1, size - 1, i);
    }
  }

  lemma FirstRelocUnique(relocs: map<int, Reloc>, i: Insn, r: Reloc, q: Reloc)
    requires IsFirstReloc(relocs, i, r) && IsFirstReloc(relocs, i, q)
    ensures r == q && !NoReloc(relocs, i)
  {
  }

  lemma {:induction false} FuncFound(symbols: seq<Symbol>, section: nat, offset: int, elf: Elf, base: nat)
    requires base <= |elf.symbols| && symbols == elf.symbols[base..]
    requires forall j :: 0 <= j < base ==> !Spans(elf.symbols[j], section, offset)
    ensures ResolveFunc(symbols, section, offset).None? ==> forall k :: !IsFuncAt(elf, section, offset, k)
    ensures ResolveFunc(symbols, section, offset).Some? ==>
              exists k :: IsFuncAt(elf, section, offset, k)
                          && elf.symbols[k].name == ResolveFunc(symbols, section, offset).value
    decreases |symbols|
  {
    if symbols != [] {
      assert symbols[0] == elf.symbols[base] && symbols[1..] == elf.symbols[base + 1..];
      if Spans(symbols[0], section, offset) {
        assert IsFuncAt(elf, section, offset, base);
      } else {
        FuncFound(symbols[1..], section, offset, elf, base + 1);
      }
    }
  }

  lemma FuncUnique(elf: Elf, section: nat, offset: int, j: int, k: int)
    requires IsFuncAt(elf, section, offset, j) && IsFuncAt(elf, section, offset, k)
    ensures j == k
  {
  }

  /** The name that is looked up is that of the function at the offset. */
  lemma FuncNamed(elf: Elf, section: nat, offset: int, p: string -> bool)
    ensures ResolveFunc(elf.symbols, section, offset).Some? && p(ResolveFunc(elf.symbols, section, offset).value)
       <==> exists k :: IsFuncAt(elf, section, offset, k) && p(elf.symbols[k].name)
  {
    hide ResolveFunc, Spans;
    assert elf.symbols[0..] == elf.symbols;
    FuncFound(elf.symbols, section, offset, elf, 0);
    if k :| IsFuncAt(elf, section, offset, k) && p(elf.symbols[k].name) {
      var j :| IsFuncAt(elf, section, offset, j) && elf.symbols[j].name == ResolveFunc(elf.symbols, section, offset).value;
      FuncUnique(elf, section, offset, j, k);
    }
  }

  lemma CutIsCutOff(input: Input, name: string)
    ensures IsCut(input, name) <==> CutOff(input, name)
  {
    var known := ["__asan_", "__ubsan_", "__tsan_", "__kcfi_", "__llvm_profile_", "__sanitizer_"];
    assert PREFIXES == known;
    assert known[0] in known && known[1] in known && known[2] in known && known[3] in known && known[4] in known
        && known[5] in known;
  }

  ghost predicate Harmless(e: Effect, visited: set<string>) {
    e != HardFail && e != Unanalyzable && (e.Queue? && e.name != "" ==> e.name in visited)
  }

  /** What the scan makes of a relocation. */
  lemma RelocMeans(input: Input, elf: Elf, i: Insn, r: Reloc, visited: set<string>)
    ensures Harmless(RelocEffect(input, elf, i, r), visited) <==>
              && r.symbol < |elf.symbols| && r.rtype !in {1, 10, 11}
              && (r.rtype in {2, 4} && !CutOff(input, NameOf(elf, elf.symbols[r.symbol])) ==>
                    RelocFollowed(input, elf, i, r, visited))
  {
    hide ResolveFunc, IsCut, CutOff, IsFuncAt;
    if r.symbol < |elf.symbols| {
      var s := elf.symbols[r.symbol];
      assert TargetName(elf, s) == NameOf(elf, s);
      CutIsCutOff(input, NameOf(elf, s));
      if s.section.Some? {
        FuncNamed(elf, s.section.value, PointsAt(i, r), (name: string) => name != "" && name in visited);
        FuncNamed(elf, s.section.value, PointsAt(i, r), (name: string) => name != "");
      }
    }
  }

  lemma InsnMeans(input: Input, elf: Elf, f: string, section: nat, i: Insn, visited: set<string>)
    requires section < |elf.sections| && f in visited
    ensures Harmless(InsnEffect(input, elf, f, section, i), visited) <==> InsnPasses(input, elf, section, i, visited)
  {
    hide RelocEffect, ResolveFunc, FindReloc, IsFuncAt, RelocFollowed, CutOff, IsFirstReloc, NoReloc;
    var relocs := elf.sections[section].relocs;
    FirstRelocFound(relocs, i.address, i.size, i);
    var found := FindReloc(relocs, i.address, i.size);
    if found.Some? {
      RelocMeans(input, elf, i, found.value, visited);
      forall r | IsFirstReloc(relocs, i, r) ensures r == found.value {
        FirstRelocUnique(relocs, i, r, found.value);
      }
      FirstRelocUnique(relocs, i, found.value, found.value);
    } else {
      NoneIsFirst(relocs, i);
      if i.target.Some? {
        FuncNamed(elf, section, Address(i.target.value), (name: string) => name != "" && name !in visited);
      }
    }
  }

  lemma NoneIsFirst(relocs: map<int, Reloc>, i: Insn)
    requires NoReloc(relocs, i)
    ensures forall r :: !IsFirstReloc(relocs, i, r)
  {
  }

  /** What an instruction puts on the queue. */
  lemma InsnQueues(input: Input, elf: Elf, f: string, section: nat, i: Insn, g: string)
    requires section < |elf.sections| && !i.priv && InsnEffect(input, elf, f, section, i) == Queue(g)
    ensures InsnLeads(input, elf, section, i, g)
  {
    hide ResolveFunc, FindReloc, IsFuncAt, CutOff, IsCut, IsFirstReloc, NoReloc;
    var relocs := elf.sections[section].relocs;
    FirstRelocFound(relocs, i.address, i.size, i);
    var found := FindReloc(relocs, i.address, i.size);
    if found.Some? {
      var r := found.value;
      var s := elf.symbols[r.symbol];
      assert TargetName(elf, s) == NameOf(elf, s);
      CutIsCutOff(input, NameOf(elf, s));
      if s.section.Some? {
        FuncNamed(elf, s.section.value, PointsAt(i, r), (name: string) => name == g);
      }
      assert RelocLeads(input, elf, i, r, g);
    } else {
      FuncNamed(elf, section, Address(i.target.value), (name: string) => name == g);
    }
  }

  // ---------------------------------------------------------------------------------------------
  // One function

  lemma {:induction false} OwnerIsFirst(elfs: seq<Elf>, f: string)
    ensures Owner(elfs, f).None? <==> forall n :: 0 <= n < |elfs| ==> f !in elfs[n].defined
    ensures Owner(elfs, f).Some? ==>
              exists n :: 0 <= n < |elfs| && elfs[n] == Owner(elfs, f).value && f in elfs[n].defined
                          && forall m :: 0 <= m < n ==> f !in elfs[m].defined
  {
    if elfs != [] {
      if f in elfs[0].defined {
        assert elfs[0] == Owner(elfs, f).value;
      } else {
        OwnerIsFirst(elfs[1..], f);
        if Owner(elfs, f).Some? {
          var n :| 0 <= n < |elfs[1..]| && elfs[1..][n] == Owner(elfs, f).value && f in elfs[1..][n].defined
                   && forall m :: 0 <= m < n ==> f !in elfs[1..][m].defined;
          assert elfs[n + 1] == elfs[1..][n];
          forall m | 0 <= m < n + 1 ensures f !in elfs[m].defined {
            assert m > 0 ==> elfs[m] == elfs[1..][m - 1];
          }
        } else {
          forall n | 0 <= n < |elfs| ensures f !in elfs[n].defined {
            assert n > 0 ==> elfs[n] == elfs[1..][n - 1];
          }
        }
      }
    }
  }

  lemma HomeIsOwner(input: Input, f: string, elf: Elf)
    ensures IsHome(input, f, elf) <==> Owner(input.elfs, f) == Some(elf) && f in elf.defined && HasCode(elf, f)
  {
    OwnerIsFirst(input.elfs, f);
  }

  lemma HomeFindings(input: Input, f: string, elf: Elf)
    requires IsHome(input, f, elf)
    ensures elf.defined[f].section.Some? && elf.defined[f].section.value < |elf.sections|
    ensures Findings(input, f) == Effects(input, elf, f, elf.defined[f].section.value, Instructions(elf, f))
    ensures !IsMissing(input, f)
  {
    hide Effects;
    HomeIsOwner(input, f, elf);
  }

  /** Effects come from instructions that have no privileged one before them. */
  lemma {:induction false} EffectFrom(input: Input, elf: Elf, f: string, section: nat, insns: seq<Insn>, e: Effect)
    returns (n: nat)
    requires section < |elf.sections| && e in Effects(input, elf, f, section, insns)
    ensures n < |insns| && (forall m :: 0 <= m < n ==> !insns[m].priv)
    ensures e == InsnEffect(input, elf, f, section, insns[n])
  {
    hide InsnEffect;
    n := 0;
    if insns[0].priv {
      PrivFails(input, elf, f, section, insns[0]);
    } else if e != InsnEffect(input, elf, f, section, insns[0]) {
      var rest := EffectFrom(input, elf, f, section, insns[1..], e);
      n := rest + 1;
      forall m | 0 <= m < n ensures !insns[m].priv {
        assert m > 0 ==> insns[m] == insns[1..][m - 1];
      }
    }
  }

  /** And every such instruction has its effect. */
  lemma {:induction false} EffectThere(input: Input, elf: Elf, f: string, section: nat, insns: seq<Insn>, n: nat)
    requires section < |elf.sections| && n < |insns| && forall m :: 0 <= m < n ==> !insns[m].priv
    ensures InsnEffect(input, elf, f, section, insns[n]) in Effects(input, elf, f, section, insns)
  {
    hide InsnEffect;
    if n > 0 {
      EffectThere(input, elf, f, section, insns[1..], n - 1);
    } else if insns[0].priv {
      PrivFails(input, elf, f, section, insns[0]);
    }
  }

  /** A function passes when it is clean and what it leads to was visited, and only then. */
  lemma PassesExactly(input: Input, f: string, visited: set<string>)
    requires f in visited && Edges(input, f) <= visited
    ensures Passes(input, f, visited) <==> IsClean(input, f)
  {
    hide InsnEffect, Effects, InsnPasses;
    if IsClean(input, f) {
      CleanPasses(input, f, visited);
    }
    if Passes(input, f, visited) {
      var elf :| IsHome(input, f, elf) && f in elf.code && elf.code[f] != []
                 && forall i :: i in elf.code[f] ==> InsnPasses(input, elf, elf.defined[f].section.value, i, visited);
      HomeFindings(input, f, elf);
      var section, insns := elf.defined[f].section.value, elf.code[f];
      EffectsLength(input, elf, f, section, insns);
      forall e | e in Findings(input, f) ensures e != HardFail && e != Unanalyzable {
        var n := EffectFrom(input, elf, f, section, insns, e);
        assert insns[n] in insns;
        InsnMeans(input, elf, f, section, insns[n], visited);
      }
    }
  }

  lemma CleanPasses(input: Input, f: string, visited: set<string>)
    requires f in visited && Edges(input, f) <= visited && IsClean(input, f)
    ensures Passes(input, f, visited)
  {
    hide InsnEffect, Effects, InsnPasses, FindReloc, IsHome;
    CleanFunction(input, f);
    var elf := Owner(input.elfs, f).value;
    HomeIsOwner(input, f, elf);
    forall i | i in elf.code[f] ensures InsnPasses(input, elf, elf.defined[f].section.value, i, visited) {
      ScannedIsHarmless(input, elf, f, i, visited);
      InsnMeans(input, elf, f, elf.defined[f].section.value, i, visited);
    }
  }

  lemma ScannedIsHarmless(input: Input, elf: Elf, f: string, i: Insn, visited: set<string>)
    requires f in elf.defined && HasCode(elf, f) && IsScanned(input, elf, f, i) && Edges(input, f) <= visited
    ensures Harmless(InsnEffect(input, elf, f, elf.defined[f].section.value, i), visited)
  {
    hide Edges, ResolveFunc, FindReloc;
  }

  lemma EdgeLeads(input: Input, f: string, g: string)
    requires g in Edges(input, f)
    ensures LeadsTo(input, f, g)
  {
    hide InsnEffect, Effects, InsnLeads, IsHome, HasCode;
    var elf := Owner(input.elfs, f).value;
    HomeIsOwner(input, f, elf);
    assert Queue(g) in Findings(input, f);
    HomeFindings(input, f, elf);
    var section, insns := elf.defined[f].section.value, Instructions(elf, f);
    var n := EffectFrom(input, elf, f, section, insns, Queue(g));
    if insns[n].priv {
      PrivFails(input, elf, f, section, insns[n]);
    }
    InsnQueues(input, elf, f, section, insns[n], g);
    assert IsScannedAt(input, f, elf, n);
  }

  lemma HardExactly(input: Input, f: string)
    ensures FailsHard(input, f) <==> HasHardFail(input, f)
  {
    hide InsnEffect, Effects, IsFirstReloc;
    if HasHardFail(input, f) {
      var elf := Owner(input.elfs, f).value;
      HomeIsOwner(input, f, elf);
      HomeFindings(input, f, elf);
      var section, insns := elf.defined[f].section.value, Instructions(elf, f);
      var n := EffectFrom(input, elf, f, section, insns, HardFail);
      HardInsn(input, elf, f, section, insns[n]);
      assert IsScannedAt(input, f, elf, n);
    }
    if FailsHard(input, f) {
      var elf, n: nat :| IsScannedAt(input, f, elf, n)
        && (elf.code[f][n].priv
            || exists r :: IsFirstReloc(elf.sections[elf.defined[f].section.value].relocs, elf.code[f][n], r)
                           && r.symbol < |elf.symbols| && r.rtype in {1, 10, 11});
      HomeFindings(input, f, elf);
      var section, insns := elf.defined[f].section.value, Instructions(elf, f);
      EffectThere(input, elf, f, section, insns, n);
      HardInsn(input, elf, f, section, insns[n]);
    }
  }

  lemma HardInsn(input: Input, elf: Elf, f: string, section: nat, i: Insn)
    requires section < |elf.sections|
    ensures InsnEffect(input, elf, f, section, i) == HardFail <==>
              i.priv || exists r :: IsFirstReloc(elf.sections[section].relocs, i, r) && r.symbol < |elf.symbols|
                                    && r.rtype in {1, 10, 11}
  {
    hide ResolveFunc, FindReloc, IsFirstReloc, NoReloc, IsCut;
    var relocs := elf.sections[section].relocs;
    FirstRelocFound(relocs, i.address, i.size, i);
    var found := FindReloc(relocs, i.address, i.size);
    if found.Some? {
      forall r | IsFirstReloc(relocs, i, r) ensures r == found.value {
        FirstRelocUnique(relocs, i, r, found.value);
      }
    } else {
      NoneIsFirst(relocs, i);
    }
  }

  // ---------------------------------------------------------------------------------------------
  // One run

  /**
   One run of the checker. The visited functions are the target and what visited functions lead to; the exit code is 0
   exactly when all of them pass, which includes that all their targets were visited, and 1 exactly when one fails hard.
   */
  method Check(input: Input, target: string) returns (code: nat, ghost visited: set<string>)
    ensures forall f :: f in visited <==> Reaches(Succ(input), target, f)
    ensures code == 0 <==> forall f :: f in visited ==> IsClean(input, f)
    ensures target in visited
    ensures forall g :: g in visited && g != target ==> exists f :: f in visited && LeadsTo(input, f, g)
    ensures code == 0 <==> forall f :: f in visited ==> Passes(input, f, visited)
    ensures code == 1 <==> exists f :: f in visited && FailsHard(input, f)
    ensures code <= 2
  {
    hide Reaches, HasHardFail, IsMissing, IsIncomplete, Passes, LeadsTo, FailsHard;
    var engine := new Engine(input, target);
    engine.Analyze();
    code := engine.Verdict();
    visited := engine.visited;
    if engine.hardFails != [] {
      assert engine.hardFails[0] in engine.hardFails;
    }
    if engine.unanalyzable != [] {
      assert engine.unanalyzable[0] in engine.unanalyzable;
    }
    if engine.missingDeps != {} {
      var f :| f in engine.missingDeps;
      assert IsMissing(input, f);
    }
    VisitedMeans(input, target, visited);
  }

  lemma VisitedMeans(input: Input, target: string, visited: set<string>)
    requires forall f :: f in visited <==> Reaches(Succ(input), target, f)
    ensures target in visited
    ensures forall g :: g in visited && g != target ==> exists f :: f in visited && LeadsTo(input, f, g)
    ensures forall f :: f in visited ==> (Passes(input, f, visited) <==> IsClean(input, f))
    ensures forall f :: f in visited ==> (FailsHard(input, f) <==> HasHardFail(input, f))
  {
    hide Passes, IsClean, FailsHard, HasHardFail, LeadsTo, Edges;
    ReachesSelf(Succ(input), target);
    forall f | f in visited
      ensures Edges(input, f) <= visited && (Passes(input, f, visited) <==> IsClean(input, f))
      ensures FailsHard(input, f) <==> HasHardFail(input, f)
    {
      forall g | g in Edges(input, f) ensures g in visited {
        ReachesNext(Succ(input), target, f, g);
      }
      PassesExactly(input, f, visited);
      HardExactly(input, f);
    }
    forall g | g in visited && g != target ensures exists f :: f in visited && LeadsTo(input, f, g) {
      var p :| Path(Succ(input), p) && p[0] == target && p[|p| - 1] == g;
      var q := p[..|p| - 1];
      assert p[|p| - 2 + 1] in Succ(input)(p[|p| - 2]);
      forall i | 0 <= i < |q| - 1 ensures q[i + 1] in Succ(input)(q[i]) {
        assert p[i + 1] in Succ(input)(p[i]);
      }
      assert Path(Succ(input), q) && q[0] == target && q[|q| - 1] == p[|p| - 2];
      EdgeLeads(input, p[|p| - 2], g);
    }
  }
}
