/**
 The repository's eBPF programs, slot by slot, and what each leaves in the array map.
 */
module BpfPrograms {
  import opened BpfMachine

  type ArrayIndex = x: int | 0 <= x < 0x8000_0000

  /** bpf_common.h, BPF_MAP_ARRAY_STX: map[index] = reg. */
  function ArrayStx(fd: int, index: ArrayIndex, reg: Reg): seq<Insn> {
    [ LdMapFd(1, fd), Pad,
      Alu64(Mov, 2, Src(10)),
      Alu64(Add, 2, Imm(-4)),
      St(W, 2, 0, index),
      CallMapLookup,
      Jmp(false, 0, 0, 1),
      Exit,
      Stx(DW, 0, reg, 0) ]
  }

  const STX_SLOTS: nat := 9
  const STX_STEPS: nat := 7

  /** bpf_prog01.c: map[0] = 1, with the key written as eight bytes at fp - 8. */
  function Prog01(fd: int): seq<Insn> {
    [ LdMapFd(1, fd), Pad,
      Alu64(Mov, 2, Src(10)),
      Alu64(Add, 2, Imm(-8)),
      St(DW, 2, 0, 0),
      CallMapLookup,
      Jmp(true, 0, 0, 3),
      Alu64(Mov, 1, Src(0)),
      St(DW, 1, 0, 1),
      Alu64(Mov, 0, Imm(0)),
      Exit ]
  }

  /** The block that appears twice in bpf_prog02.c: map[index] = a op r6, jumping `off` slots
      ahead when the lookup finds nothing. */
  function CellUpdate(fd: int, index: ArrayIndex, off: int, a: u64, op: AluOp): seq<Insn> {
    [ LdMapFd(1, fd), Pad,
      Alu64(Mov, 2, Src(10)),
      Alu64(Add, 2, Imm(-4)),
      St(W, 2, 0, index),
      CallMapLookup,
      Jmp(true, 0, 0, off),
      Alu64(Mov, 3, Src(0)),
      LdImm64(4, a), Pad,
      Alu64(op, 4, Src(6)),
      Stx(DW, 3, 4, 0) ]
  }

  const CELL_SLOTS: nat := 12

  /** bpf_prog02.c with its two constants as parameters: map[0] = a + k, map[1] = a - k. */
  function Prog02(fd: int, a: u64, k: i32): seq<Insn> {
    [Alu64(Mov, 6, Imm(k))]
    + CellUpdate(fd, 0, 17, a, Add)
    + CellUpdate(fd, 1, 5, a, Sub)
    + SetAndExit()
  }

  /** The block that appears twice in bpf_prog05.c: r6 = 2^32, r7 = -1, w7 op= w6. */
  function DivBlock(op: AluOp): seq<Insn> {
    [ LdImm64(6, TWO32), Pad,
      Alu64(Mov, 7, Imm(-1)),
      Alu32(op, 7, Src(6)) ]
  }

  /** One trial: the operation, then map[index] = r6 and map[index + 1] = r7. */
  function DivTrial(fd: int, op: AluOp, index: nat): (code: seq<Insn>)
    requires index < 8
    ensures |code| == 22
  {
    DivBlock(op) + ArrayStx(fd, index, 6) + ArrayStx(fd, index + 1, 7)
  }

  function SetAndExit(): seq<Insn> {
    [ Alu64(Mov, 0, Imm(0)), Exit ]
  }

  /** bpf_prog05.c, load_prog. */
  function Prog05(fd: int): seq<Insn> {
    DivTrial(fd, Div, 0) + DivTrial(fd, Mod, 2) + SetAndExit()
  }

  /** bpf_prog05.c, ensure_ptr_arithmetic: writes a zero byte just below the frame pointer. */
  function PtrProbe(): seq<Insn> {
    [ Alu64(Mov, 2, Src(10)),
      Alu64(Mov, 3, Imm(-1)),
      Alu64(Add, 2, Src(3)),
      St(B, 2, 0, 0),
      Alu64(Mov, 0, Imm(0)),
      Exit ]
  }

  // ---------- the macro, anywhere in any program ----------

  ghost predicate CodeAt(prog: seq<Insn>, at: nat, code: seq<Insn>) {
    at + |code| <= |prog| && prog[at..at + |code|] == code
  }

  lemma CodeSlot(prog: seq<Insn>, at: nat, code: seq<Insn>, i: nat)
    requires CodeAt(prog, at, code) && i < |code|
    ensures prog[at + i] == code[i]
  {
    assert prog[at..at + |code|][i] == prog[at + i];
  }

  function Kept(s: State): seq<Value> {
    s.regs[6..]
  }

  ghost predicate ReadyFor(s: State, fd: int) {
    fd in s.maps && s.regs[10] == FramePtr(0)
  }

  /** r1 = map, r2 = fp - 4, key stored there: the four instructions before the call. */
  lemma KeySetup(prog: seq<Insn>, s: State, fd: int, index: ArrayIndex)
    requires ReadyFor(s, fd)
    requires CodeAt(prog, s.pc,
                    [LdMapFd(1, fd), Pad, Alu64(Mov, 2, Src(10)), Alu64(Add, 2, Imm(-4)), St(W, 2, 0, index)])
    ensures var r := Run(prog, s, 4);
            && r.Next? && r.s.pc == s.pc + 5 && r.s.maps == s.maps && Kept(r.s) == Kept(s)
            && r.s.regs[1] == MapHandle(fd) && r.s.regs[2] == FramePtr(-4)
            && r.s.stack == s.stack[..508] + Bytes(index, 4)
  {
    var code := [LdMapFd(1, fd), Pad, Alu64(Mov, 2, Src(10)), Alu64(Add, 2, Imm(-4)), St(W, 2, 0, index)];
    CodeSlot(prog, s.pc, code, 0);
    CodeSlot(prog, s.pc, code, 2);
    CodeSlot(prog, s.pc, code, 3);
    CodeSlot(prog, s.pc, code, 4);
    var s1: State := s.(regs := s.regs[1 := MapHandle(fd)], pc := s.pc + 2);
    assert Step(prog, s) == Next(s1);
    var s2: State := s1.(regs := s1.regs[2 := FramePtr(0)], pc := s.pc + 3);
    assert Step(prog, s1) == Next(s2);
    var s3: State := s2.(regs := s2.regs[2 := FramePtr(-4)], pc := s.pc + 4);
    assert Step(prog, s2) == Next(s3);
    var s4: State := s3.(stack := s3.stack[..508] + Bytes(index, 4), pc := s.pc + 5);
    assert s3.stack[..508] + Bytes(index, 4) + s3.stack[512..] == s4.stack;
    assert Step(prog, s3) == Next(s4);
    assert Run(prog, s3, 1) == Next(s4);
    assert Run(prog, s2, 2) == Next(s4);
    assert Run(prog, s1, 3) == Next(s4);
  }

  /** The lookup that follows finds the cell the key names, or nothing. */
  lemma LookupStep(prog: seq<Insn>, s: State, fd: int, index: ArrayIndex)
    requires fd in s.maps && s.pc < |prog| && prog[s.pc] == CallMapLookup
    requires s.regs[1] == MapHandle(fd) && s.regs[2] == FramePtr(-4)
    requires s.stack[508..] == Bytes(index, 4)
    ensures var r := Step(prog, s);
            && r.Next? && r.s.pc == s.pc + 1 && r.s.maps == s.maps && Kept(r.s) == Kept(s)
            && r.s.regs[0] == if index < |s.maps[fd]| then CellPtr(fd, index) else Word(0)
  {
    LoadBytes4(index);
    assert s.stack[508..512] == s.stack[508..];
  }

  /**
   The composition theorem for BPF_MAP_ARRAY_STX: wherever the expansion stands, if the index
   is in range the seven instructions executed store the saved register in that cell, change
   no other cell of any map, keep r6..r10 and arrive just behind the expansion; otherwise the
   program exits with 0 and the maps as they were.
   */
  lemma ArrayStxStores(prog: seq<Insn>, s: State, fd: int, index: ArrayIndex, reg: Reg)
    requires ReadyFor(s, fd)
    requires 6 <= reg <= 9 && s.regs[reg].Word?
    requires CodeAt(prog, s.pc, ArrayStx(fd, index, reg))
    ensures var r := Run(prog, s, STX_STEPS);
            if index < |s.maps[fd]| then
              && r.Next? && r.s.pc == s.pc + STX_SLOTS && Kept(r.s) == Kept(s)
              && r.s.maps == SetCell(s.maps, fd, index, s.regs[reg].n)
            else r == Exited(0, s.maps)
  {
    var code := ArrayStx(fd, index, reg);
    assert prog[s.pc..s.pc + 5] == prog[s.pc..s.pc + 9][..5];
    KeySetup(prog, s, fd, index);
    var s4 := Run(prog, s, 4).s;
    CodeSlot(prog, s.pc, code, 5);
    CodeSlot(prog, s.pc, code, 6);
    CodeSlot(prog, s.pc, code, 7);
    CodeSlot(prog, s.pc, code, 8);
    LookupStep(prog, s4, fd, index);
    var s5 := Step(prog, s4).s;
    assert s5.regs[reg] == Kept(s5)[reg - 6] == Kept(s)[reg - 6] == s.regs[reg];
    RunAppend(prog, s, 4, 3);
    if index < |s.maps[fd]| {
      var s6: State := s5.(pc := s.pc + 8);
      assert Step(prog, s5) == Next(s6);
      var s7: State := s6.(pc := s.pc + 9, maps := SetCell(s.maps, fd, index, s.regs[reg].n));
      assert Step(prog, s6) == Next(s7);
      assert Run(prog, s6, 1) == Next(s7);
      assert Run(prog, s5, 2) == Next(s7);
    } else {
      var s6: State := s5.(pc := s.pc + 7);
      assert Step(prog, s5) == Next(s6);
      assert Step(prog, s6) == Exited(0, s.maps);
      assert Run(prog, s6, 1) == Exited(0, s.maps);
      assert Run(prog, s5, 2) == Exited(0, s.maps);
    }
  }

  // ---------- the programs only jump forward ----------

  /** Where a jump out of a block may go: an instruction of the block, the slot just behind
      it, or the common exit `end` slots from the start of the block. */
  predicate Target(code: seq<Insn>, t: int, end: nat) {
    IsStart(code, t) || t == |code| || t == end
  }

  predicate SlotWithin(code: seq<Insn>, i: nat, end: nat)
    requires i < |code|
  {
    match code[i]
    case Pad => true
    case Exit => true
    case LdImm64(_, _) => i + 1 < |code| && code[i + 1] == Pad && Target(code, i + 2, end)
    case LdMapFd(_, _) => i + 1 < |code| && code[i + 1] == Pad && Target(code, i + 2, end)
    case Jmp(_, _, _, off) => off >= 0 && Target(code, i + 1, end) && Target(code, i + 1 + off, end)
    case _ => Target(code, i + 1, end)
  }

  predicate Block(code: seq<Insn>, end: nat) {
    && IsStart(code, 0) && |code| <= end
    && forall i: nat | i < |code| :: SlotWithin(code, i, end)
  }

  lemma Join(a: seq<Insn>, b: seq<Insn>, end: nat)
    requires |a| <= end && Block(a, end) && Block(b, end - |a|)
    ensures Block(a + b, end)
  {
    var c := a + b;
    forall t: int | Target(a, t, end) ensures Target(c, t, end) {
      if IsStart(a, t) { assert c[t] == a[t]; }
      else if t == |a| { assert c[t] == b[0]; }
    }
    forall t: int | Target(b, t - |a|, end - |a|) ensures Target(c, t, end) {
      if IsStart(b, t - |a|) { assert c[t] == b[t - |a|]; }
    }
    forall i: nat | i < |c| ensures SlotWithin(c, i, end) {
      if i < |a| { assert SlotWithin(a, i, end); assert c[i] == a[i]; }
      else { assert SlotWithin(b, i - |a|, end - |a|); assert c[i] == b[i - |a|]; }
    }
  }

  lemma Finish(a: seq<Insn>)
    requires Block(a, |a|)
    ensures Forward(a + SetAndExit()) && IsStart(a + SetAndExit(), 0)
  {
    var c := a + SetAndExit();
    forall t: int | Target(a, t, |a|) ensures IsStart(c, t) {
      if IsStart(a, t) { assert c[t] == a[t]; } else { assert c[t] == SetAndExit()[0]; }
    }
    forall i: nat | i < |c| ensures SlotForward(c, i) {
      if i < |a| { assert SlotWithin(a, i, |a|); assert c[i] == a[i]; }
      else { assert c[i] == SetAndExit()[i - |a|]; }
    }
  }

  lemma StxBlock(fd: int, index: ArrayIndex, reg: Reg, end: nat)
    requires STX_SLOTS <= end
    ensures Block(ArrayStx(fd, index, reg), end)
  {}

  lemma DivBlockIsBlock(op: AluOp, end: nat)
    requires 4 <= end
    ensures Block(DivBlock(op), end)
  {}

  lemma CellBlock(fd: int, index: ArrayIndex, off: nat, a: u64, op: AluOp)
    requires 7 + off >= CELL_SLOTS
    ensures Block(CellUpdate(fd, index, off, a, op), 7 + off)
  {}

  /** The offset 3 of bpf_prog01.c lands on the exit. */
  lemma Prog01Forward(fd: int)
    ensures Forward(Prog01(fd)) && IsStart(Prog01(fd), 0) && |Prog01(fd)| == 11
    ensures Prog01(fd)[6].off == 3 && Prog01(fd)[6 + 1 + 3] == Exit
  {}

  /** The offsets 17 and 5 of bpf_prog02.c, taken from slots 7 and 19, both land on slot 25,
      where r0 is cleared for the exit. */
  lemma Prog02Forward(fd: int, a: u64, k: i32)
    ensures var p := Prog02(fd, a, k);
            && Forward(p) && IsStart(p, 0) && |p| == 27
            && p[7] == Jmp(true, 0, 0, 17) && p[19] == Jmp(true, 0, 0, 5)
            && p[7 + 1 + 17] == p[19 + 1 + 5] == Alu64(Mov, 0, Imm(0)) && p[26] == Exit
  {
    var head := [Alu64(Mov, 6, Imm(k))];
    var c0, c1 := CellUpdate(fd, 0, 17, a, Add), CellUpdate(fd, 1, 5, a, Sub);
    CellBlock(fd, 0, 17, a, Add);
    CellBlock(fd, 1, 5, a, Sub);
    Join(head, c0, 25);
    Join(head + c0, c1, 25);
    Finish(head + c0 + c1);
    var p := Prog02(fd, a, k);
    assert p[7] == c0[6] && p[19] == c1[6];
    assert p[25] == SetAndExit()[0] && p[26] == SetAndExit()[1];
  }

  lemma DivTrialBlock(fd: int, op: AluOp, index: nat, end: nat)
    requires index < 8 && 22 <= end
    ensures Block(DivTrial(fd, op, index), end)
  {
    DivBlockIsBlock(op, end);
    StxBlock(fd, index, 6, end - 4);
    StxBlock(fd, index + 1, 7, end - 13);
    Join(DivBlock(op), ArrayStx(fd, index, 6), end);
    Join(DivBlock(op) + ArrayStx(fd, index, 6), ArrayStx(fd, index + 1, 7), end);
  }

  lemma Prog05Forward(fd: int)
    ensures Forward(Prog05(fd)) && IsStart(Prog05(fd), 0) && |Prog05(fd)| == 46
  {
    DivTrialBlock(fd, Div, 0, 44);
    DivTrialBlock(fd, Mod, 2, 22);
    Join(DivTrial(fd, Div, 0), DivTrial(fd, Mod, 2), 44);
    Finish(DivTrial(fd, Div, 0) + DivTrial(fd, Mod, 2));
  }

  // ---------- what the programs leave in the map ----------

  /** A store that happens only when the array has such a cell. */
  function StoreIf(maps: Maps, fd: int, index: nat, v: u64): Maps
    requires fd in maps
  {
    if index < |maps[fd]| then SetCell(maps, fd, index, v) else maps
  }

  /** Only cells of array fd named in `want` may differ, and those have the wanted value. */
  ghost predicate Leaves(before: Maps, after: Maps, fd: int, want: seq<u64>)
    requires fd in before
  {
    && after.Keys == before.Keys
    && |after[fd]| == |before[fd]|
    && (forall i: nat | i < |before[fd]| :: after[fd][i] == if i < |want| then want[i] else before[fd][i])
    && (forall other | other in before && other != fd :: after[other] == before[other])
  }

  /** What is left in the array as a whole. */
  lemma LeavesCells(before: Maps, after: Maps, fd: int, want: seq<u64>)
    requires fd in before && Leaves(before, after, fd, want) && |want| <= |before[fd]|
    ensures fd in after && after[fd] == want + before[fd][|want|..]
  {}

  lemma LeavesOthers(before: Maps, after: Maps, fd: int, want: seq<u64>, other: int)
    requires fd in before && Leaves(before, after, fd, want) && other in before && other != fd
    ensures other in after && after[other] == before[other]
  {}

  lemma LeavesSize(before: Maps, m: Maps, fd: int, want: seq<u64>)
    requires fd in before && Leaves(before, m, fd, want)
    ensures fd in m && |m[fd]| == |before[fd]|
  {}

  lemma LeavesNothing(maps: Maps, fd: int)
    requires fd in maps
    ensures Leaves(maps, maps, fd, [])
  {}

  lemma LeavesOneMore(before: Maps, m: Maps, fd: int, want: seq<u64>, v: u64)
    requires fd in before && Leaves(before, m, fd, want)
    ensures Leaves(before, StoreIf(m, fd, |want|, v), fd, want + [v])
  {}

  lemma LeavesFull(before: Maps, m: Maps, fd: int, want: seq<u64>, more: seq<u64>)
    requires fd in before && Leaves(before, m, fd, want) && |want| >= |before[fd]|
    ensures Leaves(before, m, fd, want + more)
  {}

  lemma StepOver(prog: seq<Insn>, s: State, fd: int, index: ArrayIndex, reg: Reg)
    requires Forward(prog) && ReadyFor(s, fd)
    requires 6 <= reg <= 9 && s.regs[reg].Word?
    requires CodeAt(prog, s.pc, ArrayStx(fd, index, reg))
    ensures IsStart(prog, s.pc)
    ensures index >= |s.maps[fd]| ==> Exec(prog, s) == Exited(0, s.maps)
    ensures index < |s.maps[fd]| ==>
              var r := Run(prog, s, STX_STEPS);
              && r.Next? && IsStart(prog, r.s.pc) && r.s.pc == s.pc + STX_SLOTS
              && Kept(r.s) == Kept(s) && ReadyFor(r.s, fd)
              && r.s.maps == StoreIf(s.maps, fd, index, s.regs[reg].n)
              && Exec(prog, s) == Exec(prog, r.s)
  {
    CodeSlot(prog, s.pc, ArrayStx(fd, index, reg), 0);
    ArrayStxStores(prog, s, fd, index, reg);
    ExecAfter(prog, s, STX_STEPS);
    if index < |s.maps[fd]| {
      var s' := Run(prog, s, STX_STEPS).s;
      assert Kept(s')[4] == Kept(s)[4] == s.regs[10];
    }
  }

  lemma DivBlockRuns(prog: seq<Insn>, s: State, op: AluOp)
    requires Forward(prog) && s.regs[10] == FramePtr(0)
    requires CodeAt(prog, s.pc, DivBlock(op)) && op in {Div, Mod}
    ensures IsStart(prog, s.pc)
    ensures var r := Run(prog, s, 3);
            && r.Next? && IsStart(prog, r.s.pc) && r.s.pc == s.pc + 4
            && r.s.maps == s.maps && r.s.regs[10] == FramePtr(0)
            && r.s.regs[6] == Word(TWO32)
            && r.s.regs[7] == Word(if op == Div then 0 else TWO32 - 1)
            && Exec(prog, s) == Exec(prog, r.s)
  {
    CodeSlot(prog, s.pc, DivBlock(op), 0);
    CodeSlot(prog, s.pc, DivBlock(op), 2);
    CodeSlot(prog, s.pc, DivBlock(op), 3);
    var s1: State := s.(regs := s.regs[6 := Word(TWO32)], pc := s.pc + 2);
    assert Step(prog, s) == Next(s1);
    var s2: State := s1.(regs := s1.regs[7 := Word(TWO64 - 1)], pc := s.pc + 3);
    assert Step(prog, s1) == Next(s2);
    var q := Word(if op == Div then 0 else TWO32 - 1);
    var s3: State := s2.(regs := s2.regs[7 := q], pc := s.pc + 4);
    assert Step(prog, s2) == Next(s3);
    assert Run(prog, s2, 1) == Next(s3);
    assert Run(prog, s1, 2) == Next(s3);
    ExecAfter(prog, s, 3);
  }

  function Quotient(op: AluOp): u64 {
    if op == Div then 0 else TWO32 - 1
  }

  /** A division block and the two expansions behind it store the source register and the
      result, as far as the array has room, or end the program for want of room. */
  lemma DivTrialStores(prog: seq<Insn>, s: State, fd: int, op: AluOp, before: Maps, want: seq<u64>)
    returns (s': State, m: Maps)
    requires Forward(prog) && ReadyFor(s, fd) && op in {Div, Mod} && |want| < 8
    requires fd in before && Leaves(before, s.maps, fd, want)
    requires CodeAt(prog, s.pc, DivTrial(fd, op, |want|))
    ensures IsStart(prog, s.pc)
    ensures Leaves(before, m, fd, want + [TWO32, Quotient(op)])
    ensures if |want| + 1 < |before[fd]| then
              IsStart(prog, s'.pc) && s'.pc == s.pc + 22 && ReadyFor(s', fd) && s'.maps == m
              && Exec(prog, s) == Exec(prog, s')
            else Exec(prog, s) == Exited(0, m)
  {
    hide Exec, Run, Step, ArrayStx, DivBlock, DivTrial, SetCell, StoreIf, Leaves, CodeAt, Forward;
    var index := |want|;
    LeavesSize(before, s.maps, fd, want);
    DivTrialLayout(prog, s.pc, fd, op, index);
    DivBlockRuns(prog, s, op);
    var s1 := Run(prog, s, 3).s;
    StepOver(prog, s1, fd, index, 6);
    s' := s;
    m := StoreIf(s.maps, fd, index, TWO32);
    LeavesOneMore(before, s.maps, fd, want, TWO32);
    if index < |before[fd]| {
      var s2 := Run(prog, s1, STX_STEPS).s;
      assert s2.regs[7] == Kept(s2)[1] == Kept(s1)[1] == s1.regs[7];
      LeavesSize(before, m, fd, want + [TWO32]);
      StepOver(prog, s2, fd, index + 1, 7);
      m := StoreIf(m, fd, index + 1, Quotient(op));
      LeavesOneMore(before, s2.maps, fd, want + [TWO32], Quotient(op));
      assert want + [TWO32] + [Quotient(op)] == want + [TWO32, Quotient(op)];
      if index + 1 < |before[fd]| {
        s' := Run(prog, s2, STX_STEPS).s;
      } else {
        m := s2.maps;
        LeavesFull(before, m, fd, want + [TWO32], [Quotient(op)]);
      }
    } else {
      m := s.maps;
      LeavesFull(before, m, fd, want, [TWO32, Quotient(op)]);
    }
  }

  lemma SetAndExitRuns(prog: seq<Insn>, s: State)
    requires Forward(prog) && CodeAt(prog, s.pc, SetAndExit())
    ensures IsStart(prog, s.pc) && Exec(prog, s) == Exited(0, s.maps)
  {
    CodeSlot(prog, s.pc, SetAndExit(), 0);
    CodeSlot(prog, s.pc, SetAndExit(), 1);
    var s1: State := s.(regs := s.regs[0 := Word(0)], pc := s.pc + 1);
    assert Step(prog, s) == Next(s1);
    assert Step(prog, s1) == Exited(0, s.maps);
  }


  const EXPECTED_05: seq<u64> := [TWO32, 0, TWO32, TWO32 - 1]

  /** From any registers, stack and maps, bpf_prog05 exits with 0 and leaves 2^32, 0, 2^32
      and 2^32 - 1 in those of cells 0..3 that the array has, and all else as it was. */
  lemma Prog05Leaves(fd: int, s: State)
    requires s.pc == 0 && ReadyFor(s, fd)
    ensures Forward(Prog05(fd)) && IsStart(Prog05(fd), 0)
    ensures var r := Exec(Prog05(fd), s);
            r.Exited? && r.r0 == 0 && Leaves(s.maps, r.maps, fd, EXPECTED_05)
  {
    hide Exec, Run, Step, Prog05, DivTrial, SetAndExit, SetCell, StoreIf, Leaves, CodeAt, Forward;
    Prog05Forward(fd);
    Prog05Layout(fd);
    LeavesNothing(s.maps, fd);
    var p := Prog05(fd);
    var s1, m1 := DivTrialStores(p, s, fd, Div, s.maps, []);
    assert [] + [TWO32, Quotient(Div)] == [TWO32, 0];
    if 1 < |s.maps[fd]| {
      var s2, m2 := DivTrialStores(p, s1, fd, Mod, s.maps, [TWO32, 0]);
      assert [TWO32, 0] + [TWO32, Quotient(Mod)] == EXPECTED_05;
      if 3 < |s.maps[fd]| {
        SetAndExitRuns(p, s2);
      }
    } else {
      LeavesFull(s.maps, m1, fd, [TWO32, 0], [TWO32, TWO32 - 1]);
      assert [TWO32, 0] + [TWO32, TWO32 - 1] == EXPECTED_05;
    }
  }

  lemma Middle(p: seq<Insn>, at: nat, a: seq<Insn>, b: seq<Insn>, c: seq<Insn>)
    requires CodeAt(p, at, a + b + c)
    ensures CodeAt(p, at, a) && CodeAt(p, at + |a|, b) && CodeAt(p, at + |a| + |b|, c)
  {
    var w := p[at..at + |a| + |b| + |c|];
    assert w == a + b + c;
    assert p[at..at + |a|] == w[..|a|] == a;
    var q := p[at + |a|..at + |a| + |b|];
    assert forall i | 0 <= i < |b| :: q[i] == w[|a| + i];
    assert q == b;
    assert p[at + |a| + |b|..at + |a| + |b| + |c|] == w[|a| + |b|..] == c;
  }

  lemma DivTrialLayout(p: seq<Insn>, at: nat, fd: int, op: AluOp, index: nat)
    requires index < 8 && CodeAt(p, at, DivTrial(fd, op, index))
    ensures CodeAt(p, at, DivBlock(op))
    ensures CodeAt(p, at + 4, ArrayStx(fd, index, 6)) && CodeAt(p, at + 13, ArrayStx(fd, index + 1, 7))
  {
    Middle(p, at, DivBlock(op), ArrayStx(fd, index, 6), ArrayStx(fd, index + 1, 7));
  }

  lemma Prog05Layout(fd: int)
    ensures var p := Prog05(fd);
            && CodeAt(p, 0, DivTrial(fd, Div, 0)) && CodeAt(p, 22, DivTrial(fd, Mod, 2))
            && CodeAt(p, 44, SetAndExit())
  {
    hide DivTrial;
    Middle(Prog05(fd), 0, DivTrial(fd, Div, 0), DivTrial(fd, Mod, 2), SetAndExit());
  }

  // ---------- bpf_prog02 ----------

  /** The state after a CellUpdate block that found its cell. */
  ghost predicate Updated(s: State, s': State, fd: int, index: nat, v: u64)
    requires fd in s.maps && index < |s.maps[fd]|
  {
    s'.maps == SetCell(s.maps, fd, index, v) && s'.regs[6] == s.regs[6] && s'.regs[10] == s.regs[10]
  }

  lemma CellUpdateRuns(prog: seq<Insn>, s: State, fd: int, index: ArrayIndex, off: nat, a: u64, op: AluOp)
    requires Forward(prog) && ReadyFor(s, fd) && s.regs[6].Word?
    requires CodeAt(prog, s.pc, CellUpdate(fd, index, off, a, op))
    ensures IsStart(prog, s.pc)
    ensures if index < |s.maps[fd]| then
              var r := Run(prog, s, 10);
              && r.Next? && IsStart(prog, r.s.pc) && r.s.pc == s.pc + CELL_SLOTS
              && Updated(s, r.s, fd, index, Eval64(op, a, s.regs[6].n))
              && Exec(prog, s) == Exec(prog, r.s)
            else
              var r := Run(prog, s, 6);
              && r.Next? && IsStart(prog, r.s.pc) && r.s.pc == s.pc + 7 + off
              && r.s.maps == s.maps && Exec(prog, s) == Exec(prog, r.s)
  {
    hide Exec, Run, Step, CellUpdate, Forward, SetCell, Eval64;
    CellFetch(prog, s, fd, index, off, a, op);
    var s6 := Run(prog, s, 6).s;
    if index < |s.maps[fd]| {
      CellStore(prog, s6, fd, index, off, a, op);
      RunAppend(prog, s, 6, 4);
      ExecAfter(prog, s, 10);
    } else {
      ExecAfter(prog, s, 6);
    }
  }

  /** The block up to and including its jump. */
  lemma CellFetch(prog: seq<Insn>, s: State, fd: int, index: ArrayIndex, off: nat, a: u64, op: AluOp)
    requires ReadyFor(s, fd)
    requires CodeAt(prog, s.pc, CellUpdate(fd, index, off, a, op))
    ensures IsStart(prog, s.pc)
    ensures var r := Run(prog, s, 6);
            && r.Next? && r.s.maps == s.maps && r.s.regs[6] == s.regs[6] && r.s.regs[10] == s.regs[10]
            && if index < |s.maps[fd]| then r.s.pc == s.pc + 7 && r.s.regs[0] == CellPtr(fd, index)
               else r.s.pc == s.pc + 7 + off
  {
    hide Step, SetCell, Load, Bytes;
    var code := CellUpdate(fd, index, off, a, op);
    CodeSlot(prog, s.pc, code, 0);
    CodeSlot(prog, s.pc, code, 5);
    CodeSlot(prog, s.pc, code, 6);
    assert prog[s.pc..s.pc + 5] == prog[s.pc..s.pc + 12][..5];
    KeySetup(prog, s, fd, index);
    var s4 := Run(prog, s, 4).s;
    LookupStep(prog, s4, fd, index);
    var s5 := Step(prog, s4).s;
    assert s5.regs[6] == Kept(s5)[0] == Kept(s)[0] == s.regs[6];
    assert s5.regs[10] == Kept(s5)[4] == Kept(s)[4] == s.regs[10];
    var s6: State := s5.(pc := s.pc + 7 + if index < |s.maps[fd]| then 0 else off);
    JumpStep(prog, s5, s6);
    assert Run(prog, s5, 1) == Next(s6);
    assert Run(prog, s4, 2) == Next(s6);
    RunAppend(prog, s, 4, 2);
  }

  lemma JumpStep(prog: seq<Insn>, s: State, s': State)
    requires s.pc < |prog| && prog[s.pc].Jmp? && prog[s.pc].ifEqual && prog[s.pc].dst == 0
    requires prog[s.pc].cmp == 0 && prog[s.pc].off >= 0
    requires s.regs[0].CellPtr? || s.regs[0] == Word(0)
    requires s' == s.(pc := s.pc + 1 + if s.regs[0].CellPtr? then 0 else prog[s.pc].off)
    ensures Step(prog, s) == Next(s')
  {}

  /** The four instructions behind the jump: r3 = r0, r4 = a, r4 op= r6, *r3 = r4. */
  lemma CellStore(prog: seq<Insn>, s: State, fd: int, index: ArrayIndex, off: nat, a: u64, op: AluOp)
    requires s.pc >= 7 && fd in s.maps && index < |s.maps[fd]|
    requires s.regs[0] == CellPtr(fd, index) && s.regs[6].Word?
    requires CodeAt(prog, s.pc - 7, CellUpdate(fd, index, off, a, op))
    ensures var r := Run(prog, s, 4);
            && r.Next? && r.s.pc == s.pc + 5
            && Updated(s, r.s, fd, index, Eval64(op, a, s.regs[6].n))
  {
    var code := CellUpdate(fd, index, off, a, op);
    CodeSlot(prog, s.pc - 7, code, 7);
    CodeSlot(prog, s.pc - 7, code, 8);
    CodeSlot(prog, s.pc - 7, code, 10);
    CodeSlot(prog, s.pc - 7, code, 11);
    var v := Eval64(op, a, s.regs[6].n);
    var s1: State := s.(regs := s.regs[3 := CellPtr(fd, index)], pc := s.pc + 1);
    assert Step(prog, s) == Next(s1);
    var s2: State := s1.(regs := s1.regs[4 := Word(a)], pc := s.pc + 3);
    assert Step(prog, s1) == Next(s2);
    var s3: State := s2.(regs := s2.regs[4 := Word(v)], pc := s.pc + 4);
    assert Step(prog, s2) == Next(s3);
    var s4: State := s3.(maps := SetCell(s.maps, fd, index, v), pc := s.pc + 5);
    assert Step(prog, s3) == Next(s4);
    assert Run(prog, s3, 1) == Next(s4);
    assert Run(prog, s2, 2) == Next(s4);
    assert Run(prog, s1, 3) == Next(s4);
  }

  function Mod64(x: int): u64 {
    x % TWO64
  }

  lemma Prog02Layout(fd: int, a: u64, k: i32)
    ensures var p := Prog02(fd, a, k);
            && CodeAt(p, 0, [Alu64(Mov, 6, Imm(k))]) && CodeAt(p, 1, CellUpdate(fd, 0, 17, a, Add))
            && CodeAt(p, 13, CellUpdate(fd, 1, 5, a, Sub)) && CodeAt(p, 25, SetAndExit())
  {
    var head, c0, c1 := [Alu64(Mov, 6, Imm(k))], CellUpdate(fd, 0, 17, a, Add), CellUpdate(fd, 1, 5, a, Sub);
    CellSizes(fd, 0, 17, a, Add);
    CellSizes(fd, 1, 5, a, Sub);
    FourParts(head, c0, c1, SetAndExit());
  }

  lemma CellSizes(fd: int, index: ArrayIndex, off: int, a: u64, op: AluOp)
    ensures |CellUpdate(fd, index, off, a, op)| == CELL_SLOTS
  {}

  lemma FourParts(a: seq<Insn>, b: seq<Insn>, c: seq<Insn>, d: seq<Insn>)
    ensures var p := a + b + c + d;
            CodeAt(p, 0, a) && CodeAt(p, |a|, b) && CodeAt(p, |a| + |b|, c) && CodeAt(p, |a| + |b| + |c|, d)
  {
    Middle(a + b + c + d, 0, a + b, c, d);
    Middle(a + b + c + d, 0, a, b, []);
  }

  /** bpf_prog02 behind its first instruction, with any 64-bit word w in r6: it exits with 0 and
      leaves a + w and a - w, modulo 2^64, in those of cells 0 and 1 that the array has, and all
      else as it was. */
  lemma Prog02AnyWord(fd: int, a: u64, k: i32, w: u64, s: State)
    requires s.pc == 1 && ReadyFor(s, fd) && s.regs[6] == Word(w)
    ensures Forward(Prog02(fd, a, k)) && IsStart(Prog02(fd, a, k), 1)
    ensures var r := Exec(Prog02(fd, a, k), s);
            r.Exited? && r.r0 == 0 && Leaves(s.maps, r.maps, fd, [Mod64(a + w), Mod64(a - w)])
  {
    hide Prog02, Exec, Leaves;
    Prog02Forward(fd, a, k);
    Prog02Layout(fd, a, k);
    Prog02Cells(fd, a, w, Prog02(fd, a, k), s);
  }

  /** And so, with the immediate k that its first instruction puts there, from any registers,
      stack and maps it leaves a + k and a - k. */
  lemma Prog02Leaves(fd: int, a: u64, k: i32, s: State)
    requires s.pc == 0 && ReadyFor(s, fd)
    ensures Forward(Prog02(fd, a, k)) && IsStart(Prog02(fd, a, k), 0)
    ensures var r := Exec(Prog02(fd, a, k), s);
            r.Exited? && r.r0 == 0 && Leaves(s.maps, r.maps, fd, [Mod64(a + k), Mod64(a - k)])
  {
    hide Leaves;
    Prog02Forward(fd, a, k);
    Prog02Layout(fd, a, k);
    var p := Prog02(fd, a, k);
    var s1: State := s.(regs := s.regs[6 := Word(Sext(k))], pc := 1);
    CodeSlot(p, 0, [Alu64(Mov, 6, Imm(k))], 0);
    assert Step(p, s) == Next(s1);
    Prog02AnyWord(fd, a, k, Sext(k), s1);
    SextMod(a, k);
  }

  lemma SextMod(a: u64, k: i32)
    ensures Mod64(a + Sext(k)) == Mod64(a + k) && Mod64(a - Sext(k)) == Mod64(a - k)
  {}

  lemma EvalMod(a: u64, w: u64)
    ensures Eval64(Add, a, w) == Mod64(a + w) && Eval64(Sub, a, w) == Mod64(a - w)
  {}

  lemma Prog02Cells(fd: int, a: u64, w: u64, p: seq<Insn>, s: State)
    requires Forward(p) && s.pc == 1 && ReadyFor(s, fd) && s.regs[6] == Word(w)
    requires CodeAt(p, 1, CellUpdate(fd, 0, 17, a, Add)) && CodeAt(p, 13, CellUpdate(fd, 1, 5, a, Sub))
    requires CodeAt(p, 25, SetAndExit())
    ensures IsStart(p, 1)
    ensures var r := Exec(p, s);
            r.Exited? && r.r0 == 0 && Leaves(s.maps, r.maps, fd, [Mod64(a + w), Mod64(a - w)])
  {
    hide Exec, Run, Step, CellUpdate, SetAndExit, CodeAt, Forward, SetCell, Leaves, Eval64, Mod64;
    var sum, diff := Mod64(a + w), Mod64(a - w);
    EvalMod(a, w);
    CellUpdateRuns(p, s, fd, 0, 17, a, Add);
    LeavesNothing(s.maps, fd);
    if 0 < |s.maps[fd]| {
      var s1 := Run(p, s, 10).s;
      LeavesOneMore(s.maps, s.maps, fd, [], sum);
      assert [] + [sum] == [sum];
      Prog02Second(fd, a, w, p, s.maps, s1, sum);
    } else {
      LeavesFull(s.maps, s.maps, fd, [], [sum, diff]);
      assert [] + [sum, diff] == [sum, diff];
      SetAndExitRuns(p, Run(p, s, 6).s);
    }
  }

  /** From the second block on. */
  lemma Prog02Second(fd: int, a: u64, w: u64, p: seq<Insn>, before: Maps, s: State, sum: u64)
    requires Forward(p) && s.pc == 13 && ReadyFor(s, fd) && s.regs[6] == Word(w)
    requires fd in before && |before[fd]| > 0 && Leaves(before, s.maps, fd, [sum])
    requires CodeAt(p, 13, CellUpdate(fd, 1, 5, a, Sub)) && CodeAt(p, 25, SetAndExit())
    ensures IsStart(p, 13)
    ensures var r := Exec(p, s);
            r.Exited? && r.r0 == 0 && Leaves(before, r.maps, fd, [sum, Mod64(a - w)])
  {
    hide Exec, Run, Step, CellUpdate, SetAndExit, CodeAt, Forward, SetCell, Leaves, Eval64, Mod64;
    var diff := Mod64(a - w);
    EvalMod(a, w);
    LeavesSize(before, s.maps, fd, [sum]);
    CellUpdateRuns(p, s, fd, 1, 5, a, Sub);
    assert [sum] + [diff] == [sum, diff];
    if 1 < |before[fd]| {
      LeavesOneMore(before, s.maps, fd, [sum], diff);
      SetAndExitRuns(p, Run(p, s, 10).s);
    } else {
      LeavesFull(before, s.maps, fd, [sum], [diff]);
      SetAndExitRuns(p, Run(p, s, 6).s);
    }
  }

  // ---------- bpf_prog01 and the pointer probe ----------

  /** From any registers, stack and maps, bpf_prog01 exits with 0, having set cell 0 to 1 if
      the array has one; the upper half of its eight-byte key does no harm. */
  lemma Prog01Leaves(fd: int, s: State)
    requires s.pc == 0 && ReadyFor(s, fd)
    ensures Forward(Prog01(fd)) && IsStart(Prog01(fd), 0)
    ensures var r := Exec(Prog01(fd), s);
            r.Exited? && r.r0 == 0 && Leaves(s.maps, r.maps, fd, [1])
  {
    hide Exec, Run, Step, Prog01, Forward, SetCell, StoreIf, Leaves;
    Prog01Forward(fd);
    var p := Prog01(fd);
    var s6 := Prog01Key(fd, s);
    ExecAfter(p, s, 6);
    LeavesNothing(s.maps, fd);
    if 0 < |s.maps[fd]| {
      LeavesOneMore(s.maps, s.maps, fd, [], 1);
      assert [] + [1] == [1];
      Prog01Tail(fd, s6);
    } else {
      LeavesFull(s.maps, s.maps, fd, [], [1]);
      assert [] + [1] == [1];
      Prog01Exit(fd, s6);
    }
  }

  lemma Prog01Exit(fd: int, s: State)
    requires s.pc == 10 && s.regs[0] == Word(0)
    ensures Forward(Prog01(fd)) && IsStart(Prog01(fd), 10) && Exec(Prog01(fd), s) == Exited(0, s.maps)
  {
    Prog01Forward(fd);
    assert Step(Prog01(fd), s) == Exited(0, s.maps);
  }

  lemma Prog01Tail(fd: int, s: State)
    requires s.pc == 7 && fd in s.maps && 0 < |s.maps[fd]| && s.regs[0] == CellPtr(fd, 0)
    ensures Forward(Prog01(fd)) && IsStart(Prog01(fd), 7)
    ensures Exec(Prog01(fd), s) == Exited(0, StoreIf(s.maps, fd, 0, 1))
  {
    hide Exec, Forward, SetCell;
    Prog01Forward(fd);
    var p := Prog01(fd);
    var s1: State := s.(regs := s.regs[1 := CellPtr(fd, 0)], pc := 8);
    assert Step(p, s) == Next(s1);
    var s2: State := s1.(maps := SetCell(s.maps, fd, 0, 1), pc := 9);
    assert Step(p, s1) == Next(s2);
    var s3: State := s2.(regs := s2.regs[0 := Word(0)], pc := 10);
    assert Step(p, s2) == Next(s3);
    assert Run(p, s2, 1) == Next(s3);
    assert Run(p, s1, 2) == Next(s3);
    ExecAfter(p, s, 3);
    Prog01Exit(fd, s3);
  }

  /** The key of bpf_prog01 is written as eight bytes at fp - 8. */
  lemma Prog01Setup(fd: int, s: State) returns (s': State)
    requires s.pc == 0 && ReadyFor(s, fd)
    ensures Run(Prog01(fd), s, 4) == Next(s') && s'.maps == s.maps && s'.pc == 5
    ensures s'.regs[1] == MapHandle(fd) && s'.regs[2] == FramePtr(-8) && s'.stack[504..508] == Bytes(0, 8)[..4]
  {
    hide SetCell, Load, Bytes, Lookup, Branch;
    var p := Prog01(fd);
    var s1: State := s.(regs := s.regs[1 := MapHandle(fd)], pc := 2);
    assert Step(p, s) == Next(s1);
    var s2: State := s1.(regs := s1.regs[2 := FramePtr(0)], pc := 3);
    assert Step(p, s1) == Next(s2);
    var s3: State := s2.(regs := s2.regs[2 := FramePtr(-8)], pc := 4);
    assert Step(p, s2) == Next(s3);
    s' := s3.(stack := s3.stack[..504] + Bytes(0, 8) + s3.stack[512..], pc := 5);
    assert Step(p, s3) == Next(s');
    assert Run(p, s3, 1) == Next(s');
    assert Run(p, s2, 2) == Next(s');
    assert Run(p, s1, 3) == Next(s');
  }

  lemma Prog01Key(fd: int, s: State) returns (s': State)
    requires s.pc == 0 && ReadyFor(s, fd)
    ensures Run(Prog01(fd), s, 6) == Next(s') && s'.maps == s.maps
    ensures if 0 < |s.maps[fd]| then s'.pc == 7 && s'.regs[0] == CellPtr(fd, 0)
            else s'.pc == 10 && s'.regs[0] == Word(0)
  {
    hide SetCell, Load, Bytes, Alu, StoreAt;
    var p := Prog01(fd);
    var s4 := Prog01Setup(fd, s);
    LoadZeroKey();
    LoadBytes4(0);
    var s5 := Step(p, s4).s;
    s' := s5.(pc := if 0 < |s.maps[fd]| then 7 else 10);
    JumpStep(p, s5, s');
    assert Run(p, s5, 1) == Next(s');
    assert Run(p, s4, 2) == Next(s');
    RunAppend(p, s, 4, 2);
  }

  /** A fact about the probe's bytecode, which the test only loads: adding a negative word to the
      frame pointer, it would clear the byte just below the frame and exit with 0. */
  lemma PtrProbeRuns(s: State)
    requires s.pc == 0 && s.regs[10] == FramePtr(0)
    ensures Run(PtrProbe(), s, 4).Next? && Run(PtrProbe(), s, 4).s.stack == s.stack[511 := 0]
    ensures Forward(PtrProbe()) && Exec(PtrProbe(), s) == Exited(0, s.maps)
  {
    hide Exec, Forward;
    var p := PtrProbe();
    PtrProbeForward();
    var s4 := PtrProbeStore(s);
    ExecAfter(p, s, 4);
    assert CodeAt(p, 4, SetAndExit());
    SetAndExitRuns(p, s4);
  }

  lemma PtrProbeForward()
    ensures Forward(PtrProbe()) && IsStart(PtrProbe(), 0)
  {}

  lemma PtrProbeStore(s: State) returns (s': State)
    requires s.pc == 0 && s.regs[10] == FramePtr(0)
    ensures Run(PtrProbe(), s, 4) == Next(s') && s'.pc == 4 && s'.stack == s.stack[511 := 0] && s'.maps == s.maps
  {
    hide Lookup, Branch, SetCell;
    var p := PtrProbe();
    var s1: State := s.(regs := s.regs[2 := FramePtr(0)], pc := 1);
    assert Step(p, s) == Next(s1);
    var s2: State := s1.(regs := s1.regs[3 := Word(TWO64 - 1)], pc := 2);
    assert Step(p, s1) == Next(s2);
    var s3: State := s2.(regs := s2.regs[2 := FramePtr(-1)], pc := 3);
    assert Step(p, s2) == Next(s3);
    assert Bytes(0, 1) == [0];
    assert s.stack[512..] == [];
    assert s.stack[..511] + [0] + [] == s.stack[511 := 0];
    s' := s3.(stack := s.stack[511 := 0], pc := 4);
    assert Step(p, s3) == Next(s');
    assert Run(p, s3, 1) == Next(s');
    assert Run(p, s2, 2) == Next(s');
    assert Run(p, s1, 3) == Next(s');
  }
}
