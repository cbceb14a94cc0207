/**
 An interpreter for the part of the eBPF instruction set that the repository's programs
 use, after sections 4.1, 4.3 and 5.4 of RFC 9669.

 A program is a sequence of slots.  A 64-bit immediate load takes two slots, so the slot
 after it holds `Pad` and is never a place where execution may arrive.  Pointers are kept
 symbolic: a frame pointer with an offset, a map, or a cell of a map.
 */
module BpfMachine {
  import opened Basics

  const TWO32: int := 0x1_0000_0000
  const TWO64: int := 0x1_0000_0000_0000_0000
  const STACK_SIZE: int := 512

  type u64 = x: int | 0 <= x < TWO64
  type i32 = x: int | -0x8000_0000 <= x < 0x8000_0000
  type Reg = x: int | 0 <= x <= 10

  datatype Value =
    | Uninit
    | Word(n: u64)
    | FramePtr(off: int)
    | MapHandle(fd: int)
    | CellPtr(cellFd: int, index: nat)

  datatype Size = B | W | DW {
    function Width(): nat {
      match this case B => 1 case W => 4 case DW => 8
    }
  }

  datatype AluOp = Add | Sub | Div | Mod | Mov

  datatype Operand = Imm(i: i32) | Src(r: Reg)

  datatype Insn =
    | Alu64(op: AluOp, dst: Reg, src: Operand)
    | Alu32(op: AluOp, dst: Reg, src: Operand)
    | LdImm64(dst: Reg, imm: u64)
    | LdMapFd(dst: Reg, mapFd: int)
    | Pad
    | St(size: Size, dst: Reg, off: int, val: i32)
    | Stx(size: Size, dst: Reg, reg: Reg, off: int)
    | CallMapLookup
    | Jmp(ifEqual: bool, dst: Reg, cmp: i32, off: int)
    | Exit

  /** Array maps by file descriptor; every cell holds eight bytes. */
  type Maps = map<int, seq<u64>>

  datatype RawState = State(pc: nat, regs: seq<Value>, stack: seq<byte>, maps: Maps)

  type State = s: RawState | |s.regs| == 11 && |s.stack| == STACK_SIZE
    witness State(0, seq(11, _ => Uninit), seq(STACK_SIZE, _ => 0), map[])

  datatype FaultKind = BadPc | BadData

  datatype Result =
    | Next(s: State)
    | Exited(r0: u64, maps: Maps)
    | Faulted(kind: FaultKind, maps: Maps)

  // ---------- little-endian bytes ----------

  function Bytes(v: int, n: nat): (bs: seq<byte>)
    ensures |bs| == n
    decreases n
  {
    if n == 0 then [] else [v % 256] + Bytes(v / 256, n - 1)
  }

  function Load(bs: seq<byte>): nat {
    if bs == [] then 0 else bs[0] + 256 * Load(bs[1..])
  }

  /** What a store of n bytes puts in memory is what a load of n bytes finds there. */
  lemma {:induction false} LoadBytes(v: int, n: nat, bound: int)
    requires 0 <= v < bound && bound == Pow256(n)
    ensures Load(Bytes(v, n)) == v
    decreases n
  {
    if n == 0 {
    } else {
      var rest := Pow256(n - 1);
      Quotient256(v, rest);
      LoadBytes(v / 256, n - 1, rest);
      BytesCons(v, n);
      hide Bytes, Pow256;
      assert Load(Bytes(v, n)) == v % 256 + 256 * (v / 256);
    }
  }

  lemma Quotient256(v: int, h: int)
    requires 0 <= v < 256 * h
    ensures 0 <= v / 256 < h && v == v % 256 + 256 * (v / 256)
  {}

  lemma BytesCons(v: int, n: nat)
    requires n > 0
    ensures Bytes(v, n)[0] == v % 256 && Bytes(v, n)[1..] == Bytes(v / 256, n - 1)
  {}

  function Pow256(n: nat): nat {
    if n == 0 then 1 else 256 * Pow256(n - 1)
  }

  /** What a four-byte store puts in memory is what a four-byte load finds there. */
  lemma LoadBytes4(v: int)
    requires 0 <= v < TWO32
    ensures Load(Bytes(v, 4)) == v
  {
    LoadBytes(v, 4, TWO32);
  }

  /** Eight zero bytes start with a four-byte zero. */
  lemma LoadZeroKey()
    ensures Bytes(0, 8)[..4] == Bytes(0, 4)
  {
    assert Bytes(0, 4) == [0, 0, 0, 0] by {
      assert Bytes(0, 3) == [0, 0, 0];
    }
    assert Bytes(0, 8) == [0, 0, 0, 0] + Bytes(0, 4) by {
      assert Bytes(0, 6) == [0, 0] + Bytes(0, 4);
    }
  }

  // ---------- arithmetic (section 4.1 of RFC 9669) ----------

  function Sext(i: i32): u64 {
    if i >= 0 then i else i + TWO64
  }

  function Signed(n: u64): int {
    if n < 0x8000_0000_0000_0000 then n else n - TWO64
  }

  function Ratio(a: nat, b: nat): (q: nat)
    requires b > 0
    ensures q <= a
  {
    RatioBound(a, b, a / b, a % b);
    a / b
  }

  lemma MulNonneg(x: nat, y: nat)
    ensures 0 <= x * y
  {}

  lemma RatioBound(a: nat, b: nat, q: nat, r: int)
    requires b > 0 && a == b * q + r && 0 <= r < b
    ensures q <= a
  {
    MulNonneg(b - 1, q);
    assert b * q == (b - 1) * q + q;
  }

  function Eval64(op: AluOp, a: u64, b: u64): u64 {
    match op
    case Add => (a + b) % TWO64
    case Sub => (a - b) % TWO64
    case Div => if b == 0 then 0 else Ratio(a, b)
    case Mod => if b == 0 then a else a % b
    case Mov => b
  }

  /** The 32-bit class works on the low halves and clears the high half of the result. */
  function Eval32(op: AluOp, a: u64, b: u64): (r: u64)
    ensures r < TWO32
  {
    var x, y := a % TWO32, b % TWO32;
    match op
    case Add => (x + y) % TWO32
    case Sub => (x - y) % TWO32
    case Div => if y == 0 then 0 else Ratio(x, y)
    case Mod => if y == 0 then x else x % y
    case Mov => y
  }

  function Alu(wide: bool, op: AluOp, d: Value, s: Value): Option<Value> {
    if s.Uninit? || (op != Mov && d.Uninit?) then None
    else if wide && op == Mov then Some(s)
    else if s.Word? && (d.Word? || op == Mov) then
      var a: u64 := if d.Word? then d.n else 0;
      Some(Word(if wide then Eval64(op, a, s.n) else Eval32(op, a, s.n)))
    else if wide && d.FramePtr? && s.Word? && op == Add then Some(FramePtr(d.off + Signed(s.n)))
    else if wide && d.FramePtr? && s.Word? && op == Sub then Some(FramePtr(d.off - Signed(s.n)))
    else None
  }

  function OperandValue(s: State, o: Operand): Value {
    match o case Imm(i) => Word(Sext(i)) case Src(r) => s.regs[r]
  }

  // ---------- what the arithmetic means ----------

  lemma RatioIs(a: nat, b: nat)
    requires b > 0
    ensures a == Ratio(a, b) * b + a % b && 0 <= a % b < b
  {
    assert a == b * (a / b) + a % b;
  }

  lemma Wrap64(v: int)
    requires -TWO64 <= v < 2 * TWO64
    ensures v % TWO64 == if v < 0 then v + TWO64 else if v < TWO64 then v else v - TWO64
  {}

  lemma Wrap32(v: int)
    requires -TWO32 <= v < 2 * TWO32
    ensures v % TWO32 == if v < 0 then v + TWO32 else if v < TWO32 then v else v - TWO32
  {}

  lemma WideSums(a: u64, b: u64)
    ensures Eval64(Add, a, b) == if a + b < TWO64 then a + b else a + b - TWO64
    ensures Eval64(Sub, a, b) == if a >= b then a - b else a - b + TWO64
    ensures Eval64(Mov, a, b) == b
  {
    hide Ratio;
    Wrap64(a + b);
    Wrap64(a - b);
  }

  lemma WideQuotients(a: u64, b: u64)
    ensures var q, r := Eval64(Div, a, b), Eval64(Mod, a, b);
            if b == 0 then q == 0 && r == a else a == q * b + r && r < b
  {
    hide Ratio;
    if b > 0 {
      RatioIs(a, b);
    }
  }

  /** Addition and subtraction wrap around at 2^64; division and modulo belong together, and by 0
      they give 0 and the dividend. */
  lemma Wide(a: u64, b: u64)
    ensures Eval64(Add, a, b) == if a + b < TWO64 then a + b else a + b - TWO64
    ensures Eval64(Sub, a, b) == if a >= b then a - b else a - b + TWO64
    ensures var q, r := Eval64(Div, a, b), Eval64(Mod, a, b);
            if b == 0 then q == 0 && r == a else a == q * b + r && r < b
    ensures Eval64(Mov, a, b) == b
  {
    hide Eval64;
    WideSums(a, b);
    WideQuotients(a, b);
  }

  lemma LowHalf(a: u64, x: nat, h: nat)
    requires a == h * TWO32 + x && x < TWO32
    ensures a % TWO32 == x && x % TWO32 == x
  {}

  lemma OnHalves(op: AluOp, a: u64, b: u64, x: u64, y: u64)
    requires a % TWO32 == x % TWO32 && b % TWO32 == y % TWO32
    ensures Eval32(op, a, b) == Eval32(op, x, y)
  {}

  lemma NarrowSums(x: u64, y: u64)
    requires x < TWO32 && y < TWO32
    ensures Eval32(Add, x, y) == if x + y < TWO32 then x + y else x + y - TWO32
    ensures Eval32(Sub, x, y) == if x >= y then x - y else x - y + TWO32
    ensures Eval32(Mov, x, y) == y
  {
    hide Ratio;
    Wrap32(x);
    Wrap32(y);
    Wrap32(x + y);
    Wrap32(x - y);
  }

  lemma NarrowQuotients(x: u64, y: u64)
    requires x < TWO32 && y < TWO32
    ensures var q, r := Eval32(Div, x, y), Eval32(Mod, x, y);
            if y == 0 then q == 0 && r == x else x == q * y + r && r < y
  {
    hide Ratio;
    Wrap32(x);
    Wrap32(y);
    if y > 0 {
      RatioIs(x, y);
    }
  }

  /** The 32-bit class does the same on the low halves x and y, and leaves nothing above them. */
  lemma Narrow(a: u64, b: u64, x: u64, y: u64, h: nat, k: nat)
    requires a == h * TWO32 + x && b == k * TWO32 + y && x < TWO32 && y < TWO32
    ensures Eval32(Add, a, b) == if x + y < TWO32 then x + y else x + y - TWO32
    ensures Eval32(Sub, a, b) == if x >= y then x - y else x - y + TWO32
    ensures var q, r := Eval32(Div, a, b), Eval32(Mod, a, b);
            if y == 0 then q == 0 && r == x else x == q * y + r && r < y
    ensures Eval32(Mov, a, b) == y
  {
    hide Eval32;
    LowHalf(a, x, h);
    LowHalf(b, y, k);
    OnHalves(Add, a, b, x, y);
    OnHalves(Sub, a, b, x, y);
    OnHalves(Div, a, b, x, y);
    OnHalves(Mod, a, b, x, y);
    OnHalves(Mov, a, b, x, y);
    NarrowSums(x, y);
    NarrowQuotients(x, y);
  }

  /** Two's complement: the signed value of a sign-extended immediate is the immediate, and a word
      and its signed value agree modulo 2^64. */
  lemma TwosComplement(i: i32, n: u64)
    ensures Signed(Sext(i)) == i
    ensures -0x8000_0000_0000_0000 <= Signed(n) < 0x8000_0000_0000_0000
    ensures Signed(n) == n || Signed(n) == n - TWO64
  {}

  /** On pointers only 64-bit moves and additions and subtractions of words are defined, and
      nothing is on what has never been written. */
  lemma OnPointers(op: AluOp, off: int, n: u64, d: Value, s: Value, wide: bool)
    ensures Alu(true, Add, FramePtr(off), Word(n)) == Some(FramePtr(off + Signed(n)))
    ensures Alu(true, Sub, FramePtr(off), Word(n)) == Some(FramePtr(off - Signed(n)))
    ensures op in {Div, Mod} ==> Alu(wide, op, FramePtr(off), Word(n)) == None
    ensures !s.Word? && op != Mov ==> Alu(wide, op, d, s) == None
    ensures Alu(wide, op, d, Uninit) == None && (op != Mov ==> Alu(wide, op, Uninit, s) == None)
    ensures s != Uninit ==> Alu(true, Mov, d, s) == Some(s)
    ensures !s.Word? ==> Alu(false, op, d, s) == None
  {}

  /** A pointer is never 0, and comparing it with anything else is refused. */
  lemma Comparing(v: Value, i: i32, n: u64)
    ensures SameAs(Word(n), i) == Some(n == Sext(i)) && SameAs(Uninit, i) == None
    ensures !v.Word? && v != Uninit ==> SameAs(v, i) == if i == 0 then Some(false) else None
  {}

  // ---------- one step ----------

  function SetReg(s: State, r: Reg, v: Option<Value>, slots: nat): Result {
    // r10 is read-only.
    if r == 10 || v.None? then Faulted(BadData, s.maps)
    else Next(s.(regs := s.regs[r := v.value], pc := s.pc + slots))
  }

  function SetCell(maps: Maps, fd: int, i: nat, v: u64): Maps
    requires fd in maps && i < |maps[fd]|
  {
    var cells: seq<u64> := maps[fd];
    maps[fd := cells[..i] + [v] + cells[i + 1..]]
  }

  /** Stores the low bytes of v through a pointer into the frame or into a whole map cell. */
  function StoreAt(s: State, p: Value, off: int, size: Size, v: u64): Result {
    match p
    case FramePtr(o) =>
      var at := STACK_SIZE + o + off;
      var w := size.Width();
      if 0 <= at && at + w <= STACK_SIZE then
        Next(s.(stack := s.stack[..at] + Bytes(v, w) + s.stack[at + w..], pc := s.pc + 1))
      else Faulted(BadData, s.maps)
    case CellPtr(fd, i) =>
      if off == 0 && size == DW && fd in s.maps && i < |s.maps[fd]| then
        Next(s.(maps := SetCell(s.maps, fd, i, v), pc := s.pc + 1))
      else Faulted(BadData, s.maps)
    case _ => Faulted(BadData, s.maps)
  }

  /** map_lookup_elem(r1, r2): r0 becomes the cell named by the four-byte key at r2, or 0;
      r1..r5 are no longer readable. */
  function Lookup(s: State): Result {
    if s.regs[1].MapHandle? && s.regs[1].fd in s.maps && s.regs[2].FramePtr?
       && -STACK_SIZE <= s.regs[2].off <= -4 then
      var at := STACK_SIZE + s.regs[2].off;
      var key := Load(s.stack[at..at + 4]);
      var r0 := if key < |s.maps[s.regs[1].fd]| then CellPtr(s.regs[1].fd, key) else Word(0);
      Next(s.(regs := [r0] + seq(5, _ => Uninit) + s.regs[6..], pc := s.pc + 1))
    else Faulted(BadData, s.maps)
  }

  /** Compares with an immediate; a pointer differs from 0, and other uses of one fault. */
  function SameAs(v: Value, i: i32): Option<bool> {
    match v
    case Uninit => None
    case Word(n) => Some(n == Sext(i))
    case _ => if i == 0 then Some(false) else None
  }

  function Branch(s: State, ifEqual: bool, v: Value, cmp: i32, off: int): Result {
    var same := SameAs(v, cmp);
    if same.None? then Faulted(BadData, s.maps)
    else
      var target := s.pc + 1 + (if same.value == ifEqual then off else 0);
      if target < 0 then Faulted(BadPc, s.maps) else Next(s.(pc := target))
  }

  function Step(prog: seq<Insn>, s: State): Result {
    if s.pc >= |prog| then Faulted(BadPc, s.maps)
    else match prog[s.pc]
      case Alu64(op, d, o) => SetReg(s, d, Alu(true, op, s.regs[d], OperandValue(s, o)), 1)
      case Alu32(op, d, o) => SetReg(s, d, Alu(false, op, s.regs[d], OperandValue(s, o)), 1)
      case LdImm64(d, v) => SetReg(s, d, Some(Word(v)), 2)
      case LdMapFd(d, fd) => SetReg(s, d, Some(MapHandle(fd)), 2)
      case Pad => Faulted(BadPc, s.maps)
      case St(size, d, off, v) => StoreAt(s, s.regs[d], off, size, Sext(v))
      case Stx(size, d, r, off) =>
        if s.regs[r].Word? then StoreAt(s, s.regs[d], off, size, s.regs[r].n)
        else Faulted(BadData, s.maps)
      case CallMapLookup => Lookup(s)
      case Jmp(eq, d, cmp, off) => Branch(s, eq, s.regs[d], cmp, off)
      case Exit => if s.regs[0].Word? then Exited(s.regs[0].n, s.maps) else Faulted(BadData, s.maps)
  }

  function Run(prog: seq<Insn>, s: State, steps: nat): Result
    decreases steps
  {
    if steps == 0 then Next(s)
    else match Step(prog, s)
      case Next(s') => Run(prog, s', steps - 1)
      case stop => stop
  }

  lemma {:induction false} RunAppend(prog: seq<Insn>, s: State, m: nat, n: nat)
    ensures Run(prog, s, m + n) ==
            match Run(prog, s, m) case Next(s') => Run(prog, s', n) case stop => stop
    decreases m
  {
    hide Step;
    if m == 0 || !Step(prog, s).Next? {
    } else {
      RunAppend(prog, Step(prog, s).s, m - 1, n);
    }
  }

  // ---------- forward programs halt ----------

  predicate IsStart(prog: seq<Insn>, i: int) {
    0 <= i < |prog| && prog[i] != Pad
  }

  /** The slots at which execution may continue after the instruction in slot i all hold the
      start of an instruction further on. */
  predicate SlotForward(prog: seq<Insn>, i: nat)
    requires i < |prog|
  {
    match prog[i]
    case Pad => true
    case Exit => true
    case LdImm64(_, _) => i + 1 < |prog| && prog[i + 1] == Pad && IsStart(prog, i + 2)
    case LdMapFd(_, _) => i + 1 < |prog| && prog[i + 1] == Pad && IsStart(prog, i + 2)
    case Jmp(_, _, _, off) => off >= 0 && IsStart(prog, i + 1) && IsStart(prog, i + 1 + off)
    case _ => IsStart(prog, i + 1)
  }

  predicate Forward(prog: seq<Insn>) {
    forall i: nat | i < |prog| :: SlotForward(prog, i)
  }

  /** The second slot of a 64-bit load is never a place to arrive at. */
  lemma WideLoads(prog: seq<Insn>, i: nat)
    requires Forward(prog) && i < |prog| && (prog[i].LdImm64? || prog[i].LdMapFd?)
    ensures i + 2 < |prog| && prog[i + 1] == Pad && !IsStart(prog, i + 1)
  {
    assert SlotForward(prog, i);
  }

  lemma StepForward(prog: seq<Insn>, s: State)
    requires Forward(prog) && IsStart(prog, s.pc)
    ensures var r := Step(prog, s);
            && (r.Next? ==> s.pc < r.s.pc && IsStart(prog, r.s.pc))
            && (r.Faulted? ==> r.kind == BadData)
  {
    assert SlotForward(prog, s.pc);
  }

  /** The meaning of a forward program: run it until it stops. */
  function Exec(prog: seq<Insn>, s: State): (r: Result)
    requires Forward(prog) && IsStart(prog, s.pc)
    ensures !r.Next?
    decreases |prog| - s.pc
  {
    StepForward(prog, s);
    match Step(prog, s)
    case Next(s') => Exec(prog, s')
    case stop => stop
  }

  /** A forward program stops within as many steps as it has slots left, with the result
      `Exec` names, and never because the program counter went astray. */
  lemma {:induction false} HaltsWithinSlots(prog: seq<Insn>, s: State, steps: nat)
    requires Forward(prog) && IsStart(prog, s.pc)
    requires steps >= |prog| - s.pc
    ensures Run(prog, s, steps) == Exec(prog, s)
    ensures !Run(prog, s, steps).Next?
    ensures Run(prog, s, steps).Faulted? ==> Run(prog, s, steps).kind == BadData
    decreases |prog| - s.pc
  {
    hide Step, Forward;
    StepForward(prog, s);
    if !Step(prog, s).Next? {
    } else {
      HaltsWithinSlots(prog, Step(prog, s).s, steps - 1);
    }
  }

  /** Taking any number of steps first does not change where a forward program ends. */
  lemma {:induction false} ExecAfter(prog: seq<Insn>, s: State, steps: nat)
    requires Forward(prog) && IsStart(prog, s.pc)
    ensures match Run(prog, s, steps)
            case Next(s') => IsStart(prog, s'.pc) && Exec(prog, s) == Exec(prog, s')
            case stop => Exec(prog, s) == stop
    decreases steps
  {
    hide Step, Forward;
    if steps == 0 {
    } else {
      StepForward(prog, s);
      if Step(prog, s).Next? {
        ExecAfter(prog, Step(prog, s).s, steps - 1);
      }
    }
  }
}
