/**
 The tests around the programs: a machine that executes bytecode in place, the reusable
 program buffer of bpf_common.c, and the three `run` functions.
 */
module BpfTests {
  import opened Basics
  import opened BpfMachine
  import opened BpfPrograms

  const A64INT: u64 := 0x1000_0000_0000_0000

  datatype Status = Going | Ended(r0: u64) | Failed(kind: FaultKind) | Refused

  /** Registers, stack and maps, overwritten one instruction at a time. */
  class Vm {
    var pc: nat
    const regs: array<Value>
    const stack: array<byte>
    var maps: Maps

    ghost predicate Valid()
      reads this
    {
      regs.Length == 11 && stack.Length == STACK_SIZE
    }

    ghost function Contents(): State
      requires Valid()
      reads this, regs, stack
    {
      State(pc, regs[..], stack[..], maps)
    }

    constructor (maps: Maps)
      ensures Valid() && fresh(regs) && fresh(stack)
      ensures pc == 0 && this.maps == maps && regs[10] == FramePtr(0)
    {
      regs := new Value[11](_ => Uninit);
      stack := new byte[STACK_SIZE](_ => 0);
      this.maps := maps;
      pc := 0;
      new;
      regs[10] := FramePtr(0);
    }

    /** What one step, or a whole run, made of the machine that was in state `was`. */
    ghost predicate Shows(r: Result, st: Status)
      requires Valid()
      reads this, regs, stack
    {
      match r
      case Next(s) => st == Going && Contents() == s
      case Exited(r0, m) => st == Ended(r0) && maps == m
      case Faulted(kind, m) => st == Failed(kind) && maps == m
    }

    method WriteReg(r: Reg, v: Option<Value>, slots: nat) returns (st: Status)
      requires Valid()
      modifies this`pc, regs
      ensures Valid() && Shows(old(SetReg(Contents(), r, v, slots)), st)
    {
      if r == 10 || v.None? {
        return Failed(BadData);
      }
      regs[r] := v.value;
      pc := pc + slots;
      return Going;
    }

    method WriteBytes(at: nat, v: nat, width: nat)
      requires Valid() && at + width <= STACK_SIZE
      modifies stack
      ensures stack[..] == old(stack[..at]) + Bytes(v, width) + old(stack[at + width..])
    {
      hide Bytes;
      ghost var want, was := Bytes(v, width), stack[..];
      var rest: nat, i := v, 0;
      while i < width
        invariant 0 <= i <= width && Bytes(rest, width - i) == want[i..]
        invariant forall k | 0 <= k < i :: stack[at + k] == want[k]
        invariant forall k | 0 <= k < STACK_SIZE && !(at <= k < at + i) :: stack[k] == was[k]
      {
        BytesCons(rest, width - i);
        stack[at + i] := rest % 256;
        rest, i := rest / 256, i + 1;
      }
      forall k | at <= k < at + width ensures stack[k] == want[k - at] {
        assert stack[at + (k - at)] == want[k - at];
      }
      assert stack[..] == was[..at] + want + was[at + width..];
    }

    method Store(p: Value, off: int, size: Size, v: u64) returns (st: Status)
      requires Valid()
      modifies this`pc, this`maps, stack
      ensures Valid() && Shows(old(StoreAt(Contents(), p, off, size, v)), st)
    {
      match p {
        case FramePtr(o) =>
          var at := STACK_SIZE + o + off;
          if at < 0 || at + size.Width() > STACK_SIZE {
            return Failed(BadData);
          }
          WriteBytes(at, v, size.Width());
        case CellPtr(fd, i) =>
          if off != 0 || size != DW || fd !in maps || i >= |maps[fd]| {
            return Failed(BadData);
          }
          maps := SetCell(maps, fd, i, v);
        case _ =>
          return Failed(BadData);
      }
      pc := pc + 1;
      return Going;
    }

    method LookupElem() returns (st: Status)
      requires Valid()
      modifies this`pc, regs
      ensures Valid() && Shows(old(Lookup(Contents())), st)
    {
      if !regs[1].MapHandle? || !regs[2].FramePtr? {
        return Failed(BadData);
      }
      var fd, off := regs[1].fd, regs[2].off;
      if fd !in maps || off < -STACK_SIZE || off > -4 {
        return Failed(BadData);
      }
      var key := Load(stack[STACK_SIZE + off..STACK_SIZE + off + 4]);
      assert stack[STACK_SIZE + off..STACK_SIZE + off + 4] == stack[..][STACK_SIZE + off..STACK_SIZE + off + 4];
      regs[0] := if key < |maps[fd]| then CellPtr(fd, key) else Word(0);
      for r := 1 to 6
        modifies regs
        invariant regs[0] == (if key < |maps[fd]| then CellPtr(fd, key) else Word(0))
        invariant forall k | 1 <= k < r :: regs[k] == Uninit
        invariant forall k | 6 <= k < 11 :: regs[k] == old(regs[k])
      {
        regs[r] := Uninit;
      }
      pc := pc + 1;
      assert regs[..] == old(Lookup(Contents())).s.regs;
      return Going;
    }

    method Jump(insn: Insn) returns (st: Status)
      requires Valid() && insn.Jmp?
      modifies this`pc
      ensures Valid()
      ensures Shows(old(Branch(Contents(), insn.ifEqual, regs[insn.dst], insn.cmp, insn.off)), st)
    {
      var same := SameAs(regs[insn.dst], insn.cmp);
      if same.None? {
        return Failed(BadData);
      }
      var target := pc + 1 + (if same.value == insn.ifEqual then insn.off else 0);
      if target < 0 {
        return Failed(BadPc);
      }
      pc := target;
      return Going;
    }

    method StepOnce(prog: seq<Insn>) returns (st: Status)
      requires Valid()
      modifies this, regs, stack
      ensures Valid() && Shows(Step(prog, old(Contents())), st)
    {
      if pc >= |prog| {
        return Failed(BadPc);
      }
      match prog[pc] {
        case Alu64(op, d, o) =>
          st := WriteReg(d, Alu(true, op, regs[d], if o.Imm? then Word(Sext(o.i)) else regs[o.r]), 1);
        case Alu32(op, d, o) =>
          st := WriteReg(d, Alu(false, op, regs[d], if o.Imm? then Word(Sext(o.i)) else regs[o.r]), 1);
        case LdImm64(d, v) => st := WriteReg(d, Some(Word(v)), 2);
        case LdMapFd(d, fd) => st := WriteReg(d, Some(MapHandle(fd)), 2);
        case Pad => st := Failed(BadPc);
        case St(size, d, off, v) => st := Store(regs[d], off, size, Sext(v));
        case Stx(size, d, r, off) =>
          if regs[r].Word? {
            st := Store(regs[d], off, size, regs[r].n);
          } else {
            st := Failed(BadData);
          }
        case CallMapLookup => st := LookupElem();
        case Jmp(_, _, _, _) => st := Jump(prog[pc]);
        case Exit => st := if regs[0].Word? then Ended(regs[0].n) else Failed(BadData);
      }
    }

    /** Executes a forward program to its end. */
    method Execute(prog: seq<Insn>) returns (st: Status)
      requires Valid() && Forward(prog) && IsStart(prog, pc)
      modifies this, regs, stack
      ensures Valid() && Shows(old(Exec(prog, Contents())), st)
    {
      ghost var was := Contents();
      st := Going;
      while st.Going?
        invariant Valid()
        invariant if st.Going? then IsStart(prog, pc) && Exec(prog, Contents()) == Exec(prog, was)
                  else Shows(Exec(prog, was), st)
        decreases if st.Going? then 1 + |prog| - pc else 0
      {
        StepForward(prog, Contents());
        st := StepOnce(prog);
      }
    }
  }

  /** The attributes and the static buffer that bpf_init_prog_attr fills. */
  class ProgAttr {
    var buf: array?<Insn>
    var insnCnt: nat

    ghost predicate Valid()
      reads this, buf
    {
      insnCnt <= if buf == null then 0 else buf.Length
    }

    /** The program the kernel is handed: insn_cnt slots from the start of the buffer. */
    ghost function Loaded(): seq<Insn>
      requires Valid()
      reads this, buf
    {
      if buf == null then [] else buf[..insnCnt]
    }

    constructor ()
      ensures Valid() && buf == null
    {
      buf, insnCnt := null, 0;
    }

    /** Copies the program into the buffer, which is replaced only when it is too small. */
    method Init(prog: seq<Insn>)
      requires Valid()
      modifies this, buf
      ensures Valid() && Loaded() == prog && buf != null
      ensures old(buf) != null && |prog| <= old(buf).Length ==> buf == old(buf)
      ensures buf != old(buf) ==> fresh(buf)
      ensures old(buf) != null ==> old(buf).Length <= buf.Length
    {
      if buf == null || |prog| > buf.Length {
        buf := new Insn[|prog|](i requires 0 <= i < |prog| => prog[i]);
      }
      forall i | 0 <= i < |prog| {
        buf[i] := prog[i];
      }
      insnCnt := |prog|;
    }

    method Program() returns (prog: seq<Insn>)
      requires Valid()
      ensures prog == Loaded()
    {
      prog := if buf == null then [] else buf[..insnCnt];
    }
  }

  /** What the kernel does with a program: turns it down, runs it, or goes wrong and leaves
      something else in the maps, which is what the tests are there to find. */
  datatype Answer = Refuses | Runs | Misruns(left: Maps)

  /** What a comparison reported, or the end of the test when the kernel refused a call. */
  datatype Verdict = Pass | Fail | Broken

  /** A machine about to run a program: only the frame pointer is known. */
  ghost predicate Starts(s: State, maps: Maps) {
    s.pc == 0 && s.regs[10] == FramePtr(0) && s.maps == maps
  }

  /** Running the program on some such machine ended with this status and these maps. */
  ghost predicate RanTo(prog: seq<Insn>, before: Maps, st: Status, after: Maps)
    requires Forward(prog) && IsStart(prog, 0)
  {
    exists s: State | Starts(s, before) ::
      match Exec(prog, s)
      case Exited(r0, m) => st == Ended(r0) && after == m
      case Faulted(kind, m) => st == Failed(kind) && after == m
      case Next(_) => false
  }

  /** One test process: the kernel's maps, the attributes, and the guarded key and value. */
  class Test {
    var maps: Maps
    const attr: ProgAttr
    var key: nat
    var val: u64

    constructor ()
      ensures maps == map[] && fresh(attr) && attr.Valid() && attr.buf == null
    {
      maps, key, val := map[], 0, 0;
      attr := new ProgAttr();
    }

    /** bpf_map_array_create: `fd` is the descriptor the kernel hands out. */
    method ArrayCreate(fd: int, entries: nat)
      requires fd !in maps
      modifies this`maps
      ensures maps == old(maps)[fd := seq(entries, _ => 0)]
    {
      var cells: seq<u64> := seq(entries, _ => 0);
      maps := maps[fd := cells];
    }

    /** bpf_map_array_get into the value buffer. */
    method ArrayGet(fd: int) returns (ok: bool)
      modifies this`val
      ensures ok <==> fd in maps && key < |maps[fd]|
      ensures val == if ok then maps[fd][key] else old(val)
    {
      ok := fd in maps && key < |maps[fd]|;
      if ok {
        val := maps[fd][key];
      }
    }

    /** bpf_init_prog_attr and the call that loads what it prepared. */
    method LoadProg(prog: seq<Insn>, answer: Answer) returns (loaded: bool)
      requires attr.Valid()
      modifies attr, attr.buf
      ensures attr.Valid() && attr.Loaded() == prog
      ensures attr.buf == old(attr.buf) || fresh(attr.buf)
      ensures loaded <==> !answer.Refuses?
    {
      attr.Init(prog);
      loaded := !answer.Refuses?;
    }

    /** bpf_load_prog and bpf_run_prog: what was loaded runs on one packet. */
    method LoadAndRun(prog: seq<Insn>, answer: Answer) returns (st: Status)
      requires attr.Valid() && Forward(prog) && IsStart(prog, 0)
      modifies this`maps, attr, attr.buf
      ensures attr.Valid() && attr.Loaded() == prog
      ensures attr.buf == old(attr.buf) || fresh(attr.buf)
      ensures match answer
              case Refuses => st == Refused && maps == old(maps)
              case Runs => RanTo(prog, old(maps), st, maps)
              case Misruns(left) => st == Ended(0) && maps == left
    {
      var loaded := LoadProg(prog, answer);
      if !loaded {
        return Refused;
      }
      if answer.Misruns? {
        maps := answer.left;
        return Ended(0);
      }
      var code := attr.Program();
      var vm := new Vm(maps);
      ghost var s: State := vm.Contents();
      st := vm.Execute(code);
      maps := vm.maps;
      assert Starts(s, old(maps));
    }

    function Compare(ok: bool, expected: u64): Verdict
      reads this
    {
      if !ok then Broken else if val != expected then Fail else Pass
    }

    /** bpf_prog05.c, expect_reg_val: reads the cell named by the key, then moves the key on. */
    method ExpectRegVal(fd: int, expected: u64) returns (v: Verdict)
      modifies this`key, this`val
      ensures fd in maps && old(key) < |maps[fd]| ==>
                && v == (if maps[fd][old(key)] == expected then Pass else Fail)
                && key == old(key) + 1 && val == maps[fd][old(key)]
      ensures !(fd in maps && old(key) < |maps[fd]|) ==> v == Broken && key == old(key)
    {
      var ok := ArrayGet(fd);
      if ok {
        key := key + 1;
      }
      v := Compare(ok, expected);
    }

    /** bpf_prog05.c, ensure_ptr_arithmetic: the probe is loaded and closed again, never run. */
    method EnsurePtrArithmetic(answer: Answer) returns (have: bool)
      requires attr.Valid()
      modifies attr, attr.buf
      ensures attr.Valid() && attr.Loaded() == PtrProbe() && (attr.buf == old(attr.buf) || fresh(attr.buf))
      ensures have <==> !answer.Refuses?
    {
      have := LoadProg(PtrProbe(), answer);
    }

    /** What a program known to leave these cells leaves, depending on the kernel. */
    ghost predicate Left(before: Maps, after: Maps, fd: int, want: seq<u64>, answer: Answer, st: Status)
      requires fd in before
    {
      match answer
      case Refuses => st == Refused && after == before
      case Runs => st == Ended(0) && Leaves(before, after, fd, want)
      case Misruns(left) => st == Ended(0) && after == left
    }

    /** Runs a program known to leave these cells in any machine that may start it. */
    method LoadKnown(prog: seq<Insn>, fd: int, ghost want: seq<u64>, answer: Answer) returns (st: Status)
      requires attr.Valid() && fd in maps && Forward(prog) && IsStart(prog, 0)
      requires forall s: State | Starts(s, maps) ::
                 var r := Exec(prog, s); r.Exited? && r.r0 == 0 && Leaves(maps, r.maps, fd, want)
      modifies this`maps, attr, attr.buf
      ensures attr.Valid() && attr.Loaded() == prog && (attr.buf == old(attr.buf) || fresh(attr.buf))
      ensures Left(old(maps), maps, fd, want, answer, st)
    {
      hide Exec, Leaves, Forward;
      st := LoadAndRun(prog, answer);
    }

    method Load01(fd: int, answer: Answer) returns (st: Status)
      requires attr.Valid() && fd in maps
      modifies this`maps, attr, attr.buf
      ensures attr.Valid() && attr.Loaded() == Prog01(fd) && (attr.buf == old(attr.buf) || fresh(attr.buf))
      ensures Left(old(maps), maps, fd, [1], answer, st)
    {
      hide Exec, Prog01, Leaves, Forward, Left;
      Prog01Forward(fd);
      forall s: State | Starts(s, maps)
        ensures var r := Exec(Prog01(fd), s); r.Exited? && r.r0 == 0 && Leaves(maps, r.maps, fd, [1])
      {
        Prog01Leaves(fd, s);
      }
      st := LoadKnown(Prog01(fd), fd, [1], answer);
    }

    method Load02(fd: int, a: u64, k: i32, answer: Answer) returns (st: Status)
      requires attr.Valid() && fd in maps
      modifies this`maps, attr, attr.buf
      ensures attr.Valid() && attr.Loaded() == Prog02(fd, a, k) && (attr.buf == old(attr.buf) || fresh(attr.buf))
      ensures Left(old(maps), maps, fd, [Mod64(a + k), Mod64(a - k)], answer, st)
    {
      hide Exec, Prog02, Leaves, Forward, Left;
      Prog02Forward(fd, a, k);
      forall s: State | Starts(s, maps)
        ensures var r := Exec(Prog02(fd, a, k), s);
                r.Exited? && r.r0 == 0 && Leaves(maps, r.maps, fd, [Mod64(a + k), Mod64(a - k)])
      {
        Prog02Leaves(fd, a, k, s);
      }
      st := LoadKnown(Prog02(fd, a, k), fd, [Mod64(a + k), Mod64(a - k)], answer);
    }

    method Load05(fd: int, answer: Answer) returns (st: Status)
      requires attr.Valid() && fd in maps
      modifies this`maps, attr, attr.buf
      ensures attr.Valid() && attr.Loaded() == Prog05(fd) && (attr.buf == old(attr.buf) || fresh(attr.buf))
      ensures Left(old(maps), maps, fd, EXPECTED_05, answer, st)
    {
      hide Exec, Prog05, Leaves, Forward, Left;
      Prog05Forward(fd);
      forall s: State | Starts(s, maps)
        ensures var r := Exec(Prog05(fd), s); r.Exited? && r.r0 == 0 && Leaves(maps, r.maps, fd, EXPECTED_05)
      {
        Prog05Leaves(fd, s);
      }
      st := LoadKnown(Prog05(fd), fd, EXPECTED_05, answer);
    }

    /** bpf_prog01.c, run: the verdict is that of comparing cell 0 with 1, whatever the kernel left
        there; a kernel that runs the program leaves 1. */
    method Run01(fd: int, answer: Answer) returns (v: Verdict)
      requires attr.Valid() && fd !in maps
      requires answer.Misruns? ==> fd in answer.left && |answer.left[fd]| == 1
      modifies this, attr, attr.buf
      ensures answer.Refuses? ==> v == Broken
      ensures answer.Runs? ==> v == Pass && fd in maps && maps[fd] == [1]
      ensures answer.Misruns? ==> v == if answer.left[fd][0] == 1 then Pass else Fail
      ensures attr.Valid() && attr.Loaded() == Prog01(fd)
    {
      hide Leaves;
      ArrayCreate(fd, 1);
      ghost var m := maps;
      var st := Load01(fd, answer);
      if st == Refused {
        return Broken;
      }
      if answer.Runs? {
        LeavesCells(m, maps, fd, [1]);
      }
      key := 0;
      var ok := ArrayGet(fd);
      v := Compare(ok, 1);
    }

    /** bpf_prog02.c, run, with A64INT = 2^60: likewise for 2^60 + 1 and 2^60 - 1. */
    method Run02(fd: int, answer: Answer) returns (vs: seq<Verdict>)
      requires attr.Valid() && fd !in maps
      requires answer.Misruns? ==> fd in answer.left && |answer.left[fd]| == 2
      modifies this, attr, attr.buf
      ensures answer.Refuses? ==> vs == []
      ensures answer.Runs? ==>
                vs == [Pass, Pass] && fd in maps && maps[fd] == [0x1000_0000_0000_0001, 0xFFF_FFFF_FFFF_FFFF]
      ensures answer.Misruns? ==>
                vs == [if answer.left[fd][0] == 0x1000_0000_0000_0001 then Pass else Fail,
                       if answer.left[fd][1] == 0xFFF_FFFF_FFFF_FFFF then Pass else Fail]
    {
      hide Leaves;
      ArrayCreate(fd, 2);
      ghost var m := maps;
      var st := Load02(fd, A64INT, 1, answer);
      if st == Refused {
        return [];
      }
      if answer.Runs? {
        LeavesCells(m, maps, fd, [A64INT + 1, A64INT - 1]);
      }
      key := 0;
      var ok := ArrayGet(fd);
      var v0 := Compare(ok, A64INT + 1);
      key := 1;
      ok := ArrayGet(fd);
      var v1 := Compare(ok, A64INT - 1);
      vs := [v0, v1];
    }

    /** bpf_prog05.c, run: likewise for the four cells, and no other map changes. */
    method Run05(fd: int, probed: Answer, answer: Answer) returns (vs: seq<Verdict>)
      requires attr.Valid() && fd !in maps
      requires answer.Misruns? ==> fd in answer.left && |answer.left[fd]| == 8
      modifies this, attr, attr.buf
      ensures probed.Refuses? || answer.Refuses? ==> vs == []
      ensures !probed.Refuses? && answer.Runs? ==>
                && vs == [Pass, Pass, Pass, Pass]
                && fd in maps && maps[fd] == [0x1_0000_0000, 0, 0x1_0000_0000, 0xFFFF_FFFF, 0, 0, 0, 0]
      ensures !probed.Refuses? && answer.Misruns? ==>
                vs == Compared(answer.left[fd], [0x1_0000_0000, 0, 0x1_0000_0000, 0xFFFF_FFFF])
      ensures !answer.Misruns? ==>
                forall other | other in old(maps) :: other in maps && maps[other] == old(maps)[other]
    {
      hide Leaves;
      ArrayCreate(fd, 8);
      ghost var m := maps;
      var have := EnsurePtrArithmetic(probed);
      if !have {
        return [];
      }
      var st := Load05(fd, answer);
      if st == Refused {
        return [];
      }
      if answer.Runs? {
        LeavesCells(m, maps, fd, EXPECTED_05);
        forall other | other in old(maps) ensures other in maps && maps[other] == old(maps)[other] {
          LeavesOthers(m, maps, fd, EXPECTED_05, other);
        }
      }
      vs := Compare05(fd);
    }

    /** The verdicts of comparing the first cells with these values. */
    ghost function Compared(cells: seq<u64>, want: seq<u64>): seq<Verdict>
      requires |want| <= |cells|
    {
      seq(|want|, i requires 0 <= i < |want| => if cells[i] == want[i] then Pass else Fail)
    }

    /** The comparisons of bpf_prog05.c. */
    method Compare05(fd: int) returns (vs: seq<Verdict>)
      requires fd in maps && |maps[fd]| == 8
      modifies this`key, this`val
      ensures vs == Compared(maps[fd], [0x1_0000_0000, 0, 0x1_0000_0000, 0xFFFF_FFFF])
    {
      key := 0;
      var v0 := ExpectRegVal(fd, TWO32);
      var v1 := ExpectRegVal(fd, 0);
      var v2 := ExpectRegVal(fd, TWO32);
      var v3 := ExpectRegVal(fd, TWO32 - 1);
      vs := [v0, v1, v2, v3];
    }
  }
}
