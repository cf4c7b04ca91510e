/** The interpreter as the mutable object it is: every operation updates the
    register fields or the memory array in place, and is proved to make exactly
    the transition that Mos6502Spec gives it. */
module Mos6502Machine {
  import opened Results
  import Spec = Mos6502Spec
  import opened Mos6502Spec
  import Runs = Mos6502Runs

  /** Moving pc moves nothing else that addressing looks at. */
  lemma SkipKeepsMemory(s: Cpu)
    requires s.Valid()
    ensures forall zp | IsByte(zp) :: ZeroPagePointer(Skip(s, 1), zp) == ZeroPagePointer(s, zp)
  {
  }

  class Mos6502 {
    const dev: Device
    const mem: array<int>
    var a: int
    var x: int
    var y: int
    var sp: int
    var pc: int
    var c: int
    var z: int
    var v: int
    var n: int
    var i: int
    var d: int
    var cycles: int
    var instructions: int
    var io: seq<IoEvent>

    ghost function State(): Cpu
      reads this, mem
    {
      Cpu(a, x, y, sp, pc, c, z, v, n, i, d, cycles, instructions, mem[..], io)
    }

    /** What the device callbacks see of the machine. */
    function Seen(): View
      reads this, mem
    {
      View(a, x, y, sp, pc, c, z, v, n, i, d, cycles, instructions, mem[..])
    }

    ghost predicate Valid()
      reads this, mem
    {
      mem.Length == MEM_SIZE && State().Valid()
    }

    /** The outcome r and the state left behind, whether it returned or raised, are those of e. */
    ghost predicate Did(e: Result<Cpu, Trap>, r: Result<(), Fault>)
      reads this, mem
    {
      match e
      case Ok(s) => r == Ok(()) && State() == s
      case Err(t) => r == Err(t.fault) && State() == t.left
    }

    ghost predicate Gave(e: Result<(int, Cpu), Trap>, r: Result<int, Fault>)
      reads this, mem
    {
      match e
      case Ok((value, s)) => r == Ok(value) && State() == s
      case Err(t) => r == Err(t.fault) && State() == t.left
    }

    constructor (image: array?<int>, dev: Device)
      requires image != null ==> ValidMemory(image[..])
      ensures Valid() && this.dev == dev && io == []
      ensures if image == null then fresh(mem) && (forall k :: 0 <= k < MEM_SIZE ==> mem[k] == 0) else mem == image
      ensures (a, x, y, sp, pc) == (0, 0, 0, 0xFD, 0)
      ensures (c, z, v, n, i, d) == (0, 0, 0, 0, 1, 0) && cycles == instructions == 0
    {
      this.dev := dev;
      a, x, y, sp, pc := 0, 0, 0, 0xFD, 0;
      c, z, v, n, i, d := 0, 0, 0, 0, 1, 0;
      cycles, instructions, io := 0, 0, [];
      if image == null {
        mem := new int[MEM_SIZE](_ => 0);
      } else {
        mem := image;
      }
      new;
      assert forall k :: 0 <= k < MEM_SIZE ==> mem[..][k] == mem[k];
    }

    // ---- bus --------------------------------------------------------------

    method Rd(addr: int) returns (r: Result<int, Fault>)
      requires Valid() && 0 <= addr < MEM_SIZE
      modifies this`io
      ensures Valid() && Gave(Spec.Rd(dev, old(State()), addr), r)
    {
      if dev.Covers(addr) {
        var view := Seen();
        match dev.onRead(io, view, addr) {
          case None => return Err(DeviceRaised(addr));
          case Some(value) =>
            io := io + [IoRead(view, addr, value % 256)];
            return Ok(value % 256);
        }
      }
      return Ok(mem[addr]);
    }

    method Wr(addr: int, value: int) returns (r: Result<(), Fault>)
      requires Valid() && 0 <= addr < MEM_SIZE && IsByte(value)
      modifies this`io, mem
      ensures Valid() && Did(Spec.Wr(dev, old(State()), addr, value), r)
    {
      if dev.Covers(addr) {
        var view := Seen();
        if !dev.onWrite(io, view, addr, value) {
          return Err(DeviceRaised(addr));
        }
        io := io + [IoWrite(view, addr, value)];
        return Ok(());
      }
      mem[addr] := value;
      return Ok(());
    }

    // ---- stack ------------------------------------------------------------

    method Push(value: int)
      requires Valid() && IsByte(value)
      modifies this`sp, mem
      ensures Valid() && State() == Spec.Push(old(State()), value)
    {
      mem[0x100 + sp] := value;
      sp := (sp - 1) % 256;
    }

    method Pop() returns (value: int)
      requires Valid()
      modifies this`sp
      ensures Valid() && (value, State()) == Spec.Pop(old(State()))
    {
      sp := (sp + 1) % 256;
      value := mem[0x100 + sp];
    }

    function P(): (p: int)
      requires Valid()
      reads this, mem
      ensures p == Status(State())
    {
      0x80 * n + 0x40 * v + 0x20 + 0x08 * d + 0x04 * i + 0x02 * z + c
    }

    method SetStatus(p: int)
      requires Valid() && IsByte(p)
      modifies this`n, this`v, this`d, this`i, this`z, this`c
      ensures Valid() && State() == WithStatus(old(State()), p)
    {
      n, v, d := p / 0x80 % 2, p / 0x40 % 2, p / 0x08 % 2;
      i, z, c := p / 0x04 % 2, p / 0x02 % 2, p % 2;
    }

    // ---- addressing -------------------------------------------------------

    /** The two operand bytes at pc, and pc past them, read or not. */
    method FetchWord() returns (r: Result<int, Fault>)
      requires Valid()
      modifies this`pc
      ensures Valid()
      ensures match Spec.Word(old(State()))
              case Ok(w) => r == Ok(w) && State() == Skip(old(State()), 2)
              case Err(t) => r == Err(t.fault) && State() == t.left
    {
      var at := pc;
      pc := (at + 2) % MEM_SIZE;
      if at + 1 >= MEM_SIZE {
        return Err(OperandPastMemory);
      }
      return Ok(mem[at] + 256 * mem[at + 1]);
    }

    method Indexed(base: int, offset: int, penalise: bool) returns (eff: int)
      requires Valid()
      modifies this`cycles
      ensures Valid() && (eff, State()) == Spec.Indexed(old(State()), base, offset, penalise)
    {
      eff := (base + offset) % MEM_SIZE;
      if penalise && base / 256 != eff / 256 {
        cycles := cycles + 1;
      }
    }

    method Indirect(ptr: int) returns (r: Result<int, Fault>)
      requires Valid() && 0 <= ptr < MEM_SIZE
      modifies this`io
      ensures Valid() && Gave(Spec.Indirect(dev, old(State()), ptr), r)
    {
      var lo :- Rd(ptr);
      var hi :- Rd(ptr - ptr % 256 + (ptr + 1) % 256);
      return Ok(lo + 256 * hi);
    }

    /** The operand byte at pc, and pc past it. */
    method Fetch() returns (operand: int)
      requires Valid()
      modifies this`pc
      ensures Valid() && operand == old(State()).mem[old(pc)] && IsByte(operand) && State() == Skip(old(State()), 1)
    {
      operand := mem[pc];
      pc := (pc + 1) % MEM_SIZE;
    }

    function ZeroPagePointer(zp: int): (r: int)
      requires Valid() && IsByte(zp)
      reads this, mem
      ensures r == Spec.ZeroPagePointer(State(), zp)
    {
      mem[zp] + 256 * mem[(zp + 1) % 256]
    }

    lemma ByteRegisters()
      requires Valid()
      ensures IsByte(a) && IsByte(x) && IsByte(y) && IsByte(sp) && 0 <= pc < MEM_SIZE && IsFlag(c)
    {
    }

    /** IMM ZP ZPX ZPY IZX IZY */
    method ByteAddr(mode: Mode, penalise: bool) returns (addr: int)
      requires Valid() && ByteMode(mode)
      modifies this`pc, this`cycles
      ensures Valid() && (addr, State()) == Spec.ByteAddr(old(State()), mode, penalise)
    {
      hide Spec.Indexed, Skip, Cpu.Valid, Spec.ZeroPagePointer;
      ByteRegisters();
      SkipKeepsMemory(State());
      var at := pc;
      var operand := Fetch();
      if mode == IMM {
        return at;
      } else if mode == ZP {
        return operand;
      } else if mode == ZPX {
        return (operand + x) % 256;
      } else if mode == ZPY {
        return (operand + y) % 256;
      } else if mode == IZX {
        return ZeroPagePointer((operand + x) % 256);
      } else {
        addr := Indexed(ZeroPagePointer(operand), y, penalise);
      }
    }

    /** and ABS ABX ABY IND; the rest have no address */
    method Addr(mode: Mode, penalise: bool) returns (r: Result<int, Fault>)
      requires Valid()
      modifies this`pc, this`cycles, this`io
      ensures Valid() && Gave(Spec.Addr(dev, old(State()), mode, penalise), r)
    {
      hide Spec.ByteAddr, Spec.Word, Spec.Indexed, Spec.Indirect, Skip, Cpu.Valid;
      if ByteMode(mode) {
        var addr := ByteAddr(mode, penalise);
        return Ok(addr);
      }
      if mode == IMP || mode == ACC || mode == REL {
        return Err(BadMode);
      }
      var w :- FetchWord();
      if mode == ABS {
        return Ok(w);
      } else if mode == ABX {
        var eff := Indexed(w, x, penalise);
        return Ok(eff);
      } else if mode == ABY {
        var eff := Indexed(w, y, penalise);
        return Ok(eff);
      } else {
        r := Indirect(w);
      }
    }

    method Operand(mode: Mode) returns (r: Result<int, Fault>)
      requires Valid()
      modifies this`pc, this`cycles, this`io
      ensures Valid() && Gave(Spec.Operand(dev, old(State()), mode), r)
    {
      var addr :- Addr(mode, true);
      r := Rd(addr);
    }

    // ---- operations -------------------------------------------------------

    method SetZN(value: int)
      requires Valid() && IsByte(value)
      modifies this`z, this`n
      ensures Valid() && State() == ZN(old(State()), value)
    {
      z := if value == 0 then 1 else 0;
      n := if value >= 0x80 then 1 else 0;
    }

    method SetCarry(value: int)
      requires Valid() && IsFlag(value)
      modifies this`c
      ensures Valid() && State() == old(State()).(c := value)
    {
      c := value;
    }

    method LoadA(value: int)
      requires Valid() && IsByte(value)
      modifies this`a, this`z, this`n
      ensures Valid() && State() == ZN(old(State()).(a := value), value)
    {
      a := value;
      SetZN(value);
    }

    method LoadX(value: int)
      requires Valid() && IsByte(value)
      modifies this`x, this`z, this`n
      ensures Valid() && State() == ZN(old(State()).(x := value), value)
    {
      x := value;
      SetZN(value);
    }

    method LoadY(value: int)
      requires Valid() && IsByte(value)
      modifies this`y, this`z, this`n
      ensures Valid() && State() == ZN(old(State()).(y := value), value)
    {
      y := value;
      SetZN(value);
    }

    method Add(m: int)
      requires Valid() && IsByte(m)
      modifies this`a, this`c, this`v, this`z, this`n
      ensures Valid() && State() == AddWithCarry(old(State()), m)
    {
      var t := a + m + c;
      c := if t > 0xFF then 1 else 0;
      var sum := t % 256;
      v := Overflow(a, m, sum);
      a := sum;
      SetZN(a);
    }

    method Cmp(reg: int, m: int)
      requires Valid() && IsByte(reg) && IsByte(m)
      modifies this`c, this`z, this`n
      ensures Valid() && State() == Compare(old(State()), reg, m)
    {
      c := if reg >= m then 1 else 0;
      SetZN((reg - m) % 256);
    }

    /** CMP CPX CPY LDX LDY LDA, once the operand is read */
    method CompareOrLoad(op: Mnemonic, m: int)
      requires Valid() && op in {CMP, CPX, CPY, LDA, LDX, LDY} && IsByte(m)
      modifies this`a, this`x, this`y, this`c, this`z, this`n
      ensures Valid() && State() == Consume(old(State()), op, m)
    {
      hide ZN, AddWithCarry, Compare, Bitwise, Cpu.Valid;
      ByteRegisters();
      if op == CMP {
        Cmp(a, m);
      } else if op == CPX {
        Cmp(x, m);
      } else if op == CPY {
        Cmp(y, m);
      } else if op == LDX {
        LoadX(m);
      } else if op == LDY {
        LoadY(m);
      } else {
        LoadA(m);
      }
    }

    method Bit(m: int)
      requires Valid() && IsByte(m)
      modifies this`z, this`n, this`v
      ensures Valid() && State() == Consume(old(State()), BIT, m)
    {
      hide Bitwise, AddWithCarry, Compare, ZN;
      z := if Bitwise(AND, a, m) == 0 then 1 else 0;
      n := m / 0x80 % 2;
      v := m / 0x40 % 2;
    }

    /** and ADC SBC AND ORA EOR BIT */
    method ConsumeOperand(op: Mnemonic, m: int)
      requires Valid() && IsRead(op) && IsByte(m)
      modifies this`a, this`x, this`y, this`c, this`z, this`n, this`v
      ensures Valid() && State() == Consume(old(State()), op, m)
    {
      hide ZN, AddWithCarry, Compare, Bitwise, Cpu.Valid;
      ByteRegisters();
      if op == ADC {
        Add(m);
      } else if op == SBC {
        Add(0xFF - m);
      } else if op == AND || op == ORA || op == EOR {
        LoadA(Bitwise(op, a, m));
      } else if op == BIT {
        Bit(m);
      } else {
        CompareOrLoad(op, m);
      }
    }

    method OpRead(op: Mnemonic, mode: Mode) returns (r: Result<(), Fault>)
      requires Valid() && IsRead(op)
      modifies this
      ensures Valid() && Did(ExecRead(dev, old(State()), op, mode), r)
    {
      hide Spec.Operand, Consume;
      if (op == ADC || op == SBC) && d != 0 {
        return Err(DecimalMode);
      }
      var m :- Operand(mode);
      ConsumeOperand(op, m);
      return Ok(());
    }

    /** ASL LSR ROL ROR INC DEC, on the accumulator or on memory */
    method OpModify(op: Mnemonic, mode: Mode) returns (r: Result<(), Fault>)
      requires Valid() && IsModify(op)
      modifies this, mem
      ensures Valid() && Did(ExecModify(dev, old(State()), op, mode), r)
    {
      hide Spec.Addr, Spec.Rd, Spec.Wr, Modified, ZN, Cpu.Valid;
      if mode == ACC && op != INC && op != DEC {
        Shift(op);
        return Ok(());
      }
      var addr :- Addr(mode, false);
      var m :- Rd(addr);
      ByteRegisters();
      var changed := Modified(op, m, c);
      SetCarry(changed.1);
      SetZN(changed.0);
      r := Wr(addr, changed.0);
    }

    /** ASL LSR ROL ROR on the accumulator */
    method Shift(op: Mnemonic)
      requires Valid()
      modifies this`a, this`c, this`z, this`n
      ensures Valid()
      ensures var s := old(State());
        var (value, carry) := Modified(op, s.a, s.c);
        State() == ZN(s.(a := value, c := carry), value)
    {
      hide Modified, ZN;
      var shifted := Modified(op, a, c);
      SetCarry(shifted.1);
      LoadA(shifted.0);
    }

    method OpStore(op: Mnemonic, mode: Mode) returns (r: Result<(), Fault>)
      requires Valid() && IsStore(op)
      modifies this, mem
      ensures Valid() && Did(ExecStore(dev, old(State()), op, mode), r)
    {
      var addr :- Addr(mode, false);
      r := Wr(addr, if op == STA then a else if op == STX then x else y);
    }

    method OpBranch(taken: bool)
      requires Valid()
      modifies this`pc, this`cycles
      ensures Valid() && State() == Branch(old(State()), taken)
    {
      var off := mem[pc];
      pc := (pc + 1) % MEM_SIZE;
      if !taken {
        return;
      }
      if off >= 0x80 {
        off := off - 0x100;
      }
      var dst := (pc + off) % MEM_SIZE;
      cycles := cycles + (if dst / 256 != pc / 256 then 2 else 1);
      pc := dst;
    }

    /** INX DEX */
    method OpIndexX(op: Mnemonic)
      requires Valid() && op in {INX, DEX}
      modifies this`x, this`z, this`n
      ensures Valid() && State() == Transfer(old(State()), op)
    {
      hide ZN, Cpu.Valid;
      LoadX((if op == INX then x + 1 else x - 1) % 256);
    }

    /** INY DEY */
    method OpIndexY(op: Mnemonic)
      requires Valid() && op in {INY, DEY}
      modifies this`y, this`z, this`n
      ensures Valid() && State() == Transfer(old(State()), op)
    {
      hide ZN, Cpu.Valid;
      LoadY((if op == INY then y + 1 else y - 1) % 256);
    }

    /** and TAX TAY TXA TYA TSX TXS */
    method OpTransfer(op: Mnemonic)
      requires Valid() && IsTransfer(op)
      modifies this`a, this`x, this`y, this`sp, this`z, this`n
      ensures Valid() && State() == Transfer(old(State()), op)
    {
      hide ZN;
      if op == INX || op == DEX {
        OpIndexX(op);
      } else if op == INY || op == DEY {
        OpIndexY(op);
      } else if op == TAX {
        LoadX(a);
      } else if op == TAY {
        LoadY(a);
      } else if op == TXA {
        LoadA(x);
      } else if op == TYA {
        LoadA(y);
      } else if op == TSX {
        LoadX(sp);
      } else {
        ghost var s := State();
        sp := x;
        assert State() == s.(sp := s.x);
      }
    }

    method Jsr(target: int)
      requires Valid() && 0 <= target < MEM_SIZE
      modifies this`pc, this`sp, mem
      ensures Valid() && State() == Enter(old(State()), target)
    {
      hide Spec.Push;
      var ret := (pc - 1) % MEM_SIZE;
      Push(ret / 256);
      Push(ret % 256);
      pc := target;
    }

    method Rts()
      requires Valid()
      modifies this`pc, this`sp
      ensures Valid() && State() == Spec.Rts(old(State()))
    {
      hide Spec.Pop;
      var lo := Pop();
      var hi := Pop();
      pc := (lo + 256 * hi + 1) % MEM_SIZE;
    }

    method Plp()
      requires Valid()
      modifies this`sp, this`n, this`v, this`d, this`i, this`z, this`c
      ensures Valid() && State() == Spec.Plp(old(State()))
    {
      hide Spec.Pop, WithStatus;
      var p := Pop();
      SetStatus(p);
    }

    method Rti()
      requires Valid()
      modifies this
      ensures Valid() && State() == Spec.Rti(old(State()))
    {
      hide Spec.Pop, Spec.Plp;
      Plp();
      var lo := Pop();
      var hi := Pop();
      pc := lo + 256 * hi;
    }

    /** JMP JSR RTS RTI PHA PLA PHP PLP */
    method OpFlow(op: Mnemonic, mode: Mode) returns (r: Result<(), Fault>)
      requires Valid() && IsFlow(op)
      modifies this, mem
      ensures Valid() && Did(ExecFlow(dev, old(State()), op, mode), r)
    {
      hide Spec.Addr, Spec.Push, Spec.Pop, Spec.Rts, Spec.Rti, Spec.Plp, Enter, ZN;
      if op == JMP {
        var target :- Addr(mode, false);
        pc := target;
      } else if op == JSR {
        var target :- Addr(ABS, false);
        Jsr(target);
      } else if op == RTS {
        Rts();
      } else if op == RTI {
        Rti();
      } else if op == PHA {
        Push(a);
      } else if op == PLA {
        var value := Pop();
        LoadA(value);
      } else if op == PHP {
        Push(P() + 0x10);
      } else {
        Plp();
      }
      return Ok(());
    }

    /** CLC SEC CLI SEI CLV CLD NOP, and the two that are refused */
    method OpFlag(op: Mnemonic) returns (r: Result<(), Fault>)
      requires Valid()
      modifies this`c, this`i, this`v, this`d
      ensures Valid() && Did(ExecFlag(old(State()), op), r)
    {
      ghost var s := State();
      if op == CLC {
        c := 0;
        assert State() == s.(c := 0);
      } else if op == SEC {
        c := 1;
        assert State() == s.(c := 1);
      } else if op == CLI {
        i := 0;
        assert State() == s.(i := 0);
      } else if op == SEI {
        i := 1;
        assert State() == s.(i := 1);
      } else if op == CLV {
        v := 0;
        assert State() == s.(v := 0);
      } else if op == CLD {
        d := 0;
        assert State() == s.(d := 0);
      } else if op == SED {
        return Err(DecimalMode);
      } else if op != NOP {
        return Err(UnknownOpcode(0x00, (pc - 1) % MEM_SIZE));
      }
      return Ok(());
    }

    // ---- driving ----------------------------------------------------------

    method Step() returns (r: Result<(), Fault>)
      requires Valid()
      modifies this, mem
      ensures Valid() && Did(Spec.Step(dev, old(State())), r)
    {
      hide Spec.Rd, Decode, Exec;
      var at := pc;
      var opcode :- Rd(at);
      match Decode(opcode) {
        case None => return Err(UnknownOpcode(opcode, at));
        case Some(e) =>
          pc := (at + 1) % MEM_SIZE;
          cycles := cycles + e.cycles;
          instructions := instructions + 1;
          r := Dispatch(e.op, e.mode);
      }
    }

    method Dispatch(op: Mnemonic, mode: Mode) returns (r: Result<(), Fault>)
      requires Valid()
      modifies this, mem
      ensures Valid() && Did(Exec(dev, old(State()), op, mode), r)
    {
      hide ExecRead, ExecModify, ExecStore, Branch, Transfer, ExecFlow, ExecFlag;
      if IsRead(op) {
        r := OpRead(op, mode);
      } else if IsModify(op) {
        r := OpModify(op, mode);
      } else if IsStore(op) {
        r := OpStore(op, mode);
      } else if IsBranch(op) {
        OpBranch(match op
                 case BCC => c == 0
                 case BCS => c != 0
                 case BEQ => z != 0
                 case BNE => z == 0
                 case BMI => n != 0
                 case BPL => n == 0
                 case BVS => v != 0
                 case _ => v == 0);
        r := Ok(());
      } else if IsTransfer(op) {
        OpTransfer(op);
        r := Ok(());
      } else if IsFlow(op) {
        r := OpFlow(op, mode);
      } else {
        r := OpFlag(op);
      }
    }

    /** JSR to addr from the sentinel return address and step until it returns.
        Ends for every memory image and device: the cycles left are the measure. */
    method Call(addr: int, maxCycles: int) returns (r: Result<int, Fault>)
      requires Valid() && 0 <= addr < MEM_SIZE
      modifies this, mem
      ensures Valid()
      ensures match Runs.Drive(Runs.StepOf(dev), Runs.Called(old(State()), addr), old(cycles), maxCycles)
              case Ok(s) => State() == s && r == Ok(cycles - old(cycles))
              case Err(t) => State() == t.left && r == Err(t.fault)
      ensures r.Ok? ==> pc == RETURN_SENTINEL && (addr == RETURN_SENTINEL || r.value <= maxCycles)
    {
      hide Spec.Step;
      var ret := RETURN_SENTINEL - 1;
      Push(ret / 256);
      Push(ret % 256);
      pc := addr;
      var start := cycles;
      ghost var step := Runs.StepOf(dev);
      ghost var entry := State();
      while pc != RETURN_SENTINEL
        invariant Valid() && start <= cycles
        invariant State() == entry || cycles - start <= maxCycles
        invariant Runs.Drive(step, State(), start, maxCycles) == Runs.Drive(step, entry, start, maxCycles)
        decreases start + maxCycles - cycles
      {
        ghost var before := State();
        assert step(before) == Spec.Step(dev, before);
        var stepped := Step();
        if stepped.Err? {
          return Err(stepped.error);
        }
        assert Runs.SoundStep(before, State());
        if cycles - start > maxCycles {
          return Err(CpuBudgetExceeded(pc));
        }
      }
      return Ok(cycles - start);
    }
  }
}
