/** What one step does on each instruction that the assembled loops use, for any
    machine state in which that instruction lies in plain memory at pc. */
module Mos6502Steps {
  import opened Results
  import opened Mos6502Spec
  import opened Mos6502Runs

  /** An instruction with this opcode stands at pc, in plain memory that ends no
      earlier than two bytes after it. */
  predicate At(dev: Device, s: Cpu, opcode: int) {
    s.Valid() && s.pc + 3 < MEM_SIZE && !dev.Covers(s.pc) && s.mem[s.pc] == opcode
  }

  predicate Operand1(dev: Device, s: Cpu, v: int)
    requires |s.mem| == MEM_SIZE && 0 <= s.pc && s.pc + 3 < MEM_SIZE
  {
    s.mem[s.pc + 1] == v && !dev.Covers(s.pc + 1)
  }

  predicate Operand2(s: Cpu, w: int)
    requires |s.mem| == MEM_SIZE && 0 <= s.pc && s.pc + 3 < MEM_SIZE
  {
    s.mem[s.pc + 1] == Lo(w) && s.mem[s.pc + 2] == Hi(w)
  }

  /** s past an instruction of the given length that took `cost` cycles. */
  function Past(s: Cpu, length: int, cost: int): Cpu {
    s.(pc := s.pc + length, cycles := s.cycles + cost, instructions := s.instructions + 1)
  }

  function Lo(w: int): int { w % 256 }
  function Hi(w: int): int { w / 256 % 256 }

  /** Stack pointers wrap within a byte: two pushes and the pops that undo them. */
  lemma StackWrap(sp: int)
    requires IsByte(sp)
    ensures ((sp - 1) % 256 - 1) % 256 == (sp - 2) % 256
    ensures ((sp - 2) % 256 + 1) % 256 == (sp - 1) % 256
    ensures ((sp - 1) % 256 + 1) % 256 == sp
    ensures ((sp + 1) % 256 + 1) % 256 == (sp + 2) % 256
    ensures ((sp - 2) % 256 + 2) % 256 == sp
  {
  }

  /** A call pushes its return address and touches nothing else in memory. */
  lemma EnterPushes(s: Cpu, target: int)
    requires s.Valid() && 0 <= target < MEM_SIZE
    ensures var e, ret, sp1 := Enter(s, target), (s.pc - 1) % MEM_SIZE, (s.sp - 1) % 256;
      && e.Valid() && e == s.(pc := target, sp := (s.sp - 2) % 256,
                              mem := s.mem[0x100 + s.sp := ret / 256][0x100 + sp1 := ret % 256])
      && (sp1 - 1) % 256 == (s.sp - 2) % 256
  {
    StackWrap(s.sp);
  }

  /** The two bytes above the stack pointer are not the two a call writes. */
  lemma FrameApart(sp: int)
    requires IsByte(sp)
    ensures (sp + 1) % 256 != sp && (sp + 1) % 256 != (sp - 1) % 256
    ensures (sp + 2) % 256 != sp && (sp + 2) % 256 != (sp - 1) % 256
  {
  }

  /** RTS goes back past the call whose return address the two top bytes hold. */
  lemma RtsGoesBack(s: Cpu, sp: int, ret: int)
    requires s.Valid() && IsByte(sp) && s.sp == (sp - 2) % 256 && 0 <= ret < MEM_SIZE
    requires s.mem[0x100 + (sp - 1) % 256] == ret % 256 && s.mem[0x100 + sp] == ret / 256
    ensures Rts(s) == s.(pc := (ret + 1) % MEM_SIZE, sp := sp)
  {
    StackWrap(sp);
    var (lo, s1) := Pop(s);
    assert s1.sp == (sp - 1) % 256 && lo == ret % 256;
    var (hi, s2) := Pop(s1);
    assert s2.sp == sp && hi == ret / 256;
  }

  lemma RtsPops(s: Cpu)
    requires s.Valid()
    ensures Rts(s) == s.(pc := (s.mem[0x100 + (s.sp + 1) % 256] + 256 * s.mem[0x100 + (s.sp + 2) % 256] + 1) % MEM_SIZE,
                         sp := (s.sp + 2) % 256)
  {
    StackWrap(s.sp);
  }

  /** A fetched instruction is the one its opcode decodes to. */
  lemma FetchDecode(dev: Device, s: Cpu, opcode: int, e: Entry)
    requires At(dev, s, opcode) && Decode(opcode) == Some(e)
    ensures Past(s, 1, e.cycles).Valid()
    ensures StepOf(dev)(s) == Exec(dev, Past(s, 1, e.cycles), e.op, e.mode)
    ensures Skip(Past(s, 1, e.cycles), 1) == Past(s, 2, e.cycles)
    ensures Skip(Past(s, 1, e.cycles), 2) == Past(s, 3, e.cycles)
  {
    hide StepOf, Decode, Exec;
    assert Fetched(s, e) == Past(s, 1, e.cycles);
    assert Step(dev, s) == Exec(dev, Fetched(s, e), e.op, e.mode);
  }

  lemma AbsoluteOperand(dev: Device, s: Cpu, w: int, cost: int)
    requires s.Valid() && s.pc + 3 < MEM_SIZE && Operand2(s, w) && 0 <= w < MEM_SIZE
    ensures Past(s, 1, cost).Valid() && Past(s, 3, cost).Valid()
    ensures Addr(dev, Past(s, 1, cost), ABS, false) == Ok((w, Past(s, 3, cost)))
  {
  }

  /** An immediate load consumes the byte at pc. */
  lemma LoadImmediate(dev: Device, s: Cpu, op: Mnemonic, v: int)
    requires op in {LDA, LDX} && s.Valid() && s.pc + 2 < MEM_SIZE && s.mem[s.pc] == v && !dev.Covers(s.pc)
    ensures Exec(dev, s, op, IMM) == Ok(Consume(Skip(s, 1), op, v))
  {
    hide Consume, Skip, ExecModify, ExecStore, Branch, Transfer, ExecFlow, ExecFlag;
    assert Addr(dev, s, IMM, true) == Ok((s.pc, Skip(s, 1)));
    hide Addr;
    assert Rd(dev, Skip(s, 1), s.pc) == Ok((v, Skip(s, 1))) by { SkipKeeps(s, 1); }
  }

  lemma SkipKeeps(s: Cpu, n: int)
    requires s.Valid()
    ensures Skip(s, n).mem == s.mem && Skip(s, n).io == s.io
  {
  }

  lemma Loaded(s: Cpu, v: int)
    requires s.Valid() && IsByte(v)
    ensures Consume(s, LDA, v) == ZN(s.(a := v), v)
    ensures Consume(s, LDX, v) == ZN(s.(x := v), v)
  {
    hide ZN, AddWithCarry, Compare, Bitwise;
  }

  lemma LdaImm(dev: Device, s: Cpu, v: int)
    requires At(dev, s, 0xA9) && Operand1(dev, s, v)
    ensures StepOf(dev)(s) == Ok(ZN(Past(s, 2, 2).(a := v), v))
  {
    hide StepOf, Step, Exec, Consume, ZN, Skip;
    FetchDecode(dev, s, 0xA9, Entry(LDA, IMM, 2));
    LoadImmediate(dev, Past(s, 1, 2), LDA, v);
    Loaded(Past(s, 2, 2), v);
    hide Decode;
  }

  lemma LdxImm(dev: Device, s: Cpu, v: int)
    requires At(dev, s, 0xA2) && Operand1(dev, s, v)
    ensures StepOf(dev)(s) == Ok(ZN(Past(s, 2, 2).(x := v), v))
  {
    hide StepOf, Step, Exec, Consume, ZN, Skip;
    FetchDecode(dev, s, 0xA2, Entry(LDX, IMM, 2));
    LoadImmediate(dev, Past(s, 1, 2), LDX, v);
    Loaded(Past(s, 2, 2), v);
    hide Decode;
  }

  /** STA once its address is known. */
  lemma StoreOperation(dev: Device, s: Cpu, mode: Mode, w: int, s1: Cpu)
    requires s.Valid() && s1.Valid() && 0 <= w < MEM_SIZE && !dev.Covers(w)
    requires Addr(dev, s, mode, false) == Ok((w, s1))
    ensures Exec(dev, s, STA, mode) == Ok(s1.(mem := s1.mem[w := s1.a]))
  {
    hide Addr, ExecRead, ExecModify, Branch, Transfer, ExecFlow, ExecFlag;
  }

  lemma IndexedOperand(dev: Device, s: Cpu, w: int, cost: int)
    requires s.Valid() && s.pc + 3 < MEM_SIZE && Operand2(s, w) && 0 <= w && w + 256 <= MEM_SIZE
    ensures Past(s, 1, cost).Valid() && Past(s, 3, cost).Valid() && IsByte(s.x)
    ensures Addr(dev, Past(s, 1, cost), ABX, false) == Ok((w + s.x, Past(s, 3, cost)))
  {
  }

  lemma StaAbs(dev: Device, s: Cpu, w: int)
    requires 0 <= w < MEM_SIZE && !dev.Covers(w)
    requires At(dev, s, 0x8D) && Operand2(s, w)
    ensures StepOf(dev)(s) == Ok(Past(s, 3, 4).(mem := s.mem[w := s.a]))
  {
    hide StepOf, Step, Exec;
    FetchDecode(dev, s, 0x8D, Entry(STA, ABS, 4));
    AbsoluteOperand(dev, s, w, 4);
    hide Decode, Skip, Addr, Word;
    StoreOperation(dev, Past(s, 1, 4), ABS, w, Past(s, 3, 4));
  }

  lemma StaAbx(dev: Device, s: Cpu, w: int)
    requires 0 <= w && w + 256 <= MEM_SIZE && !dev.Covers(w + s.x)
    requires At(dev, s, 0x9D) && Operand2(s, w)
    ensures StepOf(dev)(s) == Ok(Past(s, 3, 5).(mem := s.mem[w + s.x := s.a]))
  {
    hide StepOf, Step, Exec;
    FetchDecode(dev, s, 0x9D, Entry(STA, ABX, 5));
    IndexedOperand(dev, s, w, 5);
    hide Decode, Skip, Addr, Word;
    StoreOperation(dev, Past(s, 1, 5), ABX, w + s.x, Past(s, 3, 5));
  }

  lemma DecOperation(dev: Device, s1: Cpu, s2: Cpu, w: int)
    requires s1.Valid() && s2.Valid() && 0 <= w < MEM_SIZE && !dev.Covers(w)
    requires Addr(dev, s1, ABS, false) == Ok((w, s2))
    ensures var v := (s2.mem[w] - 1) % 256;
      ExecModify(dev, s1, DEC, ABS) == Ok(ZN(s2, v).(mem := s2.mem[w := v]))
  {
    hide Addr, ZN;
    assert s2.(c := s2.c) == s2;
    ZNKeepsMemory(s2, (s2.mem[w] - 1) % 256);
  }

  lemma ZNKeepsMemory(s: Cpu, v: int)
    requires s.Valid() && IsByte(v)
    ensures ZN(s, v).mem == s.mem
  {
  }

  lemma DecAbs(dev: Device, s: Cpu, w: int)
    requires 0 <= w < MEM_SIZE && !dev.Covers(w)
    requires At(dev, s, 0xCE) && Operand2(s, w)
    ensures var v := (s.mem[w] - 1) % 256;
      StepOf(dev)(s) == Ok(ZN(Past(s, 3, 6), v).(mem := s.mem[w := v]))
  {
    hide StepOf, Step, ExecRead, ExecModify, ExecStore, Branch, Transfer, ExecFlow, ExecFlag, ZN;
    FetchDecode(dev, s, 0xCE, Entry(DEC, ABS, 6));
    hide Decode, Skip;
    AbsoluteOperand(dev, s, w, 6);
    hide Addr, Word;
    DecOperation(dev, Past(s, 1, 6), Past(s, 3, 6), w);
  }

  /** BNE: taken exactly when Z is clear, to the instruction after plus a signed byte. */
  lemma Bne(dev: Device, s: Cpu, off: int)
    requires 0x80 <= off < 0x100 && s.pc + 2 + off - 0x100 >= 0
    requires At(dev, s, 0xD0) && Operand1(dev, s, off)
    ensures StepOf(dev)(s).Ok?
    ensures var t := StepOf(dev)(s).value;
      t == s.(pc := t.pc, cycles := t.cycles, instructions := s.instructions + 1)
      && t.cycles > s.cycles
      && t.pc == if s.z == 0 then s.pc + 2 + off - 0x100 else s.pc + 2
  {
    hide StepOf, Step, ExecRead, ExecModify, ExecStore, Transfer, ExecFlow, ExecFlag;
    FetchDecode(dev, s, 0xD0, Entry(BNE, REL, 2));
    assert StepOf(dev)(s).Ok?;
    var t := StepOf(dev)(s).value;
    assert t == s.(pc := t.pc, cycles := t.cycles, instructions := s.instructions + 1);
  }

  lemma JsrAbs(dev: Device, s: Cpu, target: int)
    requires 0 <= target < MEM_SIZE
    requires At(dev, s, 0x20) && Operand2(s, target)
    ensures StepOf(dev)(s) == Ok(Enter(Past(s, 3, 6), target))
  {
    hide StepOf, Step, ExecRead, ExecModify, ExecStore, Branch, Transfer, ExecFlag, Push, Pop, Plp, Rti, ZN;
    FetchDecode(dev, s, 0x20, Entry(JSR, ABS, 6));
    hide Decode, Skip;
    AbsoluteOperand(dev, s, target, 6);
    hide Addr, Word;
  }

  lemma RtsImp(dev: Device, s: Cpu)
    requires At(dev, s, 0x60)
    ensures StepOf(dev)(s) == Ok(Rts(Past(s, 1, 6)))
  {
    hide StepOf, Step, ExecRead, ExecModify, ExecStore, Branch, Transfer, ExecFlag, Push, Pop, Plp, Rti, ZN;
    FetchDecode(dev, s, 0x60, Entry(RTS, IMP, 6));
    hide Decode, Skip;
  }

  lemma PhaImp(dev: Device, s: Cpu)
    requires At(dev, s, 0x48)
    ensures StepOf(dev)(s) == Ok(Pha(Past(s, 1, 3)))
  {
    hide StepOf, Step, ExecRead, ExecModify, ExecStore, Branch, Transfer, ExecFlag, Push, Pop, Plp, Rti, ZN;
    FetchDecode(dev, s, 0x48, Entry(PHA, IMP, 3));
    hide Decode, Skip;
  }

  lemma PlaImp(dev: Device, s: Cpu)
    requires At(dev, s, 0x68)
    ensures StepOf(dev)(s) == Ok(Pla(Past(s, 1, 4)))
  {
    hide StepOf, Step, ExecRead, ExecModify, ExecStore, Branch, Transfer, ExecFlag, Push, Pop, Plp, Rti, ZN;
    FetchDecode(dev, s, 0x68, Entry(PLA, IMP, 4));
    hide Decode, Skip;
  }

  lemma PhpImp(dev: Device, s: Cpu)
    requires At(dev, s, 0x08)
    ensures StepOf(dev)(s) == Ok(Php(Past(s, 1, 3)))
  {
    hide StepOf, Step, ExecRead, ExecModify, ExecStore, Branch, Transfer, ExecFlag, Push, Pop, Plp, Rti, ZN, Status;
    FetchDecode(dev, s, 0x08, Entry(PHP, IMP, 3));
    hide Decode, Skip;
  }

  lemma PlpImp(dev: Device, s: Cpu)
    requires At(dev, s, 0x28)
    ensures StepOf(dev)(s) == Ok(Plp(Past(s, 1, 4)))
  {
    hide StepOf, Step, ExecRead, ExecModify, ExecStore, Branch, Transfer, ExecFlag, Push, Pop, Rti, ZN, WithStatus;
    FetchDecode(dev, s, 0x28, Entry(PLP, IMP, 4));
    hide Decode, Skip;
  }

  lemma TxaImp(dev: Device, s: Cpu)
    requires At(dev, s, 0x8A)
    ensures StepOf(dev)(s) == Ok(ZN(Past(s, 1, 2).(a := s.x), s.x))
  {
    hide StepOf, Step, ExecRead, ExecModify, ExecStore, Branch, ExecFlow, ExecFlag;
    FetchDecode(dev, s, 0x8A, Entry(TXA, IMP, 2));
    hide Decode, Skip;
  }

  lemma InxImp(dev: Device, s: Cpu)
    requires At(dev, s, 0xE8)
    ensures var v := (s.x + 1) % 256; StepOf(dev)(s) == Ok(ZN(Past(s, 1, 2).(x := v), v))
  {
    hide StepOf, Step, ExecRead, ExecModify, ExecStore, Branch, ExecFlow, ExecFlag, ZN;
    var v := (s.x + 1) % 256;
    FetchDecode(dev, s, 0xE8, Entry(INX, IMP, 2));
    hide Decode, Skip;
  }

  /** ROL A after LDA #0 moves the carry into the accumulator. */
  lemma RolAcc(dev: Device, s: Cpu)
    requires At(dev, s, 0x2A) && s.a == 0
    ensures StepOf(dev)(s) == Ok(ZN(Past(s, 1, 2).(a := s.c, c := 0), s.c))
  {
    hide StepOf, Step, ExecRead, ExecStore, Branch, Transfer, ExecFlow, ExecFlag;
    FetchDecode(dev, s, 0x2A, Entry(ROL, ACC, 2));
    hide Decode, Skip;
  }

  lemma ClcImp(dev: Device, s: Cpu)
    requires At(dev, s, 0x18)
    ensures StepOf(dev)(s) == Ok(Past(s, 1, 2).(c := 0))
  {
    hide StepOf, Step, ExecRead, ExecModify, ExecStore, Branch, Transfer, ExecFlow;
    FetchDecode(dev, s, 0x18, Entry(CLC, IMP, 2));
    hide Decode, Skip;
  }

  lemma SecImp(dev: Device, s: Cpu)
    requires At(dev, s, 0x38)
    ensures StepOf(dev)(s) == Ok(Past(s, 1, 2).(c := 1))
  {
    hide StepOf, Step, ExecRead, ExecModify, ExecStore, Branch, Transfer, ExecFlow;
    FetchDecode(dev, s, 0x38, Entry(SEC, IMP, 2));
    hide Decode, Skip;
  }
}
