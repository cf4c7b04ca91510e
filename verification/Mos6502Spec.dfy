/** The documented-opcode 6502 as a transition function on machine states. */
module Mos6502Spec {
  import opened Bits
  import opened Results

  const MEM_SIZE: int := 0x10000
  const RETURN_SENTINEL: int := 0xFFF0

  // ---- devices ------------------------------------------------------------

  /** The machine as a device finds it when it is accessed: the registers and flags, the
      cycle count, the memory. */
  datatype View = View(
    a: int, x: int, y: int, sp: int, pc: int,
    c: int, z: int, v: int, n: int, i: int, d: int,
    cycles: int, instructions: int, mem: seq<int>)

  datatype IoEvent = IoRead(view: View, addr: int, value: int) | IoWrite(view: View, addr: int, value: int)

  /** An arbitrary device behind the window [lo, hi): what a read returns, and
      whether an access raises, may depend on the machine at this access and on every
      access before it, with the machine as it was then. */
  datatype Device = Device(
    lo: int, hi: int,
    onRead: (seq<IoEvent>, View, int) -> Option<int>,
    onWrite: (seq<IoEvent>, View, int, int) -> bool)
  {
    predicate Covers(addr: int) {
      lo <= addr < hi
    }
  }

  // ---- machine state ------------------------------------------------------

  datatype Fault =
    | UnknownOpcode(opcode: int, at: int)
    | DecimalMode
    | DeviceRaised(addr: int)
    | OperandPastMemory
    | BadMode
    | CpuBudgetExceeded(pc: int)

  datatype Cpu = Cpu(
    a: int, x: int, y: int, sp: int, pc: int,
    c: int, z: int, v: int, n: int, i: int, d: int,
    cycles: int, instructions: int,
    mem: seq<int>, io: seq<IoEvent>)
  {
    /** Registers are bytes, pc has 16 bits, flags are 0 or 1, memory holds bytes. */
    predicate Valid() {
      && IsByte(a) && IsByte(x) && IsByte(y) && IsByte(sp) && 0 <= pc < MEM_SIZE
      && IsFlag(c) && IsFlag(z) && IsFlag(v) && IsFlag(n) && IsFlag(i) && IsFlag(d)
      && ValidMemory(mem)
    }

    function Seen(): View {
      View(a, x, y, sp, pc, c, z, v, n, i, d, cycles, instructions, mem)
    }
  }

  /** An instruction that raised, and the machine it left half done. */
  datatype Trap = Trap(fault: Fault, left: Cpu)

  /** What a raise keeps: the machine stays well formed, cycles do not run backwards and the
      device history is never rewritten. */
  predicate Abandoned(s: Cpu, t: Cpu) {
    t.Valid() && t.cycles >= s.cycles && s.io <= t.io
  }

  predicate IsByte(v: int) {
    0 <= v < 256
  }

  predicate IsFlag(v: int) {
    v == 0 || v == 1
  }

  predicate ValidMemory(mem: seq<int>) {
    |mem| == MEM_SIZE && forall k :: 0 <= k < MEM_SIZE ==> IsByte(mem[k])
  }

  /** s' was produced from s by adding to the device history only. */
  predicate OnlyIo(s: Cpu, s': Cpu) {
    s' == s.(io := s'.io) && s.io <= s'.io
  }

  // ---- bus ----------------------------------------------------------------

  function Rd(dev: Device, s: Cpu, addr: int): (r: Result<(int, Cpu), Trap>)
    requires s.Valid() && 0 <= addr < MEM_SIZE
    ensures r.Ok? ==> IsByte(r.value.0) && r.value.1.Valid() && OnlyIo(s, r.value.1)
    ensures r.Err? ==> Abandoned(s, r.error.left)
  {
    if dev.Covers(addr) then
      match dev.onRead(s.io, s.Seen(), addr)
      case None => Err(Trap(DeviceRaised(addr), s))
      case Some(v) => Ok((v % 256, s.(io := s.io + [IoRead(s.Seen(), addr, v % 256)])))
    else
      Ok((s.mem[addr], s))
  }

  function Wr(dev: Device, s: Cpu, addr: int, value: int): (r: Result<Cpu, Trap>)
    requires s.Valid() && 0 <= addr < MEM_SIZE && IsByte(value)
    ensures r.Ok? ==> r.value.Valid() && s.io <= r.value.io
    ensures r.Ok? ==> r.value == s.(mem := r.value.mem, io := r.value.io)
    ensures r.Err? ==> Abandoned(s, r.error.left)
  {
    if dev.Covers(addr) then
      if dev.onWrite(s.io, s.Seen(), addr, value) then Ok(s.(io := s.io + [IoWrite(s.Seen(), addr, value)]))
      else Err(Trap(DeviceRaised(addr), s))
    else
      Ok(s.(mem := s.mem[addr := value]))
  }

  // ---- stack --------------------------------------------------------------

  function Push(s: Cpu, v: int): (r: Cpu)
    requires s.Valid() && IsByte(v)
    ensures r.Valid()
  {
    s.(mem := s.mem[0x100 + s.sp := v], sp := (s.sp - 1) % 256)
  }

  function Pop(s: Cpu): (r: (int, Cpu))
    requires s.Valid()
    ensures IsByte(r.0) && r.1.Valid()
  {
    var sp := (s.sp + 1) % 256;
    (s.mem[0x100 + sp], s.(sp := sp))
  }

  /** The status byte; bit 5 always reads as set. */
  function Status(s: Cpu): (p: int)
    requires s.Valid()
    ensures IsByte(p)
  {
    0x80 * s.n + 0x40 * s.v + 0x20 + 0x08 * s.d + 0x04 * s.i + 0x02 * s.z + s.c
  }

  function WithStatus(s: Cpu, p: int): (r: Cpu)
    requires s.Valid() && IsByte(p)
    ensures r.Valid()
  {
    s.(n := p / 0x80 % 2, v := p / 0x40 % 2, d := p / 0x08 % 2, i := p / 0x04 % 2,
       z := p / 0x02 % 2, c := p % 2)
  }

  // ---- decoding -----------------------------------------------------------

  datatype Mode = IMP | ACC | IMM | ZP | ZPX | ZPY | ABS | ABX | ABY | IND | IZX | IZY | REL

  datatype Mnemonic =
    | ADC | AND | ASL | BCC | BCS | BEQ | BIT | BMI | BNE | BPL | BRK | BVC | BVS | CLC
    | CLD | CLI | CLV | CMP | CPX | CPY | DEC | DEX | DEY | EOR | INC | INX | INY | JMP
    | JSR | LDA | LDX | LDY | LSR | NOP | ORA | PHA | PHP | PLA | PLP | ROL | ROR | RTI
    | RTS | SBC | SEC | SED | SEI | STA | STX | STY | TAX | TAY | TSX | TXA | TXS | TYA

  datatype Entry = Entry(op: Mnemonic, mode: Mode, cycles: int)

  function Decode(opcode: int): (r: Option<Entry>)
    ensures r.Some? ==> 2 <= r.value.cycles <= 7
  {
    match opcode
    case 0x69 => Some(Entry(ADC, IMM, 2)) case 0x65 => Some(Entry(ADC, ZP, 3))
    case 0x75 => Some(Entry(ADC, ZPX, 4)) case 0x6D => Some(Entry(ADC, ABS, 4))
    case 0x7D => Some(Entry(ADC, ABX, 4)) case 0x79 => Some(Entry(ADC, ABY, 4))
    case 0x61 => Some(Entry(ADC, IZX, 6)) case 0x71 => Some(Entry(ADC, IZY, 5))
    case 0x29 => Some(Entry(AND, IMM, 2)) case 0x25 => Some(Entry(AND, ZP, 3))
    case 0x35 => Some(Entry(AND, ZPX, 4)) case 0x2D => Some(Entry(AND, ABS, 4))
    case 0x3D => Some(Entry(AND, ABX, 4)) case 0x39 => Some(Entry(AND, ABY, 4))
    case 0x21 => Some(Entry(AND, IZX, 6)) case 0x31 => Some(Entry(AND, IZY, 5))
    case 0x0A => Some(Entry(ASL, ACC, 2)) case 0x06 => Some(Entry(ASL, ZP, 5))
    case 0x16 => Some(Entry(ASL, ZPX, 6)) case 0x0E => Some(Entry(ASL, ABS, 6))
    case 0x1E => Some(Entry(ASL, ABX, 7)) case 0x90 => Some(Entry(BCC, REL, 2))
    case 0xB0 => Some(Entry(BCS, REL, 2)) case 0xF0 => Some(Entry(BEQ, REL, 2))
    case 0x30 => Some(Entry(BMI, REL, 2)) case 0xD0 => Some(Entry(BNE, REL, 2))
    case 0x10 => Some(Entry(BPL, REL, 2)) case 0x50 => Some(Entry(BVC, REL, 2))
    case 0x70 => Some(Entry(BVS, REL, 2)) case 0x24 => Some(Entry(BIT, ZP, 3))
    case 0x2C => Some(Entry(BIT, ABS, 4)) case 0x00 => Some(Entry(BRK, IMP, 7))
    case 0x18 => Some(Entry(CLC, IMP, 2)) case 0xD8 => Some(Entry(CLD, IMP, 2))
    case 0x58 => Some(Entry(CLI, IMP, 2)) case 0xB8 => Some(Entry(CLV, IMP, 2))
    case 0xC9 => Some(Entry(CMP, IMM, 2)) case 0xC5 => Some(Entry(CMP, ZP, 3))
    case 0xD5 => Some(Entry(CMP, ZPX, 4)) case 0xCD => Some(Entry(CMP, ABS, 4))
    case 0xDD => Some(Entry(CMP, ABX, 4)) case 0xD9 => Some(Entry(CMP, ABY, 4))
    case 0xC1 => Some(Entry(CMP, IZX, 6)) case 0xD1 => Some(Entry(CMP, IZY, 5))
    case 0xE0 => Some(Entry(CPX, IMM, 2)) case 0xE4 => Some(Entry(CPX, ZP, 3))
    case 0xEC => Some(Entry(CPX, ABS, 4)) case 0xC0 => Some(Entry(CPY, IMM, 2))
    case 0xC4 => Some(Entry(CPY, ZP, 3)) case 0xCC => Some(Entry(CPY, ABS, 4))
    case 0xC6 => Some(Entry(DEC, ZP, 5)) case 0xD6 => Some(Entry(DEC, ZPX, 6))
    case 0xCE => Some(Entry(DEC, ABS, 6)) case 0xDE => Some(Entry(DEC, ABX, 7))
    case 0xCA => Some(Entry(DEX, IMP, 2)) case 0x88 => Some(Entry(DEY, IMP, 2))
    case 0x49 => Some(Entry(EOR, IMM, 2)) case 0x45 => Some(Entry(EOR, ZP, 3))
    case 0x55 => Some(Entry(EOR, ZPX, 4)) case 0x4D => Some(Entry(EOR, ABS, 4))
    case 0x5D => Some(Entry(EOR, ABX, 4)) case 0x59 => Some(Entry(EOR, ABY, 4))
    case 0x41 => Some(Entry(EOR, IZX, 6)) case 0x51 => Some(Entry(EOR, IZY, 5))
    case 0xE6 => Some(Entry(INC, ZP, 5)) case 0xF6 => Some(Entry(INC, ZPX, 6))
    case 0xEE => Some(Entry(INC, ABS, 6)) case 0xFE => Some(Entry(INC, ABX, 7))
    case 0xE8 => Some(Entry(INX, IMP, 2)) case 0xC8 => Some(Entry(INY, IMP, 2))
    case 0x4C => Some(Entry(JMP, ABS, 3)) case 0x6C => Some(Entry(JMP, IND, 5))
    case 0x20 => Some(Entry(JSR, ABS, 6)) case 0xA9 => Some(Entry(LDA, IMM, 2))
    case 0xA5 => Some(Entry(LDA, ZP, 3)) case 0xB5 => Some(Entry(LDA, ZPX, 4))
    case 0xAD => Some(Entry(LDA, ABS, 4)) case 0xBD => Some(Entry(LDA, ABX, 4))
    case 0xB9 => Some(Entry(LDA, ABY, 4)) case 0xA1 => Some(Entry(LDA, IZX, 6))
    case 0xB1 => Some(Entry(LDA, IZY, 5)) case 0xA2 => Some(Entry(LDX, IMM, 2))
    case 0xA6 => Some(Entry(LDX, ZP, 3)) case 0xB6 => Some(Entry(LDX, ZPY, 4))
    case 0xAE => Some(Entry(LDX, ABS, 4)) case 0xBE => Some(Entry(LDX, ABY, 4))
    case 0xA0 => Some(Entry(LDY, IMM, 2)) case 0xA4 => Some(Entry(LDY, ZP, 3))
    case 0xB4 => Some(Entry(LDY, ZPX, 4)) case 0xAC => Some(Entry(LDY, ABS, 4))
    case 0xBC => Some(Entry(LDY, ABX, 4)) case 0x4A => Some(Entry(LSR, ACC, 2))
    case 0x46 => Some(Entry(LSR, ZP, 5)) case 0x56 => Some(Entry(LSR, ZPX, 6))
    case 0x4E => Some(Entry(LSR, ABS, 6)) case 0x5E => Some(Entry(LSR, ABX, 7))
    case 0xEA => Some(Entry(NOP, IMP, 2)) case 0x09 => Some(Entry(ORA, IMM, 2))
    case 0x05 => Some(Entry(ORA, ZP, 3)) case 0x15 => Some(Entry(ORA, ZPX, 4))
    case 0x0D => Some(Entry(ORA, ABS, 4)) case 0x1D => Some(Entry(ORA, ABX, 4))
    case 0x19 => Some(Entry(ORA, ABY, 4)) case 0x01 => Some(Entry(ORA, IZX, 6))
    case 0x11 => Some(Entry(ORA, IZY, 5)) case 0x48 => Some(Entry(PHA, IMP, 3))
    case 0x08 => Some(Entry(PHP, IMP, 3)) case 0x68 => Some(Entry(PLA, IMP, 4))
    case 0x28 => Some(Entry(PLP, IMP, 4)) case 0x2A => Some(Entry(ROL, ACC, 2))
    case 0x26 => Some(Entry(ROL, ZP, 5)) case 0x36 => Some(Entry(ROL, ZPX, 6))
    case 0x2E => Some(Entry(ROL, ABS, 6)) case 0x3E => Some(Entry(ROL, ABX, 7))
    case 0x6A => Some(Entry(ROR, ACC, 2)) case 0x66 => Some(Entry(ROR, ZP, 5))
    case 0x76 => Some(Entry(ROR, ZPX, 6)) case 0x6E => Some(Entry(ROR, ABS, 6))
    case 0x7E => Some(Entry(ROR, ABX, 7)) case 0x40 => Some(Entry(RTI, IMP, 6))
    case 0x60 => Some(Entry(RTS, IMP, 6)) case 0xE9 => Some(Entry(SBC, IMM, 2))
    case 0xE5 => Some(Entry(SBC, ZP, 3)) case 0xF5 => Some(Entry(SBC, ZPX, 4))
    case 0xED => Some(Entry(SBC, ABS, 4)) case 0xFD => Some(Entry(SBC, ABX, 4))
    case 0xF9 => Some(Entry(SBC, ABY, 4)) case 0xE1 => Some(Entry(SBC, IZX, 6))
    case 0xF1 => Some(Entry(SBC, IZY, 5)) case 0x38 => Some(Entry(SEC, IMP, 2))
    case 0xF8 => Some(Entry(SED, IMP, 2)) case 0x78 => Some(Entry(SEI, IMP, 2))
    case 0x85 => Some(Entry(STA, ZP, 3)) case 0x95 => Some(Entry(STA, ZPX, 4))
    case 0x8D => Some(Entry(STA, ABS, 4)) case 0x9D => Some(Entry(STA, ABX, 5))
    case 0x99 => Some(Entry(STA, ABY, 5)) case 0x81 => Some(Entry(STA, IZX, 6))
    case 0x91 => Some(Entry(STA, IZY, 6)) case 0x86 => Some(Entry(STX, ZP, 3))
    case 0x96 => Some(Entry(STX, ZPY, 4)) case 0x8E => Some(Entry(STX, ABS, 4))
    case 0x84 => Some(Entry(STY, ZP, 3)) case 0x94 => Some(Entry(STY, ZPX, 4))
    case 0x8C => Some(Entry(STY, ABS, 4)) case 0xAA => Some(Entry(TAX, IMP, 2))
    case 0xA8 => Some(Entry(TAY, IMP, 2)) case 0xBA => Some(Entry(TSX, IMP, 2))
    case 0x8A => Some(Entry(TXA, IMP, 2)) case 0x9A => Some(Entry(TXS, IMP, 2))
    case 0x98 => Some(Entry(TYA, IMP, 2))
    case _ => None
  }

  // ---- addressing ---------------------------------------------------------

  /** The 16-bit operand at pc; one that would straddle the end of memory raises, with pc
      already moved. */
  function Word(s: Cpu): (r: Result<int, Trap>)
    requires s.Valid()
    ensures r.Ok? ==> 0 <= r.value < MEM_SIZE
    ensures r.Err? ==> Abandoned(s, r.error.left)
  {
    if s.pc + 1 < MEM_SIZE then Ok(s.mem[s.pc] + 256 * s.mem[s.pc + 1])
    else Err(Trap(OperandPastMemory, Skip(s, 2)))
  }

  function Skip(s: Cpu, n: int): (r: Cpu)
    requires s.Valid()
    ensures r.Valid()
  {
    s.(pc := (s.pc + n) % MEM_SIZE)
  }

  /** base + offset, charging one more cycle when the sum leaves base's page. */
  function Indexed(s: Cpu, base: int, offset: int, penalise: bool): (r: (int, Cpu))
    requires s.Valid()
    ensures 0 <= r.0 < MEM_SIZE && r.1.Valid()
  {
    var eff := (base + offset) % MEM_SIZE;
    (eff, if penalise && base / 256 != eff / 256 then s.(cycles := s.cycles + 1) else s)
  }

  /** A little-endian pointer kept in the zero page, wrapping inside it. */
  function ZeroPagePointer(s: Cpu, zp: int): (r: int)
    requires s.Valid() && IsByte(zp)
    ensures 0 <= r < MEM_SIZE
  {
    s.mem[zp] + 256 * s.mem[(zp + 1) % 256]
  }

  /** The NMOS page-wrap: the pointer's high byte comes from the same page. */
  function Indirect(dev: Device, s: Cpu, ptr: int): (r: Result<(int, Cpu), Trap>)
    requires s.Valid() && 0 <= ptr < MEM_SIZE
    ensures r.Ok? ==> 0 <= r.value.0 < MEM_SIZE && r.value.1.Valid() && OnlyIo(s, r.value.1)
    ensures r.Err? ==> Abandoned(s, r.error.left)
  {
    var (lo, s1) :- Rd(dev, s, ptr);
    var (hi, s2) :- Rd(dev, s1, ptr - ptr % 256 + (ptr + 1) % 256);
    Ok((lo + 256 * hi, s2))
  }

  /** t differs from s in pc, the cycle count and the device history only. */
  predicate Addressed(s: Cpu, t: Cpu) {
    t == s.(pc := t.pc, cycles := t.cycles, io := t.io) && t.cycles >= s.cycles && s.io <= t.io
  }

  /** The modes whose operand is one byte. */
  predicate ByteMode(mode: Mode) {
    mode in {IMM, ZP, ZPX, ZPY, IZX, IZY}
  }

  function ByteAddr(s: Cpu, mode: Mode, penalise: bool): (r: (int, Cpu))
    requires s.Valid() && ByteMode(mode)
    ensures 0 <= r.0 < MEM_SIZE && r.1.Valid() && Addressed(s, r.1)
  {
    var operand := s.mem[s.pc];
    if mode == IMM then (s.pc, Skip(s, 1))
    else if mode == ZP then (operand, Skip(s, 1))
    else if mode == ZPX then ((operand + s.x) % 256, Skip(s, 1))
    else if mode == ZPY then ((operand + s.y) % 256, Skip(s, 1))
    else if mode == IZX then (ZeroPagePointer(s, (operand + s.x) % 256), Skip(s, 1))
    else Indexed(Skip(s, 1), ZeroPagePointer(s, operand), s.y, penalise)
  }

  function Addr(dev: Device, s: Cpu, mode: Mode, penalise: bool): (r: Result<(int, Cpu), Trap>)
    requires s.Valid()
    ensures r.Ok? ==> 0 <= r.value.0 < MEM_SIZE && r.value.1.Valid()
    ensures r.Ok? ==> Addressed(s, r.value.1)
    ensures r.Err? ==> Abandoned(s, r.error.left)
  {
    if ByteMode(mode) then Ok(ByteAddr(s, mode, penalise))
    else if mode == IMP || mode == ACC || mode == REL then Err(Trap(BadMode, s))
    else
      var w :- Word(s);
      if mode == ABS then Ok((w, Skip(s, 2)))
      else if mode == ABX then Ok(Indexed(Skip(s, 2), w, s.x, penalise))
      else if mode == ABY then Ok(Indexed(Skip(s, 2), w, s.y, penalise))
      else Indirect(dev, Skip(s, 2), w)
  }

  function Operand(dev: Device, s: Cpu, mode: Mode): (r: Result<(int, Cpu), Trap>)
    requires s.Valid()
    ensures r.Ok? ==> IsByte(r.value.0) && r.value.1.Valid()
    ensures r.Ok? ==> Addressed(s, r.value.1)
    ensures r.Err? ==> Abandoned(s, r.error.left)
  {
    var (addr, s1) :- Addr(dev, s, mode, true);
    Rd(dev, s1, addr)
  }

  // ---- operations ---------------------------------------------------------

  function ZN(s: Cpu, v: int): (r: Cpu)
    requires s.Valid() && IsByte(v)
    ensures r.Valid()
  {
    s.(z := if v == 0 then 1 else 0, n := if v >= 0x80 then 1 else 0)
  }

  /** Signed overflow, by the source's formula on bit 7: the operands agree in
      sign and the result does not. */
  function Overflow(a: int, m: int, r: int): int {
    if (a >= 0x80) == (m >= 0x80) && (a >= 0x80) != (r >= 0x80) then 1 else 0
  }

  function AddWithCarry(s: Cpu, m: int): (r: Cpu)
    requires s.Valid() && IsByte(m)
    ensures r.Valid()
  {
    var t := s.a + m + s.c;
    var sum := t % 256;
    ZN(s.(c := if t > 0xFF then 1 else 0, v := Overflow(s.a, m, sum), a := sum), sum)
  }

  function Compare(s: Cpu, reg: int, m: int): (r: Cpu)
    requires s.Valid() && IsByte(reg) && IsByte(m)
    ensures r.Valid()
  {
    ZN(s.(c := if reg >= m then 1 else 0), (reg - m) % 256)
  }

  function Bitwise(op: Mnemonic, a: int, m: int): (r: int)
    requires IsByte(a) && IsByte(m)
    ensures IsByte(r)
  {
    Pow2Values();
    Width(a, m, 8);
    if op == AND then And(a, m)
    else if op == ORA then Or(a, m)
    else Xor(a, m)
  }

  /** The operations that read one operand byte. */
  predicate IsRead(op: Mnemonic) {
    op in {ADC, SBC, AND, ORA, EOR, BIT, CMP, CPX, CPY, LDA, LDX, LDY}
  }

  function Consume(s: Cpu, op: Mnemonic, m: int): (r: Cpu)
    requires s.Valid() && IsByte(m)
    ensures r.Valid() && r.cycles == s.cycles && r.instructions == s.instructions && r.io == s.io
  {
    if op == ADC then AddWithCarry(s, m)
    else if op == SBC then AddWithCarry(s, 0xFF - m)
    else if op == AND || op == ORA || op == EOR then
      var r := Bitwise(op, s.a, m);
      ZN(s.(a := r), r)
    else if op == BIT then
      s.(z := if Bitwise(AND, s.a, m) == 0 then 1 else 0,
         n := m / 0x80 % 2, v := m / 0x40 % 2)
    else if op == CMP then Compare(s, s.a, m)
    else if op == CPX then Compare(s, s.x, m)
    else if op == CPY then Compare(s, s.y, m)
    else if op == LDX then ZN(s.(x := m), m)
    else if op == LDY then ZN(s.(y := m), m)
    else ZN(s.(a := m), m)
  }

  function ExecRead(dev: Device, s: Cpu, op: Mnemonic, mode: Mode): (r: Result<Cpu, Trap>)
    requires s.Valid()
    ensures r.Ok? ==> Progress(s, r.value)
    ensures r.Err? ==> Abandoned(s, r.error.left)
  {
    if op in {ADC, SBC} && s.d != 0 then Err(Trap(DecimalMode, s))
    else
      var (m, s1) :- Operand(dev, s, mode);
      Ok(Consume(s1, op, m))
  }

  /** The operations that replace a byte by a function of itself and the carry. */
  predicate IsModify(op: Mnemonic) {
    op in {ASL, LSR, ROL, ROR, INC, DEC}
  }

  /** (new byte, new carry) */
  function Modified(op: Mnemonic, m: int, c: int): (r: (int, int))
    requires IsByte(m) && IsFlag(c)
    ensures IsByte(r.0) && IsFlag(r.1)
  {
    if op == ASL then (2 * m % 256, m / 0x80)
    else if op == LSR then (m / 2, m % 2)
    else if op == ROL then ((2 * m + c) % 256, if 2 * m + c > 0xFF then 1 else 0)
    else if op == ROR then ((m + 256 * c) / 2, (m + 256 * c) % 2)
    else if op == INC then ((m + 1) % 256, c)
    else ((m - 1) % 256, c)
  }

  function ExecModify(dev: Device, s: Cpu, op: Mnemonic, mode: Mode): (r: Result<Cpu, Trap>)
    requires s.Valid()
    ensures r.Ok? ==> Progress(s, r.value)
    ensures r.Err? ==> Abandoned(s, r.error.left)
  {
    if mode == ACC && op !in {INC, DEC} then
      var (v, c) := Modified(op, s.a, s.c);
      Ok(ZN(s.(a := v, c := c), v))
    else
      var (addr, s1) :- Addr(dev, s, mode, false);
      var (m, s2) :- Rd(dev, s1, addr);
      var (v, c) := Modified(op, m, s2.c);
      Wr(dev, ZN(s2.(c := c), v), addr, v)
  }

  predicate IsStore(op: Mnemonic) {
    op in {STA, STX, STY}
  }

  function ExecStore(dev: Device, s: Cpu, op: Mnemonic, mode: Mode): (r: Result<Cpu, Trap>)
    requires s.Valid()
    ensures r.Ok? ==> Progress(s, r.value)
    ensures r.Err? ==> Abandoned(s, r.error.left)
  {
    var (addr, s1) :- Addr(dev, s, mode, false);
    Wr(dev, s1, addr, if op == STA then s1.a else if op == STX then s1.x else s1.y)
  }

  predicate IsBranch(op: Mnemonic) {
    op in {BCC, BCS, BEQ, BNE, BMI, BPL, BVS, BVC}
  }

  predicate Taken(s: Cpu, op: Mnemonic) {
    if op == BCC then s.c == 0
    else if op == BCS then s.c != 0
    else if op == BEQ then s.z != 0
    else if op == BNE then s.z == 0
    else if op == BMI then s.n != 0
    else if op == BPL then s.n == 0
    else if op == BVS then s.v != 0
    else s.v == 0
  }

  function Branch(s: Cpu, taken: bool): (r: Cpu)
    requires s.Valid()
    ensures Progress(s, r)
  {
    var off := s.mem[s.pc];
    var s1 := Skip(s, 1);
    if !taken then s1
    else
      var dst := (s1.pc + (if off >= 0x80 then off - 0x100 else off)) % MEM_SIZE;
      s1.(cycles := s1.cycles + (if dst / 256 != s1.pc / 256 then 2 else 1), pc := dst)
  }

  predicate IsTransfer(op: Mnemonic) {
    op in {INX, INY, DEX, DEY, TAX, TAY, TXA, TYA, TSX, TXS}
  }

  function Transfer(s: Cpu, op: Mnemonic): (r: Cpu)
    requires s.Valid()
    ensures Progress(s, r)
  {
    if op == INX then var v := (s.x + 1) % 256; ZN(s.(x := v), v)
    else if op == INY then var v := (s.y + 1) % 256; ZN(s.(y := v), v)
    else if op == DEX then var v := (s.x - 1) % 256; ZN(s.(x := v), v)
    else if op == DEY then var v := (s.y - 1) % 256; ZN(s.(y := v), v)
    else if op == TAX then ZN(s.(x := s.a), s.a)
    else if op == TAY then ZN(s.(y := s.a), s.a)
    else if op == TXA then ZN(s.(a := s.x), s.x)
    else if op == TYA then ZN(s.(a := s.y), s.y)
    else if op == TSX then ZN(s.(x := s.sp), s.sp)
    else s.(sp := s.x)
  }

  function Pha(s: Cpu): (r: Cpu)
    requires s.Valid()
    ensures Progress(s, r)
  {
    Push(s, s.a)
  }

  function Pla(s: Cpu): (r: Cpu)
    requires s.Valid()
    ensures Progress(s, r)
  {
    var (v, s1) := Pop(s);
    ZN(s1.(a := v), v)
  }

  /** Pushes the status with bit 4, which the status byte itself never has, set. */
  function Php(s: Cpu): (r: Cpu)
    requires s.Valid()
    ensures Progress(s, r)
  {
    Push(s, Status(s) + 0x10)
  }

  function Plp(s: Cpu): (r: Cpu)
    requires s.Valid()
    ensures Progress(s, r)
  {
    var (v, s1) := Pop(s);
    WithStatus(s1, v)
  }

  /** Pushes the address of the last byte of the call and goes to target. */
  function Enter(s: Cpu, target: int): (r: Cpu)
    requires s.Valid() && 0 <= target < MEM_SIZE
    ensures Progress(s, r)
  {
    var ret := (s.pc - 1) % MEM_SIZE;
    Push(Push(s, ret / 256), ret % 256).(pc := target)
  }

  function Rts(s: Cpu): (r: Cpu)
    requires s.Valid()
    ensures Progress(s, r)
  {
    var (lo, s1) := Pop(s);
    var (hi, s2) := Pop(s1);
    s2.(pc := (lo + 256 * hi + 1) % MEM_SIZE)
  }

  function Rti(s: Cpu): (r: Cpu)
    requires s.Valid()
    ensures Progress(s, r)
  {
    var s1 := Plp(s);
    var (lo, s2) := Pop(s1);
    var (hi, s3) := Pop(s2);
    s3.(pc := lo + 256 * hi)
  }

  predicate IsFlow(op: Mnemonic) {
    op in {JMP, JSR, RTS, RTI, PHA, PLA, PHP, PLP}
  }

  function ExecFlow(dev: Device, s: Cpu, op: Mnemonic, mode: Mode): (r: Result<Cpu, Trap>)
    requires s.Valid()
    ensures r.Ok? ==> Progress(s, r.value)
    ensures r.Err? ==> Abandoned(s, r.error.left)
  {
    if op == JMP then
      var (target, s1) :- Addr(dev, s, mode, false);
      Ok(s1.(pc := target))
    else if op == JSR then
      var (target, s1) :- Addr(dev, s, ABS, false);
      Ok(Enter(s1, target))
    else if op == RTS then Ok(Rts(s))
    else if op == RTI then Ok(Rti(s))
    else if op == PHA then Ok(Pha(s))
    else if op == PLA then Ok(Pla(s))
    else if op == PHP then Ok(Php(s))
    else Ok(Plp(s))
  }

  function ExecFlag(s: Cpu, op: Mnemonic): (r: Result<Cpu, Trap>)
    requires s.Valid()
    ensures r.Ok? ==> Progress(s, r.value)
    ensures r.Err? ==> Abandoned(s, r.error.left)
  {
    if op == CLC then Ok(s.(c := 0))
    else if op == SEC then Ok(s.(c := 1))
    else if op == CLI then Ok(s.(i := 0))
    else if op == SEI then Ok(s.(i := 1))
    else if op == CLV then Ok(s.(v := 0))
    else if op == CLD then Ok(s.(d := 0))
    else if op == NOP then Ok(s)
    else if op == SED then Err(Trap(DecimalMode, s))
    else Err(Trap(UnknownOpcode(0x00, (s.pc - 1) % MEM_SIZE), s))
  }

  // ---- one instruction ----------------------------------------------------

  /** What every operation keeps: the machine stays well formed, cycles do not
      run backwards and the device history is never rewritten. */
  predicate Progress(s: Cpu, t: Cpu) {
    t.Valid() && t.cycles >= s.cycles && t.instructions == s.instructions && s.io <= t.io
  }

  function Exec(dev: Device, s: Cpu, op: Mnemonic, mode: Mode): (r: Result<Cpu, Trap>)
    requires s.Valid()
    ensures r.Ok? ==> Progress(s, r.value)
    ensures r.Err? ==> Abandoned(s, r.error.left)
  {
    if IsRead(op) then ExecRead(dev, s, op, mode)
    else if IsModify(op) then ExecModify(dev, s, op, mode)
    else if IsStore(op) then ExecStore(dev, s, op, mode)
    else if IsBranch(op) then Ok(Branch(s, Taken(s, op)))
    else if IsTransfer(op) then Ok(Transfer(s, op))
    else if IsFlow(op) then ExecFlow(dev, s, op, mode)
    else ExecFlag(s, op)
  }

  /** s after the opcode byte of an instruction at s.pc has been fetched. */
  function Fetched(s: Cpu, e: Entry): (r: Cpu)
    requires s.Valid()
    ensures r.Valid()
  {
    s.(pc := (s.pc + 1) % MEM_SIZE, cycles := s.cycles + e.cycles, instructions := s.instructions + 1)
  }

  /** A completed step keeps the machine well formed, costs at least two cycles,
      counts as one instruction and only adds to the device history. */
  function Step(dev: Device, s: Cpu): (r: Result<Cpu, Trap>)
    requires s.Valid()
    ensures r.Ok? ==> var t := r.value;
      t.Valid() && t.cycles >= s.cycles + 2 && t.instructions == s.instructions + 1 && s.io <= t.io
    ensures r.Err? ==> Abandoned(s, r.error.left)
  {
    var (opcode, s1) :- Rd(dev, s, s.pc);
    match Decode(opcode)
    case None => Err(Trap(UnknownOpcode(opcode, s.pc), s1))
    case Some(e) => Exec(dev, Fetched(s1, e), e.op, e.mode)
  }
}
