/** Balanced use of the 256-byte stack: runs of the interpreter whose pushes and pulls
    nest give back the stack, the registers pushed and the return addresses. */
module Mos6502Stack {
  import opened Results
  import opened Mos6502Spec
  import opened Mos6502Runs
  import opened Mos6502Steps

  /** The j-th stack byte in use above sp, wrapping inside the page. */
  function Slot(sp: int, j: int): (a: int)
    requires IsByte(sp) && 0 <= j < 256
    ensures 0x100 <= a < 0x200
  {
    0x100 + (sp + 1 + j) % 256
  }

  /** The first n stack bytes above sp are the same in both memories. */
  predicate SameStack(m: seq<int>, m': seq<int>, sp: int, n: int)
    requires |m| == MEM_SIZE && |m'| == MEM_SIZE && IsByte(sp) && n <= 256
  {
    forall j :: 0 <= j < n ==> m'[Slot(sp, j)] == m[Slot(sp, j)]
  }

  lemma SlotBelow(sp: int, j: int)
    requires IsByte(sp) && 0 <= j < 255
    ensures Slot((sp - 1) % 256, j + 1) == Slot(sp, j)
    ensures Slot(sp, j) != 0x100 + sp && Slot((sp - 1) % 256, 0) == 0x100 + sp
  {
  }

  /** A byte pushed at sp is still there after code that keeps n + 1 stack bytes, and
      popping it keeps the n below. */
  lemma PushedByteSurvives(m: seq<int>, m': seq<int>, sp: int, v: int, n: int)
    requires |m| == MEM_SIZE && |m'| == MEM_SIZE && IsByte(sp) && 0 <= n < 256
    requires SameStack(m[0x100 + sp := v], m', (sp - 1) % 256, n + 1)
    ensures m'[0x100 + sp] == v && SameStack(m, m', sp, n)
  {
    assert Slot((sp - 1) % 256, 0) == 0x100 + sp;
    forall j | 0 <= j < n
      ensures m'[Slot(sp, j)] == m[Slot(sp, j)]
    {
      SlotBelow(sp, j);
      assert m'[Slot((sp - 1) % 256, j + 1)] == m[0x100 + sp := v][Slot((sp - 1) % 256, j + 1)];
    }
  }

  /** sp and the stack bytes in use, all but `depth` of the 256, are the same in both machines. */
  predicate Held(s: Cpu, t: Cpu, depth: nat)
    requires depth <= 256
  {
    s.Valid() && t.Valid() && t.sp == s.sp && SameStack(s.mem, t.mem, s.sp, 256 - depth)
  }

  lemma HeldOn(s: Cpu, u: Cpu, t: Cpu, d: nat, e: nat)
    requires d <= 256 && e <= 256 && Held(s, u, d) && Held(u, t, e)
    ensures Held(s, t, if d > e then d else e)
  {
    hide Slot;
  }

  // ---- what is pushed and pulled ------------------------------------------

  /** The instructions that push and the ones that pull it back: PHA and PLA, PHP and PLP,
      JSR and RTS. */
  datatype Pair = Accumulator | Flags | Call(target: int) {
    function Push(): int {
      match this case Accumulator => 0x48 case Flags => 0x08 case Call(_) => 0x20
    }

    function Pull(): int {
      match this case Accumulator => 0x68 case Flags => 0x28 case Call(_) => 0x60
    }

    function Bytes(): nat {
      if Call? then 2 else 1
    }
  }

  /** The pushing instruction stands at s.pc. */
  predicate Pushes(dev: Device, s: Cpu, k: Pair) {
    At(dev, s, k.Push()) && (k.Call? ==> 0 <= k.target < MEM_SIZE && Operand2(s, k.target))
  }

  /** What the pair is for: A, every flag, or the way back to the instruction after the call. */
  predicate Restored(s: Cpu, t: Cpu, k: Pair) {
    match k
    case Accumulator => t.a == s.a
    case Flags => FlagsOf(t) == FlagsOf(s)
    case Call(_) => t.pc == s.pc + 3
  }

  function FlagsOf(s: Cpu): (int, int, int, int, int, int) {
    (s.c, s.z, s.v, s.n, s.i, s.d)
  }

  function Pushed(s: Cpu, k: Pair): (r: Cpu)
    requires s.Valid() && s.pc + 3 < MEM_SIZE && (k.Call? ==> 0 <= k.target < MEM_SIZE)
    ensures r.Valid()
  {
    match k
    case Accumulator => Pha(Past(s, 1, 3))
    case Flags => Php(Past(s, 1, 3))
    case Call(target) => Enter(Past(s, 3, 6), target)
  }

  function Pulled(s: Cpu, k: Pair): (r: Cpu)
    requires s.Valid() && s.pc + 3 < MEM_SIZE
    ensures r.Valid()
  {
    match k
    case Accumulator => Pla(Past(s, 1, 4))
    case Flags => Plp(Past(s, 1, 4))
    case Call(_) => Rts(Past(s, 1, 6))
  }

  lemma PushStep(dev: Device, s: Cpu, k: Pair)
    requires Pushes(dev, s, k)
    ensures StepOf(dev)(s) == Ok(Pushed(s, k))
  {
    hide StepOf, Pha, Php, Enter;
    match k
    case Accumulator => PhaImp(dev, s);
    case Flags => PhpImp(dev, s);
    case Call(target) => JsrAbs(dev, s, target);
  }

  lemma PullStep(dev: Device, s: Cpu, k: Pair)
    requires At(dev, s, k.Pull())
    ensures StepOf(dev)(s) == Ok(Pulled(s, k))
  {
    hide StepOf, Pla, Plp, Rts;
    match k
    case Accumulator => PlaImp(dev, s);
    case Flags => PlpImp(dev, s);
    case Call(_) => RtsImp(dev, s);
  }

  lemma PhaPushes(s: Cpu)
    requires s.Valid() && s.pc + 3 < MEM_SIZE
    ensures var t := Pha(Past(s, 1, 3));
      t.Valid() && t.sp == (s.sp - 1) % 256 && t.mem == s.mem[0x100 + s.sp := s.a]
  {
  }

  lemma PlaPulls(s: Cpu)
    requires s.Valid() && s.pc + 3 < MEM_SIZE
    ensures var t := Pla(Past(s, 1, 4));
      t.Valid() && t.sp == (s.sp + 1) % 256 && t.mem == s.mem && t.a == s.mem[0x100 + (s.sp + 1) % 256]
  {
  }

  lemma PhpPushes(s: Cpu)
    requires s.Valid() && s.pc + 3 < MEM_SIZE
    ensures var t := Php(Past(s, 1, 3));
      t.Valid() && t.sp == (s.sp - 1) % 256 && t.mem == s.mem[0x100 + s.sp := Status(s) + 0x10]
  {
  }

  lemma PlpPulls(s: Cpu)
    requires s.Valid() && s.pc + 3 < MEM_SIZE
    ensures var t, p := Plp(Past(s, 1, 4)), s.mem[0x100 + (s.sp + 1) % 256];
      t.Valid() && t.sp == (s.sp + 1) % 256 && t.mem == s.mem
      && FlagsOf(t) == FlagsOf(WithStatus(s, p))
  {
  }

  /** The pushed status byte carries every flag, whatever the flags are by then. */
  lemma StatusRoundTrip(s: Cpu, u: Cpu)
    requires s.Valid() && u.Valid()
    ensures FlagsOf(WithStatus(u, Status(s) + 0x10)) == FlagsOf(s)
  {
    var p := Status(s) + 0x10;
    assert p % 2 == s.c && p / 0x02 == 0x40 * s.n + 0x20 * s.v + 0x18 + 0x04 * s.d + 0x02 * s.i + s.z;
    assert p / 0x04 == 0x20 * s.n + 0x10 * s.v + 0x0C + 0x02 * s.d + s.i;
    assert p / 0x08 == 0x10 * s.n + 0x08 * s.v + 0x06 + s.d;
    assert p / 0x40 == 0x02 * s.n + s.v && p / 0x80 == s.n;
  }

  /** The return address pushed by a JSR is still there after code that keeps n + 2
      stack bytes. */
  lemma ReturnAddressSurvives(m: seq<int>, m': seq<int>, sp: int, hi: int, lo: int, n: int)
    requires |m| == MEM_SIZE && |m'| == MEM_SIZE && IsByte(sp) && 0 <= n <= 254
    requires var sp1 := (sp - 1) % 256;
      SameStack(m[0x100 + sp := hi][0x100 + sp1 := lo], m', (sp1 - 1) % 256, n + 2)
    ensures m'[0x100 + (sp - 1) % 256] == lo && m'[0x100 + sp] == hi && SameStack(m, m', sp, n)
  {
    PushedByteSurvives(m[0x100 + sp := hi], m', (sp - 1) % 256, lo, n + 1);
    PushedByteSurvives(m, m', sp, hi, n);
  }

  lemma HeldAcrossPha(s: Cpu, u: Cpu, depth: nat)
    requires s.Valid() && s.pc + 3 < MEM_SIZE && u.Valid() && u.pc + 3 < MEM_SIZE && depth <= 255
    requires Held(Pha(Past(s, 1, 3)), u, depth)
    ensures Held(s, Pla(Past(u, 1, 4)), depth + 1) && Pla(Past(u, 1, 4)).a == s.a
  {
    hide SameStack, Slot, Pha, Pla;
    PhaPushes(s);
    PlaPulls(u);
    StackWrap(s.sp);
    PushedByteSurvives(s.mem, u.mem, s.sp, s.a, 255 - depth);
  }

  lemma HeldAcrossPhp(s: Cpu, u: Cpu, depth: nat)
    requires s.Valid() && s.pc + 3 < MEM_SIZE && u.Valid() && u.pc + 3 < MEM_SIZE && depth <= 255
    requires Held(Php(Past(s, 1, 3)), u, depth)
    ensures Held(s, Plp(Past(u, 1, 4)), depth + 1) && FlagsOf(Plp(Past(u, 1, 4))) == FlagsOf(s)
  {
    hide SameStack, Slot, Php, Plp, Status, WithStatus, FlagsOf;
    PhpPushes(s);
    PlpPulls(u);
    StackWrap(s.sp);
    PushedByteSurvives(s.mem, u.mem, s.sp, Status(s) + 0x10, 255 - depth);
    StatusRoundTrip(s, u);
  }

  /** After the body of a call the return address it pushed is on top of the stack again. */
  lemma HeldFrame(s: Cpu, u: Cpu, target: int, depth: nat)
    requires s.Valid() && s.pc + 3 < MEM_SIZE && u.Valid() && depth <= 254
    requires 0 <= target < MEM_SIZE && Held(Enter(Past(s, 3, 6), target), u, depth)
    ensures var sp, ret := s.sp, s.pc + 2;
      && u.sp == (sp - 2) % 256 && u.mem[0x100 + (sp - 1) % 256] == ret % 256 && u.mem[0x100 + sp] == ret / 256
      && SameStack(s.mem, u.mem, sp, 254 - depth)
  {
    hide SameStack, Slot, Enter;
    EnterPushes(Past(s, 3, 6), target);
    ReturnAddressSurvives(s.mem, u.mem, s.sp, (s.pc + 2) / 256, (s.pc + 2) % 256, 254 - depth);
  }

  lemma HeldAcrossJsr(s: Cpu, u: Cpu, target: int, depth: nat)
    requires s.Valid() && s.pc + 3 < MEM_SIZE && u.Valid() && u.pc + 3 < MEM_SIZE && depth <= 254
    requires 0 <= target < MEM_SIZE && Held(Enter(Past(s, 3, 6), target), u, depth)
    ensures Held(s, Rts(Past(u, 1, 6)), depth + 2) && Rts(Past(u, 1, 6)).pc == s.pc + 3
  {
    HeldFrame(s, u, target, depth);
    hide SameStack, Enter, Rts;
    RtsGoesBack(Past(u, 1, 6), s.sp, s.pc + 2);
  }

  lemma HeldAcross(s: Cpu, u: Cpu, k: Pair, depth: nat)
    requires s.Valid() && s.pc + 3 < MEM_SIZE && u.Valid() && u.pc + 3 < MEM_SIZE
    requires depth + k.Bytes() <= 256 && (k.Call? ==> 0 <= k.target < MEM_SIZE)
    requires Held(Pushed(s, k), u, depth)
    ensures Held(s, Pulled(u, k), depth + k.Bytes()) && Restored(s, Pulled(u, k), k)
  {
    hide Held, Pha, Pla, Php, Plp, Enter, Rts, FlagsOf;
    match k
    case Accumulator => HeldAcrossPha(s, u, depth);
    case Flags => HeldAcrossPhp(s, u, depth);
    case Call(target) => HeldAcrossJsr(s, u, target, depth);
  }

  // ---- runs whose pushes and pulls nest -----------------------------------

  /** How the pushes and pulls of a run nest. Plain is one instruction that leaves the
      stack alone; loops and branches are unrolled into what was executed. */
  datatype Nest =
    | Plain
    | Within(pair: Pair, body: Nest)
    | Then(first: Nest, second: Nest)
  {
    /** Instructions executed. */
    function Length(): nat {
      match this
      case Plain => 1
      case Within(_, body) => 1 + body.Length() + 1
      case Then(first, second) => first.Length() + second.Length()
    }

    /** The most stack bytes in use at once. */
    function Depth(): nat {
      match this
      case Plain => 0
      case Within(pair, body) => pair.Bytes() + body.Depth()
      case Then(first, second) => if first.Depth() > second.Depth() then first.Depth() else second.Depth()
    }
  }

  /** The stack pointer and the stack page are untouched. */
  predicate KeepsStack(s: Cpu, t: Cpu)
    requires s.Valid() && t.Valid()
  {
    t.sp == s.sp && forall k | 0x100 <= k < 0x200 :: t.mem[k] == s.mem[k]
  }

  /** The run of `length` instructions from s completes, at an instruction with this opcode. */
  ghost predicate Reaches(dev: Device, s: Cpu, length: nat, opcode: int) {
    Run(StepOf(dev), s, length).Ok? && At(dev, Run(StepOf(dev), s, length).value, opcode)
  }

  /** The instructions executed from s on nest as n says: a pair opens with its pushing
      instruction and its body ends at the matching pull. */
  ghost predicate Nests(dev: Device, s: Cpu, n: Nest)
    decreases n
  {
    && s.Valid()
    && var step := StepOf(dev);
    match n
    case Plain => step(s).Ok? && step(s).value.Valid() && KeepsStack(s, step(s).value)
    case Within(pair, body) =>
      && Pushes(dev, s, pair)
      && step(s).Ok? && Nests(dev, step(s).value, body)
      && Reaches(dev, step(s).value, body.Length(), pair.Pull())
    case Then(first, second) =>
      && Nests(dev, s, first)
      && Run(step, s, first.Length()).Ok? && Nests(dev, Run(step, s, first.Length()).value, second)
  }

  // ---- which instructions are plain ---------------------------------------

  /** The operations that can neither move sp nor write memory, whatever their operand. */
  predicate WritesNothing(op: Mnemonic) {
    IsRead(op) || IsBranch(op) || (IsTransfer(op) && op != TXS) || op in {JMP, CLC, SEC, CLI, SEI, CLV, CLD, NOP}
  }

  lemma ConsumeKeepsStack(s: Cpu, op: Mnemonic, m: int)
    requires s.Valid() && IsByte(m) && IsRead(op)
    ensures Consume(s, op, m).mem == s.mem && Consume(s, op, m).sp == s.sp
  {
    hide Cpu.Valid;
  }

  lemma TransferKeepsStack(s: Cpu, op: Mnemonic)
    requires s.Valid() && IsTransfer(op) && op != TXS
    ensures Transfer(s, op).mem == s.mem && Transfer(s, op).sp == s.sp
  {
  }

  lemma BranchKeepsStack(s: Cpu, taken: bool)
    requires s.Valid()
    ensures Branch(s, taken).mem == s.mem && Branch(s, taken).sp == s.sp
  {
  }

  lemma FlagKeepsStack(s: Cpu, op: Mnemonic)
    requires s.Valid() && ExecFlag(s, op).Ok?
    ensures ExecFlag(s, op).value.mem == s.mem && ExecFlag(s, op).value.sp == s.sp
  {
    hide Cpu.Valid;
  }

  lemma JumpKeepsStack(dev: Device, s: Cpu, mode: Mode)
    requires s.Valid() && ExecFlow(dev, s, JMP, mode).Ok?
    ensures ExecFlow(dev, s, JMP, mode).value.mem == s.mem && ExecFlow(dev, s, JMP, mode).value.sp == s.sp
  {
    hide Cpu.Valid, Addr;
  }

  lemma ExecKeepsStack(dev: Device, s: Cpu, op: Mnemonic, mode: Mode)
    requires s.Valid() && WritesNothing(op) && Exec(dev, s, op, mode).Ok?
    ensures Exec(dev, s, op, mode).value.mem == s.mem && Exec(dev, s, op, mode).value.sp == s.sp
  {
    hide Cpu.Valid, Operand, Consume, Branch, Transfer, ExecFlag, ExecFlow, ExecModify, ExecStore;
    if IsRead(op) {
      var (m, s1) := Operand(dev, s, mode).value;
      ConsumeKeepsStack(s1, op, m);
    } else if IsBranch(op) {
      BranchKeepsStack(s, Taken(s, op));
    } else if IsTransfer(op) {
      TransferKeepsStack(s, op);
    } else if op == JMP {
      JumpKeepsStack(dev, s, mode);
    } else {
      FlagKeepsStack(s, op);
    }
  }

  /** Every load, comparison, arithmetic or logic operation, branch, jump, flag operation
      and transfer but TXS is a plain instruction wherever it stands, device or not. */
  lemma PlainInstruction(dev: Device, s: Cpu, e: Entry)
    requires s.Valid() && Rd(dev, s, s.pc).Ok? && Decode(Rd(dev, s, s.pc).value.0) == Some(e)
    requires WritesNothing(e.op) && Step(dev, s).Ok?
    ensures Nests(dev, s, Plain)
  {
    hide StepOf, Decode, WritesNothing, Exec, Rd;
    var s1 := Fetched(Rd(dev, s, s.pc).value.1, e);
    assert StepOf(dev)(s) == Step(dev, s) == Exec(dev, s1, e.op, e.mode);
    ExecKeepsStack(dev, s1, e.op, e.mode);
  }

  /** Where a store or a read-modify-write on memory may go without touching the stack page:
      anywhere else, or into the device. */
  predicate OffStack(dev: Device, addr: int) {
    !(0x100 <= addr < 0x200) || dev.Covers(addr)
  }

  /** What an instruction with this opcode writes, once fetched: nothing for a shift of A,
      and otherwise the byte at its effective address. */
  predicate WritesOffStack(dev: Device, s: Cpu, op: Mnemonic, mode: Mode)
    requires s.Valid()
  {
    && (IsStore(op) || IsModify(op))
    && ((mode == ACC && op !in {INC, DEC} && IsModify(op))
        || (Addr(dev, s, mode, false).Ok? && OffStack(dev, Addr(dev, s, mode, false).value.0)))
  }

  lemma WrKeepsStack(dev: Device, s: Cpu, addr: int, v: int)
    requires s.Valid() && 0 <= addr < MEM_SIZE && IsByte(v) && OffStack(dev, addr) && Wr(dev, s, addr, v).Ok?
    ensures KeepsStack(s, Wr(dev, s, addr, v).value)
  {
  }

  lemma StoreKeepsStack(dev: Device, s: Cpu, op: Mnemonic, mode: Mode)
    requires s.Valid() && IsStore(op) && WritesOffStack(dev, s, op, mode) && ExecStore(dev, s, op, mode).Ok?
    ensures KeepsStack(s, ExecStore(dev, s, op, mode).value)
  {
    hide Addr, Wr, OffStack;
    var (addr, s1) := Addr(dev, s, mode, false).value;
    WrKeepsStack(dev, s1, addr, if op == STA then s1.a else if op == STX then s1.x else s1.y);
  }

  lemma ShiftKeepsStack(dev: Device, s: Cpu, op: Mnemonic)
    requires s.Valid() && IsModify(op) && op !in {INC, DEC}
    ensures ExecModify(dev, s, op, ACC).Ok? && KeepsStack(s, ExecModify(dev, s, op, ACC).value)
  {
    hide Addr, Wr, Rd, Modified;
  }

  lemma ModifyKeepsStack(dev: Device, s: Cpu, op: Mnemonic, mode: Mode)
    requires s.Valid() && IsModify(op) && !(mode == ACC && op !in {INC, DEC})
    requires WritesOffStack(dev, s, op, mode) && ExecModify(dev, s, op, mode).Ok?
    ensures KeepsStack(s, ExecModify(dev, s, op, mode).value)
  {
    hide Addr, Wr, Rd, Modified, OffStack, ZN;
    var (addr, s1) := Addr(dev, s, mode, false).value;
    var (m, s2) := Rd(dev, s1, addr).value;
    var (v, c) := Modified(op, m, s2.c);
    var s3 := ZN(s2.(c := c), v);
    FlagsKeepStack(s2, c, v);
    WrKeepsStack(dev, s3, addr, v);
  }

  lemma FlagsKeepStack(s: Cpu, c: int, v: int)
    requires s.Valid() && IsFlag(c) && IsByte(v)
    ensures ZN(s.(c := c), v).mem == s.mem && ZN(s.(c := c), v).sp == s.sp
  {
  }

  lemma WriteKeepsStack(dev: Device, s: Cpu, op: Mnemonic, mode: Mode)
    requires s.Valid() && WritesOffStack(dev, s, op, mode) && Exec(dev, s, op, mode).Ok?
    ensures KeepsStack(s, Exec(dev, s, op, mode).value)
  {
    if IsStore(op) {
      hide ExecRead, ExecModify, ExecStore, ExecFlow, ExecFlag, Branch, Transfer, WritesOffStack, Cpu.Valid;
      StoreKeepsStack(dev, s, op, mode);
    } else if mode == ACC && op !in {INC, DEC} {
      hide ExecRead, ExecModify, ExecStore, ExecFlow, ExecFlag, Branch, Transfer, Cpu.Valid;
      ShiftKeepsStack(dev, s, op);
    } else {
      hide ExecRead, ExecModify, ExecStore, ExecFlow, ExecFlag, Branch, Transfer, WritesOffStack, Cpu.Valid;
      ModifyKeepsStack(dev, s, op, mode);
    }
  }

  /** Every store and every read-modify-write is a plain instruction too, when its effective
      address is off the stack page or in the device window. */
  lemma PlainStore(dev: Device, s: Cpu, e: Entry)
    requires s.Valid() && Rd(dev, s, s.pc).Ok? && Decode(Rd(dev, s, s.pc).value.0) == Some(e)
    requires WritesOffStack(dev, Fetched(Rd(dev, s, s.pc).value.1, e), e.op, e.mode) && Step(dev, s).Ok?
    ensures Nests(dev, s, Plain)
  {
    hide StepOf, Decode, WritesOffStack, Exec, Rd;
    var s1 := Fetched(Rd(dev, s, s.pc).value.1, e);
    assert StepOf(dev)(s) == Step(dev, s) == Exec(dev, s1, e.op, e.mode);
    WriteKeepsStack(dev, s1, e.op, e.mode);
  }

  /** t is what the run of n leaves: sp and every stack byte n did not use are as before. */
  ghost predicate Balanced(dev: Device, s: Cpu, n: Nest, t: Cpu)
    requires n.Depth() <= 256
  {
    Run(StepOf(dev), s, n.Length()) == Ok(t) && Held(s, t, n.Depth())
  }

  lemma Bracket(step: Stepper, s: Cpu, s1: Cpu, length: nat, u: Cpu, t: Cpu)
    requires step(s) == Ok(s1) && Run(step, s1, length) == Ok(u) && step(u) == Ok(t)
    ensures Run(step, s, 1 + length + 1) == Ok(t)
  {
    assert Run(step, u, 0) == Ok(u) && Run(step, u, 1) == Ok(t) by {
      assert Run(step, t, 0) == Ok(t);
    }
    RunAdd(step, s1, length, 1, 0);
  }

  /** Any run whose pushes and pulls nest, to any depth the stack holds, leaves the stack
      pointer and every stack byte it did not use as it found them. */
  lemma {:induction false} NestedRunBalances(dev: Device, s: Cpu, n: Nest) returns (t: Cpu)
    requires Nests(dev, s, n) && n.Depth() <= 256
    ensures Balanced(dev, s, n, t)
    decreases n, 0
  {
    hide StepOf, Balanced, Reaches;
    match n
    case Plain =>
      t := StepOf(dev)(s).value;
      PlainBalances(dev, s);
    case Within(pair, body) =>
      t := PairRestores(dev, s, pair, body);
    case Then(first, second) =>
      var u := NestedRunBalances(dev, s, first);
      SecondNests(dev, s, first, second, u);
      t := NestedRunBalances(dev, u, second);
      BothBalance(dev, s, first, second, u, t);
  }

  lemma SecondNests(dev: Device, s: Cpu, first: Nest, second: Nest, u: Cpu)
    requires Nests(dev, s, Then(first, second)) && first.Depth() <= 256 && Balanced(dev, s, first, u)
    ensures Nests(dev, u, second)
  {
    hide StepOf, Held;
  }

  lemma RunJoin(step: Stepper, s: Cpu, j: nat, u: Cpu, k: nat, t: Cpu)
    requires Run(step, s, j) == Ok(u) && Run(step, u, k) == Ok(t)
    ensures Run(step, s, j + k) == Ok(t)
  {
    hide Run, Visits;
    RunAdd(step, s, j, k, 0);
  }

  lemma ThenSizes(first: Nest, second: Nest)
    ensures Then(first, second).Length() == first.Length() + second.Length()
    ensures Then(first, second).Depth()
         == if first.Depth() > second.Depth() then first.Depth() else second.Depth()
  {
  }

  lemma BothBalance(dev: Device, s: Cpu, first: Nest, second: Nest, u: Cpu, t: Cpu)
    requires first.Depth() <= 256 && second.Depth() <= 256
    requires Balanced(dev, s, first, u) && Balanced(dev, u, second, t)
    ensures Balanced(dev, s, Then(first, second), t)
  {
    ThenSizes(first, second);
    hide StepOf, Held, Run, Nest.Length, Nest.Depth;
    RunJoin(StepOf(dev), s, first.Length(), u, second.Length(), t);
    HeldOn(s, u, t, first.Depth(), second.Depth());
  }

  lemma PlainBalances(dev: Device, s: Cpu)
    requires Nests(dev, s, Plain)
    ensures Balanced(dev, s, Plain, StepOf(dev)(s).value)
  {
    var t := StepOf(dev)(s).value;
    hide StepOf;
    assert Run(StepOf(dev), t, 0) == Ok(t);
  }

  lemma Opens(dev: Device, s: Cpu, pair: Pair, body: Nest)
    requires Nests(dev, s, Within(pair, body))
    ensures Pushes(dev, s, pair) && StepOf(dev)(s) == Ok(Pushed(s, pair))
    ensures Nests(dev, Pushed(s, pair), body) && Reaches(dev, Pushed(s, pair), body.Length(), pair.Pull())
  {
    hide StepOf, Pushed, Reaches;
    PushStep(dev, s, pair);
  }

  lemma Closes(dev: Device, s: Cpu, pair: Pair, body: Nest, u: Cpu)
    requires Pushes(dev, s, pair) && StepOf(dev)(s) == Ok(Pushed(s, pair)) && Within(pair, body).Depth() <= 256
    requires Balanced(dev, Pushed(s, pair), body, u) && At(dev, u, pair.Pull())
    ensures Balanced(dev, s, Within(pair, body), Pulled(u, pair)) && Restored(s, Pulled(u, pair), pair)
  {
    hide StepOf, Held, Pushed, Pulled, Run, Restored;
    PullStep(dev, u, pair);
    HeldAcross(s, u, pair, body.Depth());
    Bracket(StepOf(dev), s, Pushed(s, pair), body.Length(), u, Pulled(u, pair));
  }

  /** Around any body that nests, PLA gives back the A that PHA saved, PLP every flag that
      PHP saved, and RTS the instruction after the JSR. */
  lemma {:induction false} PairRestores(dev: Device, s: Cpu, pair: Pair, body: Nest) returns (t: Cpu)
    requires Nests(dev, s, Within(pair, body)) && Within(pair, body).Depth() <= 256
    ensures Balanced(dev, s, Within(pair, body), t) && Restored(s, t, pair)
    decreases body, 1
  {
    hide StepOf, Held, Pushed, Pulled, Restored, Run, Nests;
    Opens(dev, s, pair, body);
    var u := NestedRunBalances(dev, Pushed(s, pair), body);
    Closes(dev, s, pair, body, u);
    t := Pulled(u, pair);
  }
}
