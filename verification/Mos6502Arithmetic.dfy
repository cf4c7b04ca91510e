/** Multi-byte addition and subtraction as programs: runs of the interpreter over operands
    in memory compute integer sums and differences. */
module Mos6502Arithmetic {
  import opened Results
  import opened Bytes
  import opened Mos6502Spec
  import opened Mos6502Runs
  import opened Mos6502Steps
  import opened Mos6502Laws

  // ---- the program --------------------------------------------------------

  /** A three-byte instruction at p with the absolute operand w. */
  predicate Absolute(dev: Device, mem: seq<int>, p: int, opcode: int, w: int) {
    && |mem| == MEM_SIZE && 0 <= p && p + 3 < MEM_SIZE && !dev.Covers(p)
    && mem[p] == opcode && mem[p + 1] == Lo(w) && mem[p + 2] == Hi(w)
    && 0 <= w < MEM_SIZE && !dev.Covers(w)
  }

  function Opcode(op: Mnemonic): int {
    if op == ADC then 0x6D else 0xED
  }

  /** LDA x / op y / STA z at p. */
  predicate Column(dev: Device, mem: seq<int>, p: int, op: Mnemonic, x: int, y: int, z: int) {
    && Absolute(dev, mem, p, 0xAD, x) && Absolute(dev, mem, p + 3, Opcode(op), y)
    && Absolute(dev, mem, p + 6, 0x8D, z)
  }

  predicate Within(x: int, y: int, z: int, n: nat) {
    0 <= x <= x + n <= MEM_SIZE && 0 <= y <= y + n <= MEM_SIZE && 0 <= z <= z + n <= MEM_SIZE
  }

  /** n columns at p, from the least significant bytes at x, y and z up. */
  predicate Columns(dev: Device, mem: seq<int>, p: int, op: Mnemonic, x: int, y: int, z: int, n: nat) {
    && |mem| == MEM_SIZE && op in {ADC, SBC} && 0 <= p && p + 9 * n < MEM_SIZE && Within(x, y, z, n)
    && forall i :: 0 <= i < n ==> Column(dev, mem, p + 9 * i, op, x + i, y + i, z + i)
  }

  predicate Disjoint(a: int, m: int, b: int, n: int) {
    a + m <= b || b + n <= a
  }

  /** Storing z over n columns spoils no operand byte still to be read: z may be x, or y,
      or start below them, as in `x := x + y`. */
  predicate InOrder(x: int, y: int, z: int, n: nat) {
    !(x < z < x + n) && !(y < z < y + n)
  }

  lemma ColumnIn(dev: Device, mem: seq<int>, p: int, op: Mnemonic, x: int, y: int, z: int, n: nat, i: nat)
    requires Columns(dev, mem, p, op, x, y, z, n) && i < n
    ensures Column(dev, mem, p + 9 * i, op, x + i, y + i, z + i)
  {
  }

  /** A byte stored outside a column leaves it in place. */
  lemma ColumnStays(dev: Device, mem: seq<int>, p: int, op: Mnemonic, x: int, y: int, z: int, mem': seq<int>)
    requires Column(dev, mem, p, op, x, y, z) && |mem'| == MEM_SIZE && mem'[p..p + 9] == mem[p..p + 9]
    ensures Column(dev, mem', p, op, x, y, z)
  {
    assert forall k :: p <= k < p + 9 ==> mem'[k] == mem'[p..p + 9][k - p] == mem[p..p + 9][k - p] == mem[k];
  }

  lemma ColumnsStay(dev: Device, mem: seq<int>, p: int, op: Mnemonic, x: int, y: int, z: int, n: nat, mem': seq<int>)
    requires Columns(dev, mem, p, op, x, y, z, n) && |mem'| == MEM_SIZE
    requires forall k :: p <= k < p + 9 * n ==> mem'[k] == mem[k]
    ensures Columns(dev, mem', p, op, x, y, z, n)
  {
    hide Column;
    forall i | 0 <= i < n
      ensures Column(dev, mem', p + 9 * i, op, x + i, y + i, z + i)
    {
      ColumnIn(dev, mem, p, op, x, y, z, n, i);
      ColumnStays(dev, mem, p + 9 * i, op, x + i, y + i, z + i, mem');
    }
  }

  lemma ColumnsTail(dev: Device, mem: seq<int>, p: int, op: Mnemonic, x: int, y: int, z: int, n: nat)
    requires Columns(dev, mem, p, op, x, y, z, n) && n > 0
    ensures Columns(dev, mem, p + 9, op, x + 1, y + 1, z + 1, n - 1)
  {
    hide Column;
    forall i | 0 <= i < n - 1
      ensures Column(dev, mem, p + 9 + 9 * i, op, x + 1 + i, y + 1 + i, z + 1 + i)
    {
      ColumnIn(dev, mem, p, op, x, y, z, n, i + 1);
      assert p + 9 * (i + 1) == p + 9 + 9 * i && x + (i + 1) == x + 1 + i && y + (i + 1) == y + 1 + i
             && z + (i + 1) == z + 1 + i;
    }
  }

  // ---- one column ---------------------------------------------------------

  lemma ReadAbs(dev: Device, s: Cpu, opcode: int, op: Mnemonic, w: int)
    requires s.Valid() && Absolute(dev, s.mem, s.pc, opcode, w) && Decode(opcode) == Some(Entry(op, ABS, 4))
    requires IsRead(op)
    ensures Past(s, 3, 4).Valid()
    ensures StepOf(dev)(s)
            == if op in {ADC, SBC} && s.d != 0 then Err(Trap(DecimalMode, Past(s, 1, 4))) else Ok(Consume(Past(s, 3, 4), op, s.mem[w]))
  {
    hide StepOf, Step, Consume, Exec, Decode, Skip;
    FetchDecode(dev, s, opcode, Entry(op, ABS, 4));
    AbsoluteOperandRead(dev, s, w);
    ByteOfMemory(s, w);
    hide Operand, Cpu.Valid;
    ExecOfRead(dev, Past(s, 1, 4), op, ABS, s.mem[w], Past(s, 3, 4));
  }

  lemma ByteOfMemory(s: Cpu, w: int)
    requires s.Valid() && 0 <= w < MEM_SIZE
    ensures |s.mem| == MEM_SIZE && IsByte(s.mem[w])
  {
  }

  lemma ExecOfRead(dev: Device, s: Cpu, op: Mnemonic, mode: Mode, m: int, s1: Cpu)
    requires s.Valid() && s1.Valid() && IsRead(op) && IsByte(m) && Operand(dev, s, mode) == Ok((m, s1))
    ensures Exec(dev, s, op, mode)
            == if op in {ADC, SBC} && s.d != 0 then Err(Trap(DecimalMode, s)) else Ok(Consume(s1, op, m))
  {
    hide Operand, Consume, ExecModify, ExecStore, Branch, Transfer, ExecFlow, ExecFlag, Cpu.Valid;
  }

  lemma AbsoluteOperandRead(dev: Device, s: Cpu, w: int)
    requires s.Valid() && s.pc + 3 < MEM_SIZE && Operand2(s, w) && 0 <= w < MEM_SIZE && !dev.Covers(w)
    ensures Past(s, 1, 4).Valid() && Past(s, 3, 4).Valid()
    ensures Operand(dev, Past(s, 1, 4), ABS) == Ok((s.mem[w], Past(s, 3, 4)))
  {
  }

  /** What one column computes in the registers and flags. */
  function Computed(s: Cpu, op: Mnemonic, x: int, y: int): (r: Cpu)
    requires s.Valid() && IsByte(x) && IsByte(y)
    ensures r.Valid()
  {
    Consume(Consume(s, LDA, x), op, y)
  }

  /** s and t agree on what the carry chain is made of. */
  predicate SameSum(s: Cpu, t: Cpu) {
    s.a == t.a && s.c == t.c && s.v == t.v && s.n == t.n && s.z == t.z
  }

  lemma OnlyFlags(s: Cpu, op: Mnemonic, m: int)
    requires s.Valid() && IsByte(m) && op in {LDA, ADC, SBC}
    ensures var t := Consume(s, op, m); t == s.(a := t.a, c := t.c, v := t.v, n := t.n, z := t.z)
  {
    hide Cpu.Valid;
  }

  lemma ComputedFields(s: Cpu, op: Mnemonic, x: int, y: int)
    requires s.Valid() && IsByte(x) && IsByte(y) && op in {ADC, SBC}
    ensures var m := if op == ADC then y else 0xFF - y;
      var sum, t := x + m + s.c, Computed(s, op, x, y);
      && t.a == sum % 256 && t.c == (if sum > 0xFF then 1 else 0) && t.v == Overflow(x, m, sum % 256)
      && t.z == (if sum % 256 == 0 then 1 else 0) && t.n == (if sum % 256 >= 0x80 then 1 else 0)
  {
    hide Overflow;
    var l := Consume(s, LDA, x);
    assert l.a == x && l.c == s.c;
  }

  /** A column depends on the machine it starts from through the carry only. */
  lemma OnlyCarry(s: Cpu, t: Cpu, op: Mnemonic, x: int, y: int)
    requires s.Valid() && t.Valid() && IsByte(x) && IsByte(y) && op in {ADC, SBC} && s.c == t.c
    ensures SameSum(Computed(s, op, x, y), Computed(t, op, x, y))
  {
    ComputedFields(s, op, x, y);
    ComputedFields(t, op, x, y);
    hide Computed, Overflow;
  }

  lemma LoadOrAdd(dev: Device, s: Cpu, opcode: int, op: Mnemonic, w: int) returns (t: Cpu)
    requires s.Valid() && s.d == 0 && Absolute(dev, s.mem, s.pc, opcode, w)
    requires op in {LDA, ADC, SBC} && Decode(opcode) == Some(Entry(op, ABS, 4))
    ensures StepOf(dev)(s) == Ok(t) && t.Valid() && t.pc == s.pc + 3 && t.d == 0
    ensures t.mem == s.mem && t.sp == s.sp && t.io == s.io
    ensures IsByte(s.mem[w]) && SameSum(t, Consume(s, op, s.mem[w]))
  {
    hide StepOf, Decode;
    ReadAbs(dev, s, opcode, op, w);
    t := Consume(Past(s, 3, 4), op, s.mem[w]);
    OnlyFlags(Past(s, 3, 4), op, s.mem[w]);
    OnlyFlags(s, op, s.mem[w]);
    SumElsewhere(s, Past(s, 3, 4), op, s.mem[w]);
    hide Consume;
  }

  /** What an operation computes does not depend on where it stands. */
  lemma SumElsewhere(s: Cpu, t: Cpu, op: Mnemonic, m: int)
    requires s.Valid() && t.Valid() && IsByte(m) && op in {LDA, ADC, SBC} && SameSum(s, t)
    ensures SameSum(Consume(t, op, m), Consume(s, op, m))
  {
    hide Cpu.Valid;
  }

  lemma Store(dev: Device, s: Cpu, z: int) returns (t: Cpu)
    requires s.Valid() && Absolute(dev, s.mem, s.pc, 0x8D, z)
    ensures StepOf(dev)(s) == Ok(t) && t.Valid() && t.pc == s.pc + 3 && t.d == s.d
    ensures t.mem == s.mem[z := s.a] && t.sp == s.sp && t.io == s.io && SameSum(t, s)
  {
    hide StepOf;
    StaAbs(dev, s, z);
    t := Past(s, 3, 4).(mem := s.mem[z := s.a]);
  }

  lemma Opcodes(op: Mnemonic)
    requires op in {ADC, SBC}
    ensures Decode(0xAD) == Some(Entry(LDA, ABS, 4)) && Decode(Opcode(op)) == Some(Entry(op, ABS, 4))
  {
  }

  lemma ThreeSteps(step: Stepper, s: Cpu, s1: Cpu, s2: Cpu, t: Cpu)
    requires step(s) == Ok(s1) && step(s1) == Ok(s2) && step(s2) == Ok(t)
    ensures Run(step, s, 3) == Ok(t)
  {
    assert Run(step, t, 0) == Ok(t) && Run(step, s2, 1) == Ok(t) && Run(step, s1, 2) == Ok(t);
  }

  /** Three instructions: the sum of one pair of bytes in A and at z, nothing else in
      memory touched. */
  lemma ColumnRun(dev: Device, s: Cpu, op: Mnemonic, x: int, y: int, z: int) returns (t: Cpu)
    requires s.Valid() && s.d == 0 && op in {ADC, SBC} && Column(dev, s.mem, s.pc, op, x, y, z)
    ensures Run(StepOf(dev), s, 3) == Ok(t) && t.Valid()
    ensures IsByte(s.mem[x]) && IsByte(s.mem[y]) && SameSum(t, Computed(s, op, s.mem[x], s.mem[y]))
    ensures t.pc == s.pc + 9 && t.sp == s.sp && t.d == 0 && t.io == s.io && t.mem == s.mem[z := t.a]
  {
    hide StepOf, Decode, Consume, Run;
    Opcodes(op);
    hide Absolute;
    var s1 := LoadOrAdd(dev, s, 0xAD, LDA, x);
    var s2 := LoadOrAdd(dev, s1, Opcode(op), op, y);
    SumElsewhere(Consume(s, LDA, s.mem[x]), s1, op, s.mem[y]);
    t := Store(dev, s2, z);
    ThreeSteps(StepOf(dev), s, s1, s2, t);
  }

  // ---- any number of columns ----------------------------------------------

  /** The n bytes of memory from a. */
  function Field(s: Cpu, a: int, n: nat): (bs: seq<Byte>)
    requires s.Valid() && 0 <= a <= a + n <= MEM_SIZE
    ensures |bs| == n
  {
    s.mem[a..a + n]
  }

  /** t came out of a run that started at s: n bytes at z are new, nothing else in memory. */
  predicate OnlyField(s: Cpu, t: Cpu, z: int, n: nat) {
    && |s.mem| == |t.mem| == MEM_SIZE && t.sp == s.sp && t.d == s.d && t.io == s.io
    && forall k :: 0 <= k < MEM_SIZE && !(z <= k < z + n) ==> t.mem[k] == s.mem[k]
  }

  /** The carry chain depends on the machine it starts from through the carry only. */
  lemma {:induction false} ChainOnlyCarry(s: Cpu, t: Cpu, op: Mnemonic, xs: seq<Byte>, ys: seq<Byte>)
    requires s.Valid() && t.Valid() && |xs| == |ys| && op in {ADC, SBC} && s.c == t.c
    ensures Chain(s, op, xs, ys).0 == Chain(t, op, xs, ys).0
    ensures Chain(s, op, xs, ys).1.c == Chain(t, op, xs, ys).1.c
    ensures |xs| > 0 || s.v == t.v ==> Chain(s, op, xs, ys).1.v == Chain(t, op, xs, ys).1.v
    decreases |xs|
  {
    if |xs| > 0 {
      OnlyCarry(s, t, op, xs[0], ys[0]);
      hide Consume;
      ChainOnlyCarry(Computed(s, op, xs[0], ys[0]), Computed(t, op, xs[0], ys[0]), op, xs[1..], ys[1..]);
    }
  }

  /** The operand fields that remain after the first column are the ones there were. */
  lemma FieldsRemain(s: Cpu, t: Cpu, x: int, z: int, n: nat)
    requires s.Valid() && t.Valid() && n > 0 && 0 <= x && x + n <= MEM_SIZE && 0 <= z < MEM_SIZE
    requires t.mem == s.mem[z := t.a] && !(x < z < x + n)
    ensures Field(t, x + 1, n - 1) == Field(s, x, n)[1..] && Field(s, x, n)[0] == s.mem[x]
  {
  }

  lemma FieldCons(s: Cpu, t: Cpu, z: int, n: nat)
    requires s.Valid() && t.Valid() && n > 0 && 0 <= z && z + n <= MEM_SIZE
    requires OnlyField(s, t, z + 1, n - 1)
    ensures Field(t, z, n) == [s.mem[z]] + Field(t, z + 1, n - 1)
  {
  }

  /** t's field at z, carry and overflow are those of the carry chain over s's fields at x and y. */
  predicate Summed(s: Cpu, op: Mnemonic, x: int, y: int, z: int, n: nat, t: Cpu)
    requires s.Valid() && t.Valid() && op in {ADC, SBC} && Within(x, y, z, n)
  {
    var (zs, u) := Chain(s, op, Field(s, x, n), Field(s, y, n));
    Field(t, z, n) == zs && t.c == u.c && t.v == u.v
  }

  /** The machine is about to run n columns whose stores spoil neither the code nor an operand
      byte still to be read. */
  predicate Ready(dev: Device, s: Cpu, op: Mnemonic, x: int, y: int, z: int, n: nat) {
    && s.Valid() && s.d == 0 && op in {ADC, SBC} && Within(x, y, z, n)
    && Columns(dev, s.mem, s.pc, op, x, y, z, n) && InOrder(x, y, z, n) && Disjoint(s.pc, 9 * n, z, n)
  }

  /** u is the machine after the first of n columns from s. */
  ghost predicate OneColumn(dev: Device, s: Cpu, u: Cpu, op: Mnemonic, x: int, y: int, z: int, n: nat) {
    && s.Valid() && u.Valid() && op in {ADC, SBC} && n > 0 && Within(x, y, z, n)
    && Run(StepOf(dev), s, 3) == Ok(u) && u.pc == s.pc + 9 && OnlyField(s, u, z, 1) && u.mem[z] == u.a
    && SameSum(u, Computed(s, op, Field(s, x, n)[0], Field(s, y, n)[0]))
    && Field(u, x + 1, n - 1) == Field(s, x, n)[1..] && Field(u, y + 1, n - 1) == Field(s, y, n)[1..]
  }

  lemma SummedCons(s: Cpu, u: Cpu, op: Mnemonic, xs: seq<Byte>, ys: seq<Byte>, t: Cpu)
    requires s.Valid() && u.Valid() && op in {ADC, SBC} && |xs| == |ys| > 0
    requires SameSum(u, Computed(s, op, xs[0], ys[0]))
    ensures var (zs, v) := Chain(u, op, xs[1..], ys[1..]);
      var (ws, w) := Chain(s, op, xs, ys);
      ws == [u.a] + zs && w.c == v.c && w.v == v.v
  {
    hide Cpu.Valid, Consume;
    ChainOnlyCarry(u, Computed(s, op, xs[0], ys[0]), op, xs[1..], ys[1..]);
  }

  /** What the run of n columns from s comes to: the carry chain of the operand bytes. */
  ghost predicate RunOfChain(dev: Device, s: Cpu, op: Mnemonic, x: int, y: int, z: int, n: nat, t: Cpu) {
    && s.Valid() && t.Valid() && op in {ADC, SBC} && Within(x, y, z, n)
    && Run(StepOf(dev), s, 3 * n) == Ok(t) && t.pc == s.pc + 9 * n && OnlyField(s, t, z, n)
    && Summed(s, op, x, y, z, n, t)
  }

  lemma RestReady(dev: Device, s: Cpu, u: Cpu, op: Mnemonic, x: int, y: int, z: int, n: nat)
    requires Ready(dev, s, op, x, y, z, n) && n > 0
    requires u.Valid() && u.d == 0 && u.pc == s.pc + 9 && u.mem == s.mem[z := u.a]
    ensures Ready(dev, u, op, x + 1, y + 1, z + 1, n - 1)
  {
    hide Column, Cpu.Valid;
    ColumnsStay(dev, s.mem, s.pc, op, x, y, z, n, u.mem);
    ColumnsTail(dev, u.mem, s.pc, op, x, y, z, n);
    hide Columns;
  }

  lemma ReadyFirst(dev: Device, s: Cpu, op: Mnemonic, x: int, y: int, z: int, n: nat)
    requires Ready(dev, s, op, x, y, z, n) && n > 0
    ensures s.Valid() && s.d == 0 && op in {ADC, SBC} && Within(x, y, z, n) && InOrder(x, y, z, n)
    ensures Column(dev, s.mem, s.pc, op, x, y, z)
  {
    hide Column, Cpu.Valid;
    ColumnIn(dev, s.mem, s.pc, op, x, y, z, n, 0);
  }

  lemma IsOneColumn(dev: Device, s: Cpu, u: Cpu, op: Mnemonic, x: int, y: int, z: int, n: nat)
    requires s.Valid() && u.Valid() && op in {ADC, SBC} && n > 0 && Within(x, y, z, n) && InOrder(x, y, z, n)
    requires Run(StepOf(dev), s, 3) == Ok(u) && u.pc == s.pc + 9 && u.sp == s.sp && u.d == s.d && u.io == s.io
    requires u.mem == s.mem[z := u.a] && SameSum(u, Computed(s, op, s.mem[x], s.mem[y]))
    ensures OneColumn(dev, s, u, op, x, y, z, n)
  {
    hide StepOf, Run, Computed, SameSum;
    FieldsRemain(s, u, x, z, n);
    FieldsRemain(s, u, y, z, n);
    hide Field, Cpu.Valid;
  }

  /** The first column of several, and what is left to run after it. */
  lemma FirstColumn(dev: Device, s: Cpu, op: Mnemonic, x: int, y: int, z: int, n: nat) returns (u: Cpu)
    requires Ready(dev, s, op, x, y, z, n) && n > 0
    ensures OneColumn(dev, s, u, op, x, y, z, n) && Ready(dev, u, op, x + 1, y + 1, z + 1, n - 1)
  {
    hide StepOf, Run, Computed, SameSum, Column, Ready, OneColumn, Cpu.Valid;
    ReadyFirst(dev, s, op, x, y, z, n);
    u := ColumnRun(dev, s, op, x, y, z);
    RestReady(dev, s, u, op, x, y, z, n);
    IsOneColumn(dev, s, u, op, x, y, z, n);
  }

  lemma OnlyFieldCons(s: Cpu, u: Cpu, t: Cpu, z: int, n: nat)
    requires n > 0 && OnlyField(s, u, z, 1) && OnlyField(u, t, z + 1, n - 1)
    ensures OnlyField(s, t, z, n)
  {
  }

  lemma RunsJoin(step: Stepper, s: Cpu, u: Cpu, n: nat, t: Cpu)
    requires n > 0 && Run(step, s, 3) == Ok(u) && Run(step, u, 3 * (n - 1)) == Ok(t)
    ensures Run(step, s, 3 * n) == Ok(t)
  {
    hide Run, Visits;
    RunAdd(step, s, 3, 3 * (n - 1), 0);
    assert 3 + 3 * (n - 1) == 3 * n;
  }

  lemma AddSummed(dev: Device, s: Cpu, u: Cpu, op: Mnemonic, x: int, y: int, z: int, n: nat, t: Cpu)
    requires OneColumn(dev, s, u, op, x, y, z, n) && t.Valid()
    requires Within(x + 1, y + 1, z + 1, n - 1) && Summed(u, op, x + 1, y + 1, z + 1, n - 1, t)
    requires OnlyField(u, t, z + 1, n - 1)
    ensures Summed(s, op, x, y, z, n, t)
  {
    FieldCons(u, t, z, n);
    hide StepOf, Run, Cpu.Valid, OnlyField, Field, Computed, SameSum, Chain;
    SummedCons(s, u, op, Field(s, x, n), Field(s, y, n), t);
  }

  lemma AddColumn(dev: Device, s: Cpu, u: Cpu, op: Mnemonic, x: int, y: int, z: int, n: nat, t: Cpu)
    requires OneColumn(dev, s, u, op, x, y, z, n) && RunOfChain(dev, u, op, x + 1, y + 1, z + 1, n - 1, t)
    ensures RunOfChain(dev, s, op, x, y, z, n, t)
  {
    hide StepOf, Run, Cpu.Valid, OnlyField, Field, Computed, SameSum, Summed;
    AddSummed(dev, s, u, op, x, y, z, n, t);
    OnlyFieldCons(s, u, t, z, n);
    RunsJoin(StepOf(dev), s, u, n, t);
  }

  /** Running n columns is the carry chain over the bytes in memory: the interpreter
      fetches, addresses and stores, and only the result field changes. */
  lemma {:induction false} ColumnsRun(dev: Device, s: Cpu, op: Mnemonic, x: int, y: int, z: int, n: nat) returns (t: Cpu)
    requires Ready(dev, s, op, x, y, z, n)
    ensures RunOfChain(dev, s, op, x, y, z, n, t)
    decreases n
  {
    hide Ready, RunOfChain, OneColumn;
    if n == 0 {
      t := s;
      NoColumns(dev, s, op, x, y, z);
    } else {
      var u := FirstColumn(dev, s, op, x, y, z, n);
      t := ColumnsRun(dev, u, op, x + 1, y + 1, z + 1, n - 1);
      AddColumn(dev, s, u, op, x, y, z, n, t);
    }
  }

  lemma NoColumns(dev: Device, s: Cpu, op: Mnemonic, x: int, y: int, z: int)
    requires Ready(dev, s, op, x, y, z, 0)
    ensures RunOfChain(dev, s, op, x, y, z, 0, s)
  {
    hide StepOf;
  }

  // ---- the laws -----------------------------------------------------------

  /** n columns of ADC add integers: the result field is the sum mod 256^n, C the carry out
      of the top byte, and V says exactly that the signed n-byte sum does not fit. */
  lemma AdcRunAdds(dev: Device, s: Cpu, x: int, y: int, z: int, n: nat) returns (t: Cpu)
    requires Ready(dev, s, ADC, x, y, z, n)
    ensures Run(StepOf(dev), s, 3 * n) == Ok(t) && t.Valid() && t.pc == s.pc + 9 * n && OnlyField(s, t, z, n)
    ensures var xs, ys, zs := Field(s, x, n), Field(s, y, n), Field(t, z, n);
      && Le(zs) + (if t.c == 1 then Pow256(n) else 0) == Le(xs) + Le(ys) + s.c
      && (n > 0 ==> (t.v == 0 <==> FitsSigned(Signed(xs) + Signed(ys) + s.c, n)))
  {
    hide Columns, Chain, OnlyField, FitsSigned, Signed, Le, Cpu.Valid, StepOf, Run;
    t := ColumnsRun(dev, s, ADC, x, y, z, n);
    var xs, ys := Field(s, x, n), Field(s, y, n);
    AdcChainAdds(s, xs, ys);
    if n > 0 {
      AdcChainOverflow(s, xs, ys);
    }
  }

  /** n columns of SBC subtract integers, C clear meaning a borrow in and out. */
  lemma SbcRunSubtracts(dev: Device, s: Cpu, x: int, y: int, z: int, n: nat) returns (t: Cpu)
    requires Ready(dev, s, SBC, x, y, z, n)
    ensures Run(StepOf(dev), s, 3 * n) == Ok(t) && t.Valid() && t.pc == s.pc + 9 * n && OnlyField(s, t, z, n)
    ensures var xs, ys, zs := Field(s, x, n), Field(s, y, n), Field(t, z, n);
      && Le(zs) - (if t.c == 0 then Pow256(n) else 0) == Le(xs) - Le(ys) - (1 - s.c)
      && (n > 0 ==> (t.v == 0 <==> FitsSigned(Signed(xs) - Signed(ys) - (1 - s.c), n)))
  {
    hide Columns, Chain, OnlyField, FitsSigned, Signed, Le, Cpu.Valid, StepOf, Run;
    t := ColumnsRun(dev, s, SBC, x, y, z, n);
    var xs, ys := Field(s, x, n), Field(s, y, n);
    SbcChainSubtracts(s, xs, ys);
    if n > 0 {
      SbcChainOverflow(s, xs, ys);
    }
  }

  /** With D set the first ADC or SBC raises: the laws' demand that D be clear is exactly
      what the interpreter supports. */
  lemma DecimalColumnRaises(dev: Device, s: Cpu, op: Mnemonic, x: int, y: int, z: int, n: nat)
    requires s.Valid() && s.d != 0 && n > 0 && Columns(dev, s.mem, s.pc, op, x, y, z, n)
    ensures Run(StepOf(dev), s, 3 * n).Err? && Run(StepOf(dev), s, 3 * n).error.fault == DecimalMode
  {
    hide StepOf, Decode, Absolute, Consume, Run;
    ColumnIn(dev, s.mem, s.pc, op, x, y, z, n, 0);
    Opcodes(op);
    ReadAbs(dev, s, 0xAD, LDA, x);
    var s1 := Consume(Past(s, 3, 4), LDA, s.mem[x]);
    OnlyFlags(Past(s, 3, 4), LDA, s.mem[x]);
    ReadAbs(dev, s1, Opcode(op), op, y);
    RaisesSecond(StepOf(dev), s, s1, Trap(DecimalMode, Past(s1, 1, 4)), 3 * n);
  }

  lemma RaisesSecond(step: Stepper, s: Cpu, s1: Cpu, f: Trap, k: nat)
    requires step(s) == Ok(s1) && step(s1) == Err(f) && k >= 2
    ensures Run(step, s, k) == Err(f)
  {
    assert Run(step, s1, k - 1) == Err(f);
  }

  // ---- there and back -----------------------------------------------------

  /** CLC / z := x + y / SEC / w := z - y, each over n bytes, stands at s.pc. */
  predicate ThereAndBack(dev: Device, s: Cpu, x: int, y: int, z: int, w: int, n: nat) {
    && s.Valid() && s.d == 0 && s.pc + 4 + 18 * n < MEM_SIZE
    && At(dev, s, 0x18) && Columns(dev, s.mem, s.pc + 1, ADC, x, y, z, n)
    && s.mem[s.pc + 1 + 9 * n] == 0x38 && !dev.Covers(s.pc + 1 + 9 * n)
    && Columns(dev, s.mem, s.pc + 2 + 9 * n, SBC, z, y, w, n)
    && Disjoint(s.pc, 2 + 18 * n, z, n) && Disjoint(s.pc, 2 + 18 * n, w, n)
    && InOrder(x, y, z, n) && InOrder(z, y, w, n) && Disjoint(y, n, z, n)
  }

  lemma SumAndDifference(xs: seq<Byte>, ys: seq<Byte>, zs: seq<Byte>, ws: seq<Byte>, carry: int, borrow: int)
    requires |xs| == |ws| == |zs| && IsFlag(carry) && IsFlag(borrow)
    requires Le(zs) + (if carry == 1 then Pow256(|xs|) else 0) == Le(xs) + Le(ys)
    requires Le(ws) - (if borrow == 0 then Pow256(|xs|) else 0) == Le(zs) - Le(ys)
    ensures ws == xs && borrow == 1 - carry && (carry == 1 <==> Le(xs) + Le(ys) >= Pow256(|xs|))
  {
    hide Le, Pow256;
    LeBound(xs);
    LeBound(zs);
    LeBound(ws);
    Unwrapped(Le(xs), Le(ys), Le(zs), Le(ws), Pow256(|xs|), carry, borrow);
    LeInjective(ws, xs);
  }

  /** Values below p that agree up to a multiple of p are equal. */
  lemma Unwrapped(x: nat, y: nat, z: nat, w: nat, p: nat, carry: int, borrow: int)
    requires x < p && z < p && w < p && IsFlag(carry) && IsFlag(borrow)
    requires z + (if carry == 1 then p else 0) == x + y
    requires w - (if borrow == 0 then p else 0) == z - y
    ensures w == x && borrow == 1 - carry && (carry == 1 <==> x + y >= p)
  {
  }

  lemma FourLegs(step: Stepper, s: Cpu, s1: Cpu, t1: Cpu, s2: Cpu, t: Cpu, m: nat)
    requires step(s) == Ok(s1) && Run(step, s1, m) == Ok(t1) && step(t1) == Ok(s2) && Run(step, s2, m) == Ok(t)
    ensures Run(step, s, 2 + 2 * m) == Ok(t)
  {
    assert Run(step, t1, 1 + m) == Ok(t);
    RunAdd(step, s1, m, 1 + m, 0);
    assert Run(step, s, 1 + (m + (1 + m))) == Ok(t);
  }

  lemma FieldSame(s: Cpu, t: Cpu, z: int, n: nat, a: int, m: nat)
    requires s.Valid() && t.Valid() && OnlyField(s, t, z, n) && 0 <= a <= a + m <= MEM_SIZE && Disjoint(a, m, z, n)
    ensures Field(t, a, m) == Field(s, a, m)
  {
  }

  lemma StartsReady(dev: Device, s: Cpu, s1: Cpu, x: int, y: int, z: int, w: int, n: nat)
    requires ThereAndBack(dev, s, x, y, z, w, n) && s1 == Past(s, 1, 2).(c := 0)
    ensures Ready(dev, s1, ADC, x, y, z, n) && Field(s1, x, n) == Field(s, x, n) && Field(s1, y, n) == Field(s, y, n)
  {
    hide Column;
  }

  /** The second half of the program, from the state the addition leaves. */
  lemma Back(dev: Device, s: Cpu, s1: Cpu, t1: Cpu, x: int, y: int, z: int, w: int, n: nat) returns (s2: Cpu)
    requires ThereAndBack(dev, s, x, y, z, w, n) && s1 == Past(s, 1, 2).(c := 0) && s1.Valid()
    requires t1.Valid() && t1.pc == s.pc + 1 + 9 * n && OnlyField(s1, t1, z, n)
    ensures StepOf(dev)(t1) == Ok(s2) && Ready(dev, s2, SBC, z, y, w, n) && s2.c == 1
    ensures s2.mem == t1.mem && s2.sp == s.sp && s2.io == s.io
    ensures Field(s2, z, n) == Field(t1, z, n) && Field(s2, y, n) == Field(s, y, n)
  {
    hide StepOf, Column;
    s2 := Past(t1, 1, 2).(c := 1);
    SecImp(dev, t1);
    ColumnsStay(dev, s.mem, s.pc + 2 + 9 * n, SBC, z, y, w, n, t1.mem);
    FieldSame(s1, t1, z, n, y, n);
    hide Columns;
  }

  /** Adding y and subtracting it again gives back x, and the borrow left at the end is
      exactly the carry that the addition lost. */
  lemma AddThenSubtractRun(dev: Device, s: Cpu, x: int, y: int, z: int, w: int, n: nat) returns (t: Cpu)
    requires ThereAndBack(dev, s, x, y, z, w, n)
    ensures Run(StepOf(dev), s, 2 + 6 * n) == Ok(t) && t.Valid() && t.sp == s.sp && t.io == s.io
    ensures Field(t, w, n) == Field(s, x, n)
    ensures t.c == 0 <==> Le(Field(s, x, n)) + Le(Field(s, y, n)) >= Pow256(n)
  {
    hide StepOf, Run, Columns, Le, Pow256, Signed, FitsSigned, Field;
    var s1 := Past(s, 1, 2).(c := 0);
    ClcImp(dev, s);
    StartsReady(dev, s, s1, x, y, z, w, n);
    hide Ready, ThereAndBack;
    var t1 := AdcRunAdds(dev, s1, x, y, z, n);
    var s2 := Back(dev, s, s1, t1, x, y, z, w, n);
    t := SbcRunSubtracts(dev, s2, z, y, w, n);
    FourLegs(StepOf(dev), s, s1, t1, s2, t, 3 * n);
    SumAndDifference(Field(s, x, n), Field(s, y, n), Field(t1, z, n), Field(t, w, n), t1.c, t.c);
  }

  // ---- one program in full ------------------------------------------------

  const CODE: int := 0x1000
  const X: int := 0x4000
  const Y: int := 0x4100
  const Z: int := 0x4200
  const W: int := 0x4300

  /** Byte j of column i of LDA x / op y / STA z. */
  function ColumnByte(op: Mnemonic, x: int, y: int, z: int, i: int, j: int): int {
    if j == 0 then 0xAD else if j == 1 then Lo(x + i) else if j == 2 then Hi(x + i)
    else if j == 3 then Opcode(op) else if j == 4 then Lo(y + i) else if j == 5 then Hi(y + i)
    else if j == 6 then 0x8D else if j == 7 then Lo(z + i) else Hi(z + i)
  }

  /** Byte k of CLC / z := x + y / SEC / w := z - y over n bytes. */
  function ProgramByte(n: nat, k: int): int {
    if k == 0 then 0x18
    else if k < 1 + 9 * n then ColumnByte(ADC, X, Y, Z, (k - 1) / 9, (k - 1) % 9)
    else if k == 1 + 9 * n then 0x38
    else ColumnByte(SBC, Z, Y, W, (k - 2 - 9 * n) / 9, (k - 2 - 9 * n) % 9)
  }

  /** A memory that holds the program and two operands of up to 256 bytes. */
  function Image(xs: seq<Byte>, ys: seq<Byte>): (mem: seq<int>)
    requires |xs| == |ys| <= 256
    ensures |mem| == MEM_SIZE
    ensures forall k :: 0 <= k < MEM_SIZE ==> mem[k] == ImageByte(xs, ys, k)
  {
    seq(MEM_SIZE, k => ImageByte(xs, ys, k))
  }

  function ImageByte(xs: seq<Byte>, ys: seq<Byte>, k: int): int
    requires |xs| == |ys|
  {
    if CODE <= k < CODE + 2 + 18 * |xs| then ProgramByte(|xs|, k - CODE)
    else if X <= k < X + |xs| then xs[k - X]
    else if Y <= k < Y + |ys| then ys[k - Y]
    else 0
  }

  const NO_DEVICE: Device := Device(0, 0, (h, v, a) => None, (h, v, a, x) => false)

  /** The nine bytes of column i stand at p. */
  predicate Spelled(mem: seq<int>, p: int, op: Mnemonic, x: int, y: int, z: int, i: int) {
    0 <= p && p + 9 < |mem| && forall j :: 0 <= j < 9 ==> mem[p + j] == ColumnByte(op, x, y, z, i, j)
  }

  lemma SpelledColumn(mem: seq<int>, p: int, op: Mnemonic, x: int, y: int, z: int, i: nat)
    requires |mem| == MEM_SIZE && Spelled(mem, p, op, x, y, z, i)
    requires 0 <= x + i < MEM_SIZE && 0 <= y + i < MEM_SIZE && 0 <= z + i < MEM_SIZE
    ensures Column(NO_DEVICE, mem, p, op, x + i, y + i, z + i)
  {
    assert mem[p + 0] == ColumnByte(op, x, y, z, i, 0) && mem[p + 1] == ColumnByte(op, x, y, z, i, 1)
           && mem[p + 2] == ColumnByte(op, x, y, z, i, 2) && mem[p + 3] == ColumnByte(op, x, y, z, i, 3)
           && mem[p + 4] == ColumnByte(op, x, y, z, i, 4) && mem[p + 5] == ColumnByte(op, x, y, z, i, 5)
           && mem[p + 6] == ColumnByte(op, x, y, z, i, 6) && mem[p + 7] == ColumnByte(op, x, y, z, i, 7)
           && mem[p + 8] == ColumnByte(op, x, y, z, i, 8);
    hide Spelled, Lo, Hi;
  }

  lemma AddingColumn(xs: seq<Byte>, ys: seq<Byte>, i: nat)
    requires |xs| == |ys| <= 256 && i < |xs|
    ensures Spelled(Image(xs, ys), CODE + 1 + 9 * i, ADC, X, Y, Z, i)
  {
    hide ColumnByte;
    var p := CODE + 1 + 9 * i;
    forall j | 0 <= j < 9
      ensures Image(xs, ys)[p + j] == ColumnByte(ADC, X, Y, Z, i, j)
    {
      assert (p + j - CODE - 1) / 9 == i && (p + j - CODE - 1) % 9 == j;
    }
  }

  lemma SubtractingColumn(xs: seq<Byte>, ys: seq<Byte>, i: nat)
    requires |xs| == |ys| <= 256 && i < |xs|
    ensures Spelled(Image(xs, ys), CODE + 2 + 9 * |xs| + 9 * i, SBC, Z, Y, W, i)
  {
    hide ColumnByte;
    var p := CODE + 2 + 9 * |xs| + 9 * i;
    forall j | 0 <= j < 9
      ensures Image(xs, ys)[p + j] == ColumnByte(SBC, Z, Y, W, i, j)
    {
      assert (p + j - CODE - 2 - 9 * |xs|) / 9 == i && (p + j - CODE - 2 - 9 * |xs|) % 9 == j;
    }
  }

  lemma ImageColumns(xs: seq<Byte>, ys: seq<Byte>)
    requires |xs| == |ys| <= 256
    ensures Columns(NO_DEVICE, Image(xs, ys), CODE + 1, ADC, X, Y, Z, |xs|)
    ensures Columns(NO_DEVICE, Image(xs, ys), CODE + 2 + 9 * |xs|, SBC, Z, Y, W, |xs|)
  {
    hide Image, Column, Spelled;
    forall i | 0 <= i < |xs|
      ensures Column(NO_DEVICE, Image(xs, ys), CODE + 1 + 9 * i, ADC, X + i, Y + i, Z + i)
    {
      AddingColumn(xs, ys, i);
      SpelledColumn(Image(xs, ys), CODE + 1 + 9 * i, ADC, X, Y, Z, i);
    }
    forall i | 0 <= i < |xs|
      ensures Column(NO_DEVICE, Image(xs, ys), CODE + 2 + 9 * |xs| + 9 * i, SBC, Z + i, Y + i, W + i)
    {
      SubtractingColumn(xs, ys, i);
      SpelledColumn(Image(xs, ys), CODE + 2 + 9 * |xs| + 9 * i, SBC, Z, Y, W, i);
    }
  }

  lemma ImageIsProgram(s: Cpu, xs: seq<Byte>, ys: seq<Byte>)
    requires |xs| == |ys| <= 256 && s.Valid() && s.d == 0 && s.pc == CODE && s.mem == Image(xs, ys)
    ensures ThereAndBack(NO_DEVICE, s, X, Y, Z, W, |xs|)
  {
    ImageColumns(xs, ys);
    assert s.mem[CODE] == ImageByte(xs, ys, CODE) == 0x18;
    assert s.mem[CODE + 1 + 9 * |xs|] == ImageByte(xs, ys, CODE + 1 + 9 * |xs|) == 0x38;
    hide Columns, Image, ImageByte;
  }

  lemma ImageOperands(s: Cpu, xs: seq<Byte>, ys: seq<Byte>)
    requires |xs| == |ys| <= 256 && s.Valid() && s.mem == Image(xs, ys)
    ensures Field(s, X, |xs|) == xs && Field(s, Y, |xs|) == ys
  {
    hide ProgramByte;
  }

  /** Nothing is assumed here: for any two numbers of up to 256 bytes, from any registers and
      flags with D clear, the 2 + 18n bytes at 0x1000 put the first number back at W, and leave
      C clear exactly when the sum does not fit its bytes. */
  lemma ImageAddsAndSubtracts(s: Cpu, xs: seq<Byte>, ys: seq<Byte>) returns (t: Cpu)
    requires |xs| == |ys| <= 256 && s.Valid() && s.d == 0 && s.pc == CODE && s.mem == Image(xs, ys)
    ensures Run(StepOf(NO_DEVICE), s, 2 + 6 * |xs|) == Ok(t) && t.Valid() && Field(t, W, |xs|) == xs
    ensures t.c == 0 <==> Le(xs) + Le(ys) >= Pow256(|xs|)
  {
    ImageIsProgram(s, xs, ys);
    ImageOperands(s, xs, ys);
    hide Image, ThereAndBack, StepOf, Run, Field, Le, Pow256;
    t := AddThenSubtractRun(NO_DEVICE, s, X, Y, Z, W, |xs|);
  }

  /** And there is such a memory for every two numbers. */
  lemma ImageIsMemory(xs: seq<Byte>, ys: seq<Byte>)
    requires |xs| == |ys| <= 256
    ensures ValidMemory(Image(xs, ys))
  {
    forall k | 0 <= k < MEM_SIZE
      ensures IsByte(ImageByte(xs, ys, k))
    {
      hide Image;
    }
  }
}
