/** The trampoline that tabulates a routine over all 256 values of A, stepped by
    the interpreter. */
module SweepTrampoline {
  import opened Results
  import opened Mos6502Spec
  import opened Mos6502Runs
  import opened Mos6502Steps

  const BASE: int := 0x0370
  const LOOP: int := 0x0372
  const CALL: int := 0x0373      // the JSR
  const STORE: int := 0x0376
  const BRANCH: int := 0x0380
  const LEAVE: int := 0x0382     // the RTS
  const END: int := 0x0383
  const VALUES: int := 0xC000
  const CARRIES: int := 0xC100
  const TABLES_END: int := 0xC200

  function BuildHexDigitSweepTrampoline(addr: int): seq<int> {
    [0xA2, 0x00,
     0x8A,
     0x20, addr % 256, addr / 256 % 256,
     0x9D, 0x00, 0xC0,
     0xA9, 0x00,
     0x2A,
     0x9D, 0x00, 0xC1,
     0xE8,
     0xD0, 0xF0,
     0x60]
  }

  /** The machine, the routine, what it computes from A, and what it needs of the
      machine it is entered on. */
  datatype Sweep = Sweep(
    dev: Device, target: int, sp: int, ret: int,
    value: int -> int, carry: int -> int, ready: Cpu -> bool)
  {
    ghost predicate Valid() {
      && IsByte(sp) && 0 <= target < MEM_SIZE && 0 <= ret < MEM_SIZE
      && (forall w :: BASE <= w < END + 2 ==> !dev.Covers(w))
      && (forall w :: VALUES <= w < TABLES_END ==> !dev.Covers(w))
      && forall s: Cpu, t: Cpu {:trigger OwnMoves(s, t)} :: ready(s) && OwnMoves(s, t) ==> ready(t)
    }

    /** t differs from s only in what the trampoline itself uses: A, X, C, Z, N, pc, sp,
        the cycle counts, both tables and the two stack bytes of its JSR. */
    ghost predicate OwnMoves(s: Cpu, t: Cpu) {
      && IsByte(sp) && s.Valid() && t.Valid()
      && t == s.(a := t.a, x := t.x, c := t.c, z := t.z, n := t.n, pc := t.pc, sp := t.sp,
                 cycles := t.cycles, instructions := t.instructions, mem := t.mem)
      && forall w | 0 <= w < MEM_SIZE && !(VALUES <= w < TABLES_END)
                    && w !in {0x100 + sp, 0x100 + (sp - 1) % 256} :: t.mem[w] == s.mem[w]
    }

    ghost predicate Installed(mem: seq<int>)
      requires |mem| == MEM_SIZE
    {
      mem[BASE..END] == BuildHexDigitSweepTrampoline(target)
    }

    ghost predicate CallerFrame(mem: seq<int>)
      requires |mem| == MEM_SIZE && IsByte(sp)
    {
      && mem[0x100 + (sp + 1) % 256] == ret % 256
      && mem[0x100 + (sp + 2) % 256] == ret / 256
    }

    ghost predicate Running(s: Cpu) {
      IsByte(sp) && s.Valid() && s.sp == sp && Installed(s.mem) && CallerFrame(s.mem) && ready(s)
    }

    ghost predicate Entry(e: Cpu) {
      && IsByte(sp) && e.Valid() && e.pc == target && e.sp == (sp - 2) % 256
      && Installed(e.mem) && CallerFrame(e.mem) && ready(e)
      && e.mem[0x100 + (sp - 1) % 256] == (STORE - 1) % 256
      && e.mem[0x100 + sp] == (STORE - 1) / 256
    }

    ghost predicate SameTables(m: seq<int>, m': seq<int>)
      requires |m| == MEM_SIZE && |m'| == MEM_SIZE
    {
      forall w :: VALUES <= w < TABLES_END ==> m'[w] == m[w]
    }

    /** k instructions after e the routine is back: A and C are its functions of the A
        it was given, X, the trampoline, the tables and the frame below are intact. */
    ghost predicate Returned(e: Cpu, k: nat) {
      && Entry(e) && Run(StepOf(dev), e, k).Ok?
      && var t := Run(StepOf(dev), e, k).value;
      && Avoids(StepOf(dev), e, k, BASE, END)
      && Avoids(StepOf(dev), e, k, RETURN_SENTINEL, RETURN_SENTINEL + 1)
      && t.Valid() && t.pc == STORE && t.sp == sp
      && t.a == value(e.a) && t.c == carry(e.a) && t.x == e.x
      && Installed(t.mem) && CallerFrame(t.mem) && ready(t) && SameTables(e.mem, t.mem)
    }

    ghost predicate RoutineReturns() {
      forall e: Cpu :: Entry(e) ==> exists k: nat :: Returned(e, k)
    }

    /** The first n rows of both tables are the routine's. */
    ghost predicate Filled(mem: seq<int>, n: int)
      requires |mem| == MEM_SIZE && n <= 256
    {
      forall j :: 0 <= j < n ==> mem[VALUES + j] == value(j) && mem[CARRIES + j] == carry(j)
    }
  }

  lemma LoadBytes(w: Sweep, s: Cpu)
    requires w.Valid() && w.Running(s)
    ensures var m := s.mem; m[0x370] == 0xA2 && m[0x371] == 0 && m[0x372] == 0x8A
  {
    var code := s.mem[BASE..END];
    assert code[0] == s.mem[0x370] && code[1] == s.mem[0x371] && code[2] == s.mem[0x372];
  }

  lemma CallBytes(w: Sweep, s: Cpu)
    requires w.Valid() && w.Running(s)
    ensures var m := s.mem; m[0x373] == 0x20 && m[0x374] == Lo(w.target) && m[0x375] == Hi(w.target)
  {
    var code := s.mem[BASE..END];
    assert code[3] == s.mem[0x373] && code[4] == s.mem[0x374] && code[5] == s.mem[0x375];
  }

  lemma ValueBytes(w: Sweep, s: Cpu)
    requires w.Valid() && w.Running(s)
    ensures var m := s.mem; m[0x376] == 0x9D && m[0x377] == 0x00 && m[0x378] == 0xC0
  {
    var code := s.mem[BASE..END];
    assert code[6] == s.mem[0x376] && code[7] == s.mem[0x377] && code[8] == s.mem[0x378];
  }

  lemma CarryBytes(w: Sweep, s: Cpu)
    requires w.Valid() && w.Running(s)
    ensures var m := s.mem; m[0x379] == 0xA9 && m[0x37A] == 0x00 && m[0x37B] == 0x2A
    ensures var m := s.mem; m[0x37C] == 0x9D && m[0x37D] == 0x00 && m[0x37E] == 0xC1
  {
    var code := s.mem[BASE..END];
    assert code[9] == s.mem[0x379] && code[10] == s.mem[0x37A] && code[11] == s.mem[0x37B];
    assert code[12] == s.mem[0x37C] && code[13] == s.mem[0x37D] && code[14] == s.mem[0x37E];
  }

  lemma NextBytes(w: Sweep, s: Cpu)
    requires w.Valid() && w.Running(s)
    ensures var m := s.mem; m[0x37F] == 0xE8 && m[0x380] == 0xD0 && m[0x381] == 0xF0 && m[0x382] == 0x60
  {
    var code := s.mem[BASE..END];
    assert code[15] == s.mem[0x37F] && code[16] == s.mem[0x380] && code[17] == s.mem[0x381];
    assert code[18] == s.mem[0x382];
  }

  /** A step that stores at most into the tables leaves the trampoline running. */
  lemma KeepsRunning(w: Sweep, s: Cpu, t: Cpu)
    requires w.Valid() && w.Running(s) && t.Valid() && t.sp == s.sp
    requires t == s.(a := t.a, x := t.x, c := t.c, z := t.z, n := t.n, pc := t.pc,
                     cycles := t.cycles, instructions := t.instructions, mem := t.mem)
    requires forall k | 0 <= k < MEM_SIZE && !(VALUES <= k < TABLES_END) :: t.mem[k] == s.mem[k]
    ensures w.Running(t)
  {
    assert w.OwnMoves(s, t);
    assert t.mem[BASE..END] == s.mem[BASE..END];
  }

  lemma CallStep(w: Sweep, s: Cpu) returns (e: Cpu)
    requires w.Valid() && w.Running(s) && s.pc == CALL
    ensures StepOf(w.dev)(s) == Ok(e) && w.Entry(e) && e.a == s.a && e.x == s.x
    ensures w.SameTables(s.mem, e.mem)
  {
    hide StepOf, Enter, BuildHexDigitSweepTrampoline;
    CallBytes(w, s);
    JsrAbs(w.dev, s, w.target);
    e := Enter(Past(s, 3, 6), w.target);
    EnterPushes(Past(s, 3, 6), w.target);
    FrameApart(w.sp);
    assert e.mem[BASE..END] == s.mem[BASE..END];
    assert w.OwnMoves(s, e);
  }

  /** txa / jsr: the routine runs once, on A = X. */
  lemma OneCall(w: Sweep, s: Cpu) returns (k: nat, t: Cpu)
    requires w.Valid() && w.RoutineReturns() && w.Running(s) && s.pc == LOOP
    ensures Path(StepOf(w.dev), s, k, t, CALL, 1)
    ensures w.Running(t) && t.pc == STORE && t.x == s.x && w.SameTables(s.mem, t.mem)
    ensures t.a == w.value(s.x) && t.c == w.carry(s.x)
  {
    hide StepOf, BuildHexDigitSweepTrampoline;
    var step := StepOf(w.dev);
    LoadBytes(w, s);
    TxaImp(w.dev, s);
    var s1 := ZN(Past(s, 1, 2).(a := s.x), s.x);
    KeepsRunning(w, s, s1);
    var e := CallStep(w, s1);
    var j: nat :| w.Returned(e, j);
    t := Run(step, e, j).value;
    k := 2 + j;
    PathStep(step, s, s1, CALL);
    PathStep(step, s1, e, CALL);
    PathJoin(step, s, 1, s1, 0, 1, e, 1, CALL);
    AvoidedIsUnvisited(step, e, j, BASE, END, CALL);
    PathJoin(step, s, 2, e, 1, j, t, 0, CALL);
  }

  /** sta VALUES,x */
  lemma StoreValue(w: Sweep, s: Cpu) returns (t: Cpu)
    requires w.Valid() && w.Running(s) && s.pc == STORE
    ensures Path(StepOf(w.dev), s, 1, t, CALL, 0)
    ensures w.Running(t) && t.pc == STORE + 3 && t.x == s.x && t.c == s.c
    ensures t.mem == s.mem[VALUES + s.x := s.a]
  {
    hide StepOf, BuildHexDigitSweepTrampoline;
    ValueBytes(w, s);
    StaAbx(w.dev, s, VALUES);
    t := Past(s, 3, 5).(mem := s.mem[VALUES + s.x := s.a]);
    PathStep(StepOf(w.dev), s, t, CALL);
    KeepsRunning(w, s, t);
  }

  /** lda #0 / rol a / sta CARRIES,x: the carry flag becomes a table entry. */
  lemma StoreCarry(w: Sweep, s: Cpu) returns (t: Cpu)
    requires w.Valid() && w.Running(s) && s.pc == STORE + 3
    ensures Path(StepOf(w.dev), s, 3, t, CALL, 0)
    ensures w.Running(t) && t.pc == STORE + 9 && t.x == s.x
    ensures t.mem == s.mem[CARRIES + s.x := s.c]
  {
    hide StepOf, BuildHexDigitSweepTrampoline;
    var step := StepOf(w.dev);
    CarryBytes(w, s);
    LdaImm(w.dev, s, 0);
    var s1 := ZN(Past(s, 2, 2).(a := 0), 0);
    RolAcc(w.dev, s1);
    var s2 := ZN(Past(s1, 1, 2).(a := s1.c, c := 0), s1.c);
    StaAbx(w.dev, s2, CARRIES);
    t := Past(s2, 3, 5).(mem := s.mem[CARRIES + s.x := s.c]);
    PathStep(step, s, s1, CALL);
    PathStep(step, s1, s2, CALL);
    PathStep(step, s2, t, CALL);
    PathJoin(step, s, 1, s1, 0, 1, s2, 0, CALL);
    PathJoin(step, s, 2, s2, 0, 1, t, 0, CALL);
    KeepsRunning(w, s, t);
  }

  /** inx / bne: back to the loop until X wraps to zero. */
  lemma NextRow(w: Sweep, s: Cpu) returns (t: Cpu)
    requires w.Valid() && w.Running(s) && s.pc == STORE + 9
    ensures Path(StepOf(w.dev), s, 2, t, CALL, 0)
    ensures w.Running(t) && t.mem == s.mem && t.x == (s.x + 1) % 256
    ensures t.pc == if s.x == 255 then LEAVE else LOOP
  {
    var step := StepOf(w.dev);
    NextBytes(w, s);
    InxImp(w.dev, s);
    var v := (s.x + 1) % 256;
    var s1 := ZN(Past(s, 1, 2).(x := v), v);
    Bne(w.dev, s1, 0xF0);
    t := step(s1).value;
    hide StepOf;
    PathStep(step, s, s1, CALL);
    PathStep(step, s1, t, CALL);
    PathJoin(step, s, 1, s1, 0, 1, t, 0, CALL);
    KeepsRunning(w, s, t);
  }

  lemma AddRow(w: Sweep, m: seq<int>, m1: seq<int>, c: int)
    requires |m| == MEM_SIZE && |m1| == MEM_SIZE && IsByte(c)
    requires w.Filled(m, c) && w.SameTables(m, m1)
    ensures w.Filled(m1[VALUES + c := w.value(c)][CARRIES + c := w.carry(c)], c + 1)
  {
  }

  /** One pass of the loop fills row X of both tables. */
  lemma OneRow(w: Sweep, s: Cpu) returns (k: nat, t: Cpu)
    requires w.Valid() && w.RoutineReturns() && w.Running(s) && s.pc == LOOP && w.Filled(s.mem, s.x)
    ensures Path(StepOf(w.dev), s, k, t, CALL, 1)
    ensures w.Running(t) && w.Filled(t.mem, s.x + 1) && t.x == (s.x + 1) % 256
    ensures t.pc == if s.x == 255 then LEAVE else LOOP
  {
    hide StepOf, Path, BuildHexDigitSweepTrampoline;
    var step := StepOf(w.dev);
    var k1, s1 := OneCall(w, s);
    var s2 := StoreValue(w, s1);
    var s3 := StoreCarry(w, s2);
    t := NextRow(w, s3);
    AddRow(w, s.mem, s1.mem, s.x);
    PathJoin(step, s, k1, s1, 1, 1, s2, 0, CALL);
    PathJoin(step, s, k1 + 1, s2, 1, 3, s3, 0, CALL);
    PathJoin(step, s, k1 + 4, s3, 1, 2, t, 0, CALL);
    k := k1 + 6;
  }

  lemma {:induction false} Rows(w: Sweep, s: Cpu) returns (k: nat, t: Cpu)
    requires w.Valid() && w.RoutineReturns() && w.Running(s) && s.pc == LOOP && w.Filled(s.mem, s.x)
    ensures Path(StepOf(w.dev), s, k, t, CALL, 256 - s.x)
    ensures w.Running(t) && w.Filled(t.mem, 256) && t.pc == LEAVE
    decreases 256 - s.x
  {
    hide StepOf;
    k, t := OneRow(w, s);
    if s.x < 255 {
      var k2, s2 := Rows(w, t);
      PathJoin(StepOf(w.dev), s, k, t, 1, k2, s2, 255 - s.x, CALL);
      k, t := k + k2, s2;
    }
  }

  /** Entered at its first byte, the trampoline runs the routine exactly 256 times,
      leaves its value and its carry for every c at VALUES+c and CARRIES+c, and
      returns to its caller with the stack pointer balanced. */
  lemma SweepTabulates(w: Sweep, s: Cpu) returns (k: nat, t: Cpu)
    requires w.Valid() && w.RoutineReturns() && w.Running(s) && s.pc == BASE
    ensures Path(StepOf(w.dev), s, k, t, CALL, 256)
    ensures t.Valid() && t.pc == (w.ret + 1) % MEM_SIZE && t.sp == (w.sp + 2) % 256
    ensures forall c :: 0 <= c < 256 ==> t.mem[VALUES + c] == w.value(c) && t.mem[CARRIES + c] == w.carry(c)
  {
    hide StepOf, BuildHexDigitSweepTrampoline;
    var step := StepOf(w.dev);
    LoadBytes(w, s);
    LdxImm(w.dev, s, 0);
    var s1 := ZN(Past(s, 2, 2).(x := 0), 0);
    PathStep(step, s, s1, CALL);
    KeepsRunning(w, s, s1);
    var k2, s2 := Rows(w, s1);
    PathJoin(step, s, 1, s1, 0, k2, s2, 256, CALL);
    t := ReturnStep(w, s2);
    PathStep(step, s2, t, CALL);
    PathJoin(step, s, 1 + k2, s2, 256, 1, t, 0, CALL);
    k := 1 + k2 + 1;
  }

  lemma ReturnStep(w: Sweep, s: Cpu) returns (t: Cpu)
    requires w.Valid() && w.Running(s) && s.pc == LEAVE
    ensures StepOf(w.dev)(s) == Ok(t)
    ensures t.Valid() && t.pc == (w.ret + 1) % MEM_SIZE && t.sp == (w.sp + 2) % 256 && t.mem == s.mem
  {
    hide StepOf, Rts, BuildHexDigitSweepTrampoline;
    NextBytes(w, s);
    RtsImp(w.dev, s);
    t := Rts(Past(s, 1, 6));
    RtsPops(Past(s, 1, 6));
  }

  ghost predicate ClearsCarry(w: Sweep) {
    && 0 <= w.target && w.target + 4 < MEM_SIZE
    && (w.target + 1 < BASE || END <= w.target)
    && (w.target + 1 < RETURN_SENTINEL || RETURN_SENTINEL < w.target)
    && !w.dev.Covers(w.target) && !w.dev.Covers(w.target + 1)
    && (forall a :: IsByte(a) ==> w.value(a) == a && w.carry(a) == 0)
    && forall e: Cpu :: e.Valid() && w.ready(e) ==> e.mem[w.target] == 0x18 && e.mem[w.target + 1] == 0x60
  }

  /** The hypothesis is met: `clc / rts` in plain memory returns from every entry, as
      the routine that keeps A and clears the carry. */
  lemma ClcRtsReturns(w: Sweep)
    requires w.Valid() && ClearsCarry(w)
    ensures w.RoutineReturns()
  {
    forall e: Cpu | w.Entry(e)
      ensures exists k: nat :: w.Returned(e, k)
    {
      ClcRtsOnce(w, e);
    }
  }

  lemma ClcRtsOnce(w: Sweep, e: Cpu)
    requires w.Valid() && ClearsCarry(w) && w.Entry(e)
    ensures w.Returned(e, 2)
  {
    hide StepOf, Rts, BuildHexDigitSweepTrampoline;
    var step := StepOf(w.dev);
    ClcImp(w.dev, e);
    var e1 := Past(e, 1, 2).(c := 0);
    RtsImp(w.dev, e1);
    RtsGoesBack(Past(e1, 1, 6), w.sp, STORE - 1);
    var t := Rts(Past(e1, 1, 6));
    TwoSteps(step, e, e1, t, BASE, END);
    TwoSteps(step, e, e1, t, RETURN_SENTINEL, RETURN_SENTINEL + 1);
    assert w.OwnMoves(e, t);
    hide Run, Avoids;
  }

  // ---- one sweep in full --------------------------------------------------

  const ROUTINE: int := 0x4000

  /** A sweep of `clc / rts` at 0x4000 with no device. */
  function ClcSweep(sp: int): (w: Sweep)
    requires IsByte(sp)
  {
    Sweep(Device(0, 0, (h, v, a) => None, (h, v, a, x) => false), ROUTINE, sp, RETURN_SENTINEL - 1,
          a => a, a => 0,
          (s: Cpu) => |s.mem| == MEM_SIZE && s.mem[ROUTINE] == 0x18 && s.mem[ROUTINE + 1] == 0x60)
  }

  /** The memory it needs: the trampoline, the routine, and zero elsewhere. */
  function ClcMemory(): (mem: seq<int>)
    ensures ValidMemory(mem)
    ensures mem[ROUTINE] == 0x18 && mem[ROUTINE + 1] == 0x60
    ensures mem[BASE..END] == BuildHexDigitSweepTrampoline(ROUTINE)
  {
    var code := BuildHexDigitSweepTrampoline(ROUTINE);
    assert forall k :: 0 <= k < |code| ==> IsByte(code[k]);
    var mem := seq(MEM_SIZE, k => if BASE <= k < END then code[k - BASE]
                                  else if k == ROUTINE then 0x18 else if k == ROUTINE + 1 then 0x60 else 0);
    assert mem[BASE..END] == code;
    mem
  }

  lemma ClcSweepHolds(sp: int)
    requires IsByte(sp)
    ensures ClcSweep(sp).Valid() && ClearsCarry(ClcSweep(sp))
  {
    var w := ClcSweep(sp);
    forall s: Cpu, t: Cpu {:trigger w.OwnMoves(s, t)} | w.ready(s) && w.OwnMoves(s, t)
      ensures w.ready(t)
    {
      assert t.mem[ROUTINE] == s.mem[ROUTINE] && t.mem[ROUTINE + 1] == s.mem[ROUTINE + 1];
    }
  }

  lemma CalledTrampoline(s: Cpu)
    requires s.Valid() && s.mem == ClcMemory()
    ensures ClcSweep((s.sp - 2) % 256).Running(Called(s, BASE)) && Called(s, BASE).pc == BASE
    ensures ((s.sp - 2) % 256 + 2) % 256 == s.sp
  {
    var e := Called(s, BASE);
    var mem := ClcMemory();
    hide ClcMemory, BuildHexDigitSweepTrampoline;
    assert e.mem[BASE..END] == mem[BASE..END];
  }

  /** What the two tables hold for c. */
  function Row(mem: seq<int>, c: int): (int, int)
    requires |mem| == MEM_SIZE && 0 <= c < 256
  {
    (mem[VALUES + c], mem[CARRIES + c])
  }

  lemma ClcRows(sp: int, mem: seq<int>)
    requires IsByte(sp) && |mem| == MEM_SIZE
    requires forall c :: 0 <= c < 256 ==>
               mem[VALUES + c] == ClcSweep(sp).value(c) && mem[CARRIES + c] == ClcSweep(sp).carry(c)
    ensures forall c :: 0 <= c < 256 ==> Row(mem, c) == (c, 0)
  {
    forall c | 0 <= c < 256
      ensures Row(mem, c) == (c, 0)
    {
      assert mem[VALUES + c] == ClcSweep(sp).value(c) && mem[CARRIES + c] == ClcSweep(sp).carry(c);
    }
  }

  /** Nothing is assumed here: from any registers and flags, the trampoline called in this
      memory leaves every c at VALUES+c and zero at CARRIES+c, and comes back to the
      sentinel with the stack pointer balanced. */
  lemma ClcSweepTabulates(s: Cpu) returns (k: nat, t: Cpu)
    requires s.Valid() && s.mem == ClcMemory()
    ensures Path(StepOf(ClcSweep((s.sp - 2) % 256).dev), Called(s, BASE), k, t, CALL, 256)
    ensures t.Valid() && t.pc == RETURN_SENTINEL && t.sp == s.sp
    ensures forall c :: 0 <= c < 256 ==> Row(t.mem, c) == (c, 0)
  {
    hide Sweep.Valid, Sweep.Running, Sweep.RoutineReturns, Called, ClcMemory, ClcSweep, Path, StepOf, Row;
    ClcSweepReady(s);
    k, t := SweepTabulates(ClcSweep((s.sp - 2) % 256), Called(s, BASE));
    ClcRows((s.sp - 2) % 256, t.mem);
  }

  lemma ClcSweepReady(s: Cpu)
    requires s.Valid() && s.mem == ClcMemory()
    ensures IsByte((s.sp - 2) % 256)
    ensures var w := ClcSweep((s.sp - 2) % 256);
      && w.Valid() && w.RoutineReturns() && w.Running(Called(s, BASE)) && Called(s, BASE).pc == BASE
      && (w.ret + 1) % MEM_SIZE == RETURN_SENTINEL && (w.sp + 2) % 256 == s.sp
  {
    var w := ClcSweep((s.sp - 2) % 256);
    ClcSweepHolds((s.sp - 2) % 256);
    CalledTrampoline(s);
    ClcRtsReturns(w);
    hide Called, ClcMemory, Sweep.Valid, Sweep.RoutineReturns, Sweep.Running;
  }
}
