/** The call-N-times stub of the blanking benchmark, stepped by the interpreter. */
module LoopStub {
  import opened Results
  import opened Mos6502Spec
  import opened Mos6502Runs
  import opened Mos6502Steps

  const STUB: int := 0xC000
  const STUB_END: int := 0xC018
  const CNT_OUTER: int := 0xC020
  const CNT_INNER: int := 0xC021

  const OUTER_LOOP: int := 0xC005
  const INNER_LOOP: int := 0xC00A   // the JSR
  const AFTER_CALL: int := 0xC00D
  const INNER_DONE: int := 0xC012
  const OUTER_DONE: int := 0xC017   // the RTS

  /** The assembled stub; a count that is not a byte is refused. */
  function BuildLoopStub(target: int, outer: int, inner: int): Option<seq<int>> {
    if !IsByte(outer) || !IsByte(inner) then None
    else Some([
      0xA9, outer,
      0x8D, CNT_OUTER % 256, 0xC0,
      0xA9, inner,
      0x8D, CNT_INNER % 256, 0xC0,
      0x20, target % 256, target / 256 % 256,
      0xCE, CNT_INNER % 256, 0xC0,
      0xD0, 0xF8,
      0xCE, CNT_OUTER % 256, 0xC0,
      0xD0, 0xEE,
      0x60])
  }

  /** How often a loop that decrements a byte until it is zero runs its body. */
  function Times(count: int): (n: nat)
    requires IsByte(count)
    ensures 1 <= n <= 256
  {
    if count == 0 then 256 else count
  }

  /** What a benchmark fixes: the machine, the routine, the counts, and what the
      routine needs of the machine it is entered on (its own code in memory, say). */
  datatype Bench = Bench(
    dev: Device, target: int, outer: int, inner: int, sp: int, ret: int, ready: Cpu -> bool)
  {
    ghost predicate Valid() {
      && IsByte(outer) && IsByte(inner) && IsByte(sp)
      && 0 <= target < MEM_SIZE && 0 <= ret < MEM_SIZE
      && (forall a :: STUB <= a <= CNT_INNER ==> !dev.Covers(a))
      && forall s: Cpu, t: Cpu {:trigger StubMoves(s, t)} :: ready(s) && StubMoves(s, t) ==> ready(t)
    }

    /** t differs from s only in what the stub itself uses: A, two flags, pc, sp, the
        cycle counts, both counters and the two stack bytes of its JSR. */
    ghost predicate StubMoves(s: Cpu, t: Cpu) {
      && IsByte(sp) && s.Valid() && t.Valid()
      && t == s.(a := t.a, z := t.z, n := t.n, pc := t.pc, sp := t.sp,
                 cycles := t.cycles, instructions := t.instructions, mem := t.mem)
      && forall w | 0 <= w < MEM_SIZE && w !in {CNT_OUTER, CNT_INNER, 0x100 + sp, 0x100 + (sp - 1) % 256} ::
           t.mem[w] == s.mem[w]
    }

    /** The assembled bytes are in place. */
    ghost predicate Installed(mem: seq<int>)
      requires |mem| == MEM_SIZE
    {
      BuildLoopStub(target, outer, inner) == Some(mem[STUB..STUB_END])
    }

    /** The stub's own return address is the one its caller pushed. */
    ghost predicate CallerFrame(mem: seq<int>)
      requires |mem| == MEM_SIZE && IsByte(sp)
    {
      && mem[0x100 + (sp + 1) % 256] == ret % 256
      && mem[0x100 + (sp + 2) % 256] == ret / 256
    }

    /** The stub is running: its code and its caller's frame are intact. */
    ghost predicate Running(s: Cpu) {
      IsByte(sp) && s.Valid() && s.sp == sp && Installed(s.mem) && CallerFrame(s.mem) && ready(s)
    }

    /** e is the machine as the routine under test finds it on entry. */
    ghost predicate Entry(e: Cpu) {
      && IsByte(sp) && e.Valid() && e.pc == target && e.sp == (sp - 2) % 256
      && Installed(e.mem) && CallerFrame(e.mem) && ready(e)
      && e.mem[0x100 + (sp - 1) % 256] == (AFTER_CALL - 1) % 256
      && e.mem[0x100 + sp] == (AFTER_CALL - 1) / 256
    }

    /** k instructions after e the routine has returned, stack balanced, having run
        outside the stub and left alone its code, both counters and the frame below. */
    ghost predicate Returned(e: Cpu, k: nat) {
      && Entry(e) && Run(StepOf(dev), e, k).Ok?
      && var t := Run(StepOf(dev), e, k).value;
      && Avoids(StepOf(dev), e, k, STUB, STUB_END)
      && Avoids(StepOf(dev), e, k, RETURN_SENTINEL, RETURN_SENTINEL + 1)
      && t.Valid() && t.pc == AFTER_CALL && t.sp == sp
      && Installed(t.mem) && CallerFrame(t.mem) && ready(t)
      && t.mem[CNT_OUTER] == e.mem[CNT_OUTER] && t.mem[CNT_INNER] == e.mem[CNT_INNER]
    }

    /** The routine comes back from every entry. */
    ghost predicate RoutineReturns() {
      forall e: Cpu :: Entry(e) ==> exists k: nat :: Returned(e, k)
    }
  }

  lemma OuterSetup(b: Bench, s: Cpu)
    requires b.Valid() && b.Running(s)
    ensures var m := s.mem; m[0xC000] == 0xA9 && m[0xC001] == b.outer && m[0xC002] == 0x8D && m[0xC003] == 0x20 && m[0xC004] == 0xC0
  {
    var code := s.mem[STUB..STUB_END];
    assert code[0] == s.mem[0xC000] && code[1] == s.mem[0xC001] && code[2] == s.mem[0xC002] && code[3] == s.mem[0xC003] && code[4] == s.mem[0xC004];
  }

  lemma InnerSetup(b: Bench, s: Cpu)
    requires b.Valid() && b.Running(s)
    ensures var m := s.mem; m[0xC005] == 0xA9 && m[0xC006] == b.inner && m[0xC007] == 0x8D && m[0xC008] == 0x21 && m[0xC009] == 0xC0
  {
    var code := s.mem[STUB..STUB_END];
    assert code[5] == s.mem[0xC005] && code[6] == s.mem[0xC006] && code[7] == s.mem[0xC007] && code[8] == s.mem[0xC008] && code[9] == s.mem[0xC009];
  }

  lemma CallBytes(b: Bench, s: Cpu)
    requires b.Valid() && b.Running(s)
    ensures var m := s.mem; m[0xC00A] == 0x20 && m[0xC00B] == Lo(b.target) && m[0xC00C] == Hi(b.target)
  {
    var code := s.mem[STUB..STUB_END];
    assert code[10] == s.mem[0xC00A] && code[11] == s.mem[0xC00B] && code[12] == s.mem[0xC00C];
  }

  lemma InnerCount(b: Bench, s: Cpu)
    requires b.Valid() && b.Running(s)
    ensures var m := s.mem; m[0xC00D] == 0xCE && m[0xC00E] == 0x21 && m[0xC00F] == 0xC0 && m[0xC010] == 0xD0 && m[0xC011] == 0xF8
  {
    var code := s.mem[STUB..STUB_END];
    assert code[13] == s.mem[0xC00D] && code[14] == s.mem[0xC00E] && code[15] == s.mem[0xC00F] && code[16] == s.mem[0xC010] && code[17] == s.mem[0xC011];
  }

  lemma OuterCount(b: Bench, s: Cpu)
    requires b.Valid() && b.Running(s)
    ensures var m := s.mem; m[0xC012] == 0xCE && m[0xC013] == 0x20 && m[0xC014] == 0xC0 && m[0xC015] == 0xD0 && m[0xC016] == 0xEE
  {
    var code := s.mem[STUB..STUB_END];
    assert code[18] == s.mem[0xC012] && code[19] == s.mem[0xC013] && code[20] == s.mem[0xC014] && code[21] == s.mem[0xC015] && code[22] == s.mem[0xC016];
  }

  lemma ReturnBytes(b: Bench, s: Cpu)
    requires b.Valid() && b.Running(s)
    ensures var m := s.mem; m[0xC017] == 0x60
  {
    var code := s.mem[STUB..STUB_END];
    assert code[23] == s.mem[0xC017];
  }

  /** A write outside the code and the frame leaves the stub running. */
  lemma KeepsRunning(b: Bench, s: Cpu, t: Cpu, w: int)
    requires b.Valid() && b.Running(s) && t.Valid() && t.sp == s.sp
    requires t == s.(a := t.a, z := t.z, n := t.n, pc := t.pc, cycles := t.cycles,
                     instructions := t.instructions, mem := t.mem)
    requires CNT_OUTER <= w <= CNT_INNER && t.mem == s.mem[w := t.mem[w]]
    ensures b.Running(t)
  {
    assert b.StubMoves(s, t);
    assert t.mem[STUB..STUB_END] == s.mem[STUB..STUB_END];
  }

  /** lda #v / sta w: a counter is set. */
  lemma CounterSteps(b: Bench, s: Cpu, v: int, w: int) returns (t: Cpu)
    requires b.Valid() && b.Running(s) && IsByte(v) && CNT_OUTER <= w <= CNT_INNER
    requires (s.pc == STUB && v == b.outer && w == CNT_OUTER)
             || (s.pc == OUTER_LOOP && v == b.inner && w == CNT_INNER)
    ensures s.Valid() && Past(s, 2, 2).(a := v).Valid()
    ensures var s1 := ZN(Past(s, 2, 2).(a := v), v);
      && StepOf(b.dev)(s) == Ok(s1) && StepOf(b.dev)(s1) == Ok(t) && s1.pc == s.pc + 2
      && t == Past(s1, 3, 4).(mem := s.mem[w := v])
  {
    if s.pc == STUB { OuterSetup(b, s); } else { InnerSetup(b, s); }
    LdaImm(b.dev, s, v);
    var s1 := ZN(Past(s, 2, 2).(a := v), v);
    StaAbs(b.dev, s1, w);
    t := Past(s1, 3, 4).(mem := s1.mem[w := s1.a]);
  }

  lemma SetCounter(b: Bench, s: Cpu, v: int, w: int) returns (t: Cpu)
    requires b.Valid() && b.Running(s) && IsByte(v) && CNT_OUTER <= w <= CNT_INNER
    requires (s.pc == STUB && v == b.outer && w == CNT_OUTER)
             || (s.pc == OUTER_LOOP && v == b.inner && w == CNT_INNER)
    ensures Path(StepOf(b.dev), s, 2, t, INNER_LOOP, 0)
    ensures b.Running(t) && t.pc == s.pc + 5 && t.mem == s.mem[w := v]
  {
    var step := StepOf(b.dev);
    t := CounterSteps(b, s, v, w);
    var s1 := ZN(Past(s, 2, 2).(a := v), v);
    hide StepOf, ZN, Path;
    TwoQuietSteps(step, s, s1, t);
    KeepsRunning(b, s, t, w);
  }

  /** dec w / bne: falls through exactly when the counter reaches zero. */
  /** Two steps, neither of them the call. */
  lemma TwoQuietSteps(step: Stepper, s: Cpu, u: Cpu, t: Cpu)
    requires step(s) == Ok(u) && step(u) == Ok(t)
    requires s.pc !in {INNER_LOOP, RETURN_SENTINEL} && u.pc !in {INNER_LOOP, RETURN_SENTINEL}
    ensures Path(step, s, 2, t, INNER_LOOP, 0)
  {
    hide Path;
    PathStep(step, s, u, INNER_LOOP);
    PathStep(step, u, t, INNER_LOOP);
    PathJoin(step, s, 1, u, 0, 1, t, 0, INNER_LOOP);
  }

  lemma CountDown(b: Bench, s: Cpu, w: int, back: int) returns (t: Cpu)
    requires b.Valid() && b.Running(s)
    requires (s.pc == AFTER_CALL && w == CNT_INNER && back == INNER_LOOP)
             || (s.pc == INNER_DONE && w == CNT_OUTER && back == OUTER_LOOP)
    ensures Path(StepOf(b.dev), s, 2, t, INNER_LOOP, 0)
    ensures b.Running(t)
    ensures var v := (s.mem[w] - 1) % 256;
      t.mem == s.mem[w := v] && t.pc == if v == 0 then s.pc + 5 else back
  {
    var step := StepOf(b.dev);
    if s.pc == AFTER_CALL { InnerCount(b, s); } else { OuterCount(b, s); }
    DecAbs(b.dev, s, w);
    var v := (s.mem[w] - 1) % 256;
    var s1 := ZN(Past(s, 3, 6), v).(mem := s.mem[w := v]);
    KeepsRunning(b, s, s1, w);
    if s.pc == AFTER_CALL { InnerCount(b, s1); } else { OuterCount(b, s1); }
    Bne(b.dev, s1, if w == CNT_INNER then 0xF8 else 0xEE);
    t := step(s1).value;
    hide StepOf, ZN, Path;
    TwoQuietSteps(step, s, s1, t);
    KeepsRunning(b, s1, t, w);
  }

  lemma CallStep(b: Bench, s: Cpu) returns (e: Cpu)
    requires b.Valid() && b.Running(s) && s.pc == INNER_LOOP
    ensures StepOf(b.dev)(s) == Ok(e) && b.Entry(e)
    ensures e.mem[CNT_OUTER] == s.mem[CNT_OUTER] && e.mem[CNT_INNER] == s.mem[CNT_INNER]
  {
    hide StepOf, Enter, BuildLoopStub;
    CallBytes(b, s);
    JsrAbs(b.dev, s, b.target);
    e := Enter(Past(s, 3, 6), b.target);
    EnterPushes(Past(s, 3, 6), b.target);
    FrameApart(b.sp);
    assert e.mem[STUB..STUB_END] == s.mem[STUB..STUB_END];
    assert b.StubMoves(s, e);
  }

  lemma ReturnStep(b: Bench, s: Cpu) returns (t: Cpu)
    requires b.Valid() && b.Running(s) && s.pc == OUTER_DONE
    ensures StepOf(b.dev)(s) == Ok(t)
    ensures t.Valid() && t.pc == (b.ret + 1) % MEM_SIZE && t.sp == (b.sp + 2) % 256
  {
    hide StepOf, Rts, BuildLoopStub;
    ReturnBytes(b, s);
    RtsImp(b.dev, s);
    t := Rts(Past(s, 1, 6));
    RtsPops(Past(s, 1, 6));
  }

  /** jsr target, up to the routine's return: one entry. */
  lemma OneCall(b: Bench, s: Cpu) returns (k: nat, t: Cpu)
    requires b.Valid() && b.RoutineReturns() && b.Running(s) && s.pc == INNER_LOOP
    ensures Path(StepOf(b.dev), s, k, t, INNER_LOOP, 1)
    ensures b.Running(t) && t.pc == AFTER_CALL
    ensures t.mem[CNT_OUTER] == s.mem[CNT_OUTER] && t.mem[CNT_INNER] == s.mem[CNT_INNER]
  {
    hide StepOf, BuildLoopStub;
    var step := StepOf(b.dev);
    var e := CallStep(b, s);
    var j: nat :| b.Returned(e, j);
    t := Run(step, e, j).value;
    k := 1 + j;
    PathStep(step, s, e, INNER_LOOP);
    AvoidedIsUnvisited(step, e, j, STUB, STUB_END, INNER_LOOP);
    PathJoin(step, s, 1, e, 1, j, t, 0, INNER_LOOP);
  }

  lemma {:induction false} InnerLoop(b: Bench, s: Cpu) returns (k: nat, t: Cpu)
    requires b.Valid() && b.RoutineReturns() && b.Running(s) && s.pc == INNER_LOOP
    ensures Path(StepOf(b.dev), s, k, t, INNER_LOOP, Times(s.mem[CNT_INNER]))
    ensures b.Running(t) && t.pc == INNER_DONE && t.mem[CNT_OUTER] == s.mem[CNT_OUTER]
    decreases Times(s.mem[CNT_INNER])
  {
    hide StepOf, Path, BuildLoopStub;
    var step := StepOf(b.dev);
    var k1, s1 := OneCall(b, s);
    var s2 := CountDown(b, s1, CNT_INNER, INNER_LOOP);
    PathJoin(step, s, k1, s1, 1, 2, s2, 0, INNER_LOOP);
    k, t := k1 + 2, s2;
    if s2.pc == INNER_LOOP {
      var k3, s3 := InnerLoop(b, s2);
      PathJoin(step, s, k, s2, 1, k3, s3, Times(s2.mem[CNT_INNER]), INNER_LOOP);
      k, t := k + k3, s3;
    }
  }

  lemma {:induction false} OuterLoop(b: Bench, s: Cpu) returns (k: nat, t: Cpu)
    requires b.Valid() && b.RoutineReturns() && b.Running(s) && s.pc == OUTER_LOOP
    ensures Path(StepOf(b.dev), s, k, t, INNER_LOOP, Times(s.mem[CNT_OUTER]) * Times(b.inner))
    ensures b.Running(t) && t.pc == OUTER_DONE
    decreases Times(s.mem[CNT_OUTER])
  {
    hide StepOf, Times, Path, BuildLoopStub;
    hide Bench.RoutineReturns, Bench.StubMoves, Bench.Installed, Bench.CallerFrame;
    var step := StepOf(b.dev);
    var n := Times(b.inner);
    TimesDown(s.mem[CNT_OUTER]);
    var s1 := SetCounter(b, s, b.inner, CNT_INNER);
    var k2, s2 := InnerLoop(b, s1);
    PathJoin(step, s, 2, s1, 0, k2, s2, n, INNER_LOOP);
    var s3 := CountDown(b, s2, CNT_OUTER, OUTER_LOOP);
    PathJoin(step, s, 2 + k2, s2, n, 2, s3, 0, INNER_LOOP);
    k, t := 2 + k2 + 2, s3;
    if s3.pc == OUTER_LOOP {
      var k4, s4 := OuterLoop(b, s3);
      var more := Times(s3.mem[CNT_OUTER]);
      PathJoin(step, s, k, s3, n, k4, s4, more * n, INNER_LOOP);
      k, t := k + k4, s4;
      OneMoreRound(more, n);
    }
  }

  lemma TimesDown(count: int)
    requires IsByte(count)
    ensures Times(count) == if (count - 1) % 256 == 0 then 1 else 1 + Times((count - 1) % 256)
  {
  }

  lemma OneMoreRound(more: nat, n: nat)
    ensures n + more * n == (1 + more) * n
  {
  }

  /** Entered at its first byte, the stub enters the routine exactly outer * inner
      times, a count of 0 meaning 256, and then returns to its caller with the
      stack pointer where it was before that caller's JSR. */
  lemma StubCallsExactly(b: Bench, s: Cpu) returns (k: nat, t: Cpu)
    requires b.Valid() && b.RoutineReturns() && b.Running(s) && s.pc == STUB
    ensures Path(StepOf(b.dev), s, k, t, INNER_LOOP, Times(b.outer) * Times(b.inner))
    ensures t.Valid() && t.pc == (b.ret + 1) % MEM_SIZE && t.sp == (b.sp + 2) % 256
  {
    hide StepOf, Times, BuildLoopStub;
    var step := StepOf(b.dev);
    var n := Times(b.outer) * Times(b.inner);
    var s1 := SetCounter(b, s, b.outer, CNT_OUTER);
    var k2, s2 := OuterLoop(b, s1);
    t := ReturnStep(b, s2);
    PathJoin(step, s, 2, s1, 0, k2, s2, n, INNER_LOOP);
    PathStep(step, s2, t, INNER_LOOP);
    PathJoin(step, s, 2 + k2, s2, n, 1, t, 0, INNER_LOOP);
    k := 2 + k2 + 1;
  }

  lemma CalledStub(b: Bench, s: Cpu)
    requires s.Valid() && b.Valid() && b.Installed(s.mem) && b.ready(Called(s, STUB))
    requires b.sp == (s.sp - 2) % 256 && b.ret == RETURN_SENTINEL - 1
    ensures b.Running(Called(s, STUB)) && Called(s, STUB).pc == STUB && Called(s, STUB).cycles == s.cycles
  {
    var entry := Called(s, STUB);
    hide BuildLoopStub;
    assert entry.mem[STUB..STUB_END] == s.mem[STUB..STUB_END];
  }

  /** A call entered at `entry`, when `start` cycles had been used before it, returns after k
      instructions, n of them the stub's JSR, with the stack pointer at sp, given any budget of
      at least `needed` cycles. */
  ghost predicate CallTakes(dev: Device, entry: Cpu, start: int, k: nat, needed: nat, n: nat, sp: int) {
    && entry.Valid() && Visits(StepOf(dev), entry, k, INNER_LOOP) == n
    && Run(StepOf(dev), entry, k).Ok? && Run(StepOf(dev), entry, k).value.sp == sp
    && forall maxCycles :: maxCycles >= needed ==>
         Drive(StepOf(dev), entry, start, maxCycles) == Run(StepOf(dev), entry, k)
  }

  lemma PathTakes(dev: Device, entry: Cpu, start: int, k: nat, t: Cpu, n: nat)
    requires entry.Valid() && Path(StepOf(dev), entry, k, t, INNER_LOOP, n) && t.pc == RETURN_SENTINEL
    requires entry.cycles == start
    ensures t.cycles >= start && CallTakes(dev, entry, start, k, t.cycles - start, n, t.sp)
  {
    hide StepOf, Visits, Run, Drive, Path;
    PathReturns(StepOf(dev), entry, k, t, INNER_LOOP, n, start);
  }

  /** The benchmark's `call` of the stub therefore returns, given the cycles, to the
      sentinel after exactly outer * inner runs of the routine. */
  lemma CallOfStubReturns(b: Bench, s: Cpu) returns (k: nat, needed: nat)
    requires s.Valid() && b.Valid() && b.Installed(s.mem) && b.RoutineReturns()
    requires b.ready(Called(s, STUB))
    requires b.sp == (s.sp - 2) % 256 && b.ret == RETURN_SENTINEL - 1
    ensures CallTakes(b.dev, Called(s, STUB), s.cycles, k, needed, Times(b.outer) * Times(b.inner), s.sp)
  {
    hide StepOf, Path, CallTakes, Bench.Valid, Bench.Running, Bench.RoutineReturns;
    CalledStub(b, s);
    StackWrap(s.sp);
    hide Called;
    var t;
    k, t := StubCallsExactly(b, Called(s, STUB));
    PathTakes(b.dev, Called(s, STUB), s.cycles, k, t, Times(b.outer) * Times(b.inner));
    needed := t.cycles - s.cycles;
  }

  /** The hypothesis is met: a routine that is a bare RTS, in plain memory off the
      stub and the stack, returns from every entry. */
  lemma BareRtsReturns(b: Bench)
    requires b.Valid() && BareRts(b)
    ensures b.RoutineReturns()
  {
    forall e: Cpu | b.Entry(e)
      ensures exists k: nat :: b.Returned(e, k)
    {
      BareRtsOnce(b, e);
    }
  }

  ghost predicate BareRts(b: Bench) {
    && 0 <= b.target && b.target + 3 < MEM_SIZE && b.target != RETURN_SENTINEL
    && (b.target < STUB || STUB_END <= b.target)
    && !b.dev.Covers(b.target)
    && forall e: Cpu :: e.Valid() && b.ready(e) ==> e.mem[b.target] == 0x60
  }

  lemma BareRtsOnce(b: Bench, e: Cpu)
    requires b.Valid() && BareRts(b) && b.Entry(e)
    ensures b.Returned(e, 1)
  {
    hide StepOf, Rts, BuildLoopStub;
    RtsImp(b.dev, e);
    var t := Rts(Past(e, 1, 6));
    RtsGoesBack(Past(e, 1, 6), b.sp, AFTER_CALL - 1);
    assert b.StubMoves(e, t);
    PathStep(StepOf(b.dev), e, t, INNER_LOOP);
  }

  // ---- one benchmark in full ----------------------------------------------

  const ROUTINE: int := 0x4000

  const NO_DEVICE: Device := Device(0, 0, (h, v, a) => None, (h, v, a, x) => false)

  /** A benchmark of an RTS at 0x4000, with any two counts and no device, called on a stack
      pointer of sp + 2. */
  function RtsBench(outer: int, inner: int, sp: int): (b: Bench)
    requires IsByte(outer) && IsByte(inner) && IsByte(sp)
  {
    Bench(NO_DEVICE,
          ROUTINE, outer, inner, sp, RETURN_SENTINEL - 1,
          (s: Cpu) => |s.mem| == MEM_SIZE && s.mem[ROUTINE] == 0x60)
  }

  /** The memory it needs: the stub, the RTS, and zero elsewhere. */
  predicate IsRtsMemory(mem: seq<int>, outer: int, inner: int)
    requires IsByte(outer) && IsByte(inner)
  {
    && |mem| == MEM_SIZE && mem[ROUTINE] == 0x60
    && BuildLoopStub(ROUTINE, outer, inner) == Some(mem[STUB..STUB_END])
    && forall k :: 0 <= k < MEM_SIZE && k != ROUTINE && !(STUB <= k < STUB_END) ==> mem[k] == 0
  }

  lemma RtsMemoryExists(outer: int, inner: int) returns (mem: seq<int>)
    requires IsByte(outer) && IsByte(inner)
    ensures IsRtsMemory(mem, outer, inner) && ValidMemory(mem)
  {
    var code := BuildLoopStub(ROUTINE, outer, inner).value;
    assert forall k :: 0 <= k < |code| ==> IsByte(code[k]);
    mem := seq(MEM_SIZE, k => if STUB <= k < STUB_END then code[k - STUB] else if k == ROUTINE then 0x60 else 0);
    assert mem[STUB..STUB_END] == code;
  }

  lemma RtsBenchHolds(outer: int, inner: int, sp: int)
    requires IsByte(outer) && IsByte(inner) && IsByte(sp)
    ensures RtsBench(outer, inner, sp).Valid() && BareRts(RtsBench(outer, inner, sp))
  {
    var b := RtsBench(outer, inner, sp);
    forall s: Cpu, t: Cpu {:trigger b.StubMoves(s, t)} | b.ready(s) && b.StubMoves(s, t)
      ensures b.ready(t)
    {
      assert t.mem[ROUTINE] == s.mem[ROUTINE];
    }
  }

  /** Nothing is assumed here: from any registers and flags, the call of this stub in this
      memory returns after exactly outer * inner runs of the routine. */
  lemma RtsBenchReturns(s: Cpu, outer: int, inner: int) returns (k: nat, needed: nat)
    requires IsByte(outer) && IsByte(inner) && s.Valid() && IsRtsMemory(s.mem, outer, inner)
    ensures CallTakes(NO_DEVICE, Called(s, STUB), s.cycles, k, needed, Times(outer) * Times(inner), s.sp)
  {
    var b := RtsBench(outer, inner, (s.sp - 2) % 256);
    RtsBenchReady(s, outer, inner);
    hide RtsBench, Called, CallTakes, Bench.Valid, Bench.Installed, Bench.RoutineReturns, Times;
    k, needed := CallOfStubReturns(b, s);
  }

  lemma RtsBenchReady(s: Cpu, outer: int, inner: int)
    requires IsByte(outer) && IsByte(inner) && s.Valid() && IsRtsMemory(s.mem, outer, inner)
    ensures var b := RtsBench(outer, inner, (s.sp - 2) % 256);
      && b.Valid() && b.Installed(s.mem) && b.RoutineReturns() && b.ready(Called(s, STUB))
      && b.dev == NO_DEVICE && b.outer == outer && b.inner == inner
      && b.sp == (s.sp - 2) % 256 && b.ret == RETURN_SENTINEL - 1
  {
    var b := RtsBench(outer, inner, (s.sp - 2) % 256);
    RtsBenchHolds(outer, inner, (s.sp - 2) % 256);
    BareRtsReturns(b);
    hide Bench.Valid, Bench.RoutineReturns, BareRts, BuildLoopStub;
    assert Called(s, STUB).mem[ROUTINE] == s.mem[ROUTINE];
  }
}
