/** Runs of the machine, and what `call` makes of them. The lemmas here hold for
    any step function that keeps machines well formed and spends cycles. */
module Mos6502Runs {
  import opened Results
  import opened Mos6502Spec

  type Stepper = Cpu -> Result<Cpu, Trap>

  /** Completed steps keep the machine well formed, cost at least two cycles,
      count as one instruction and only add to the device history. */
  ghost predicate Sound(step: Stepper) {
    forall s: Cpu :: s.Valid() && step(s).Ok? ==> SoundStep(s, step(s).value)
  }

  predicate SoundStep(s: Cpu, t: Cpu) {
    t.Valid() && t.cycles >= s.cycles + 2 && t.instructions == s.instructions + 1 && s.io <= t.io
  }

  /** The interpreter's step with the device plugged in. */
  ghost function StepOf(dev: Device): (step: Stepper)
    ensures Sound(step)
    ensures forall s: Cpu {:trigger Step(dev, s)} :: s.Valid() ==> step(s) == Step(dev, s)
  {
    var total: Stepper := (s: Cpu) => if s.Valid() then Step(dev, s) else Err(Trap(BadMode, s));
    assert Sound(total) by {
      forall s: Cpu | s.Valid() && total(s).Ok?
        ensures SoundStep(s, total(s).value)
      {
        hide Decode, Exec;
        assert total(s) == Step(dev, s);
      }
    }
    assert forall s: Cpu {:trigger Step(dev, s)} :: s.Valid() ==> total(s) == Step(dev, s);
    var step: Stepper :|
      Sound(step) && forall s: Cpu {:trigger Step(dev, s)} :: s.Valid() ==> step(s) == Step(dev, s);
    step
  }

  /** s after k instructions. */
  function Run(step: Stepper, s: Cpu, k: nat): Result<Cpu, Trap>
    decreases k
  {
    if k == 0 then Ok(s)
    else
      var s1 :- step(s);
      Run(step, s1, k - 1)
  }

  /** How many of the k instructions run from s are fetched at `at`. */
  function Visits(step: Stepper, s: Cpu, k: nat, at: int): nat
    decreases k
  {
    if k == 0 then 0
    else
      (if s.pc == at then 1 else 0)
      + match step(s) case Ok(s1) => Visits(step, s1, k - 1, at) case Err(_) => 0
  }

  /** None of the k instructions run from s is fetched in [lo, hi). */
  predicate Avoids(step: Stepper, s: Cpu, k: nat, lo: int, hi: int)
    decreases k
  {
    k == 0
    || (!(lo <= s.pc < hi)
        && match step(s) case Ok(s1) => Avoids(step, s1, k - 1, lo, hi) case Err(_) => true)
  }

  lemma {:induction false} RunIsSound(step: Stepper, s: Cpu, k: nat)
    requires Sound(step) && s.Valid() && Run(step, s, k).Ok?
    ensures var t := Run(step, s, k).value;
      t.Valid() && t.cycles >= s.cycles + 2 * k && t.instructions == s.instructions + k && s.io <= t.io
    decreases k
  {
    if k > 0 {
      assert SoundStep(s, step(s).value);
      RunIsSound(step, step(s).value, k - 1);
    }
  }

  lemma {:induction false} RunAdd(step: Stepper, s: Cpu, j: nat, k: nat, at: int)
    requires Run(step, s, j).Ok?
    ensures var t := Run(step, s, j).value;
      && Run(step, s, j + k) == Run(step, t, k)
      && Visits(step, s, j + k, at) == Visits(step, s, j, at) + Visits(step, t, k, at)
    decreases j
  {
    if j > 0 {
      RunAdd(step, step(s).value, j - 1, k, at);
    }
  }

  lemma {:induction false} AvoidsAdd(step: Stepper, s: Cpu, j: nat, k: nat, lo: int, hi: int)
    requires Run(step, s, j).Ok?
    ensures Avoids(step, s, j + k, lo, hi)
            <==> Avoids(step, s, j, lo, hi) && Avoids(step, Run(step, s, j).value, k, lo, hi)
    decreases j
  {
    if j > 0 {
      AvoidsAdd(step, step(s).value, j - 1, k, lo, hi);
    }
  }

  lemma {:induction false} AvoidedIsUnvisited(step: Stepper, s: Cpu, k: nat, lo: int, hi: int, at: int)
    requires Avoids(step, s, k, lo, hi) && lo <= at < hi
    ensures Visits(step, s, k, at) == 0
    decreases k
  {
    if k > 0 && step(s).Ok? {
      AvoidedIsUnvisited(step, step(s).value, k - 1, lo, hi, at);
    }
  }

  /** k instructions take s to t, n of them fetched at `at`, none at the sentinel
      address that `call` waits for. */
  predicate Path(step: Stepper, s: Cpu, k: nat, t: Cpu, at: int, n: nat) {
    && Run(step, s, k) == Ok(t) && Visits(step, s, k, at) == n
    && Avoids(step, s, k, RETURN_SENTINEL, RETURN_SENTINEL + 1)
  }

  lemma PathStep(step: Stepper, s: Cpu, t: Cpu, at: int)
    requires step(s) == Ok(t) && s.pc != RETURN_SENTINEL
    ensures Path(step, s, 1, t, at, if s.pc == at then 1 else 0)
  {
    assert Run(step, t, 0) == Ok(t) && Visits(step, t, 0, at) == 0;
  }

  lemma TwoSteps(step: Stepper, s: Cpu, u: Cpu, t: Cpu, lo: int, hi: int)
    requires step(s) == Ok(u) && step(u) == Ok(t)
    requires !(lo <= s.pc < hi) && !(lo <= u.pc < hi)
    ensures Run(step, s, 2) == Ok(t) && Avoids(step, s, 2, lo, hi)
  {
    assert Run(step, t, 0) == Ok(t) && Run(step, u, 1) == Ok(t);
    assert Avoids(step, t, 0, lo, hi) && Avoids(step, u, 1, lo, hi);
  }

  lemma PathJoin(step: Stepper, s: Cpu, j: nat, u: Cpu, m: nat, k: nat, t: Cpu, n: nat, at: int)
    requires Path(step, s, j, u, at, m) && Path(step, u, k, t, at, n)
    ensures Path(step, s, j + k, t, at, m + n)
  {
    RunAdd(step, s, j, k, at);
    AvoidsAdd(step, s, j, k, RETURN_SENTINEL, RETURN_SENTINEL + 1);
  }

  // ---- call ---------------------------------------------------------------

  /** The state `call` starts stepping from. */
  function Called(s: Cpu, addr: int): (r: Cpu)
    requires s.Valid() && 0 <= addr < MEM_SIZE
    ensures r.Valid()
  {
    var ret := RETURN_SENTINEL - 1;
    Push(Push(s, ret / 256), ret % 256).(pc := addr)
  }

  /** The stepping loop of `call`, when `start` cycles had been used before it. */
  ghost function Drive(step: Stepper, s: Cpu, start: int, maxCycles: int): (r: Result<Cpu, Trap>)
    requires Sound(step) && s.Valid()
    decreases start + maxCycles - s.cycles
  {
    if s.pc == RETURN_SENTINEL then Ok(s)
    else if step(s).Err? then Err(step(s).error)
    else
      var s1 := step(s).value;
      assert SoundStep(s, s1);
      if s1.cycles - start > maxCycles then Err(Trap(CpuBudgetExceeded(s1.pc), s1))
      else Drive(step, s1, start, maxCycles)
  }

  /** The first k instructions run from s all complete, none is fetched at the
      sentinel, and after each of them the budget still holds. */
  predicate InFlight(step: Stepper, s: Cpu, k: nat, start: int, maxCycles: int)
    decreases k
  {
    k == 0
    || (s.pc != RETURN_SENTINEL && step(s).Ok?
        && step(s).value.cycles - start <= maxCycles
        && InFlight(step, step(s).value, k - 1, start, maxCycles))
  }

  /** How a call that is in flight after k instructions ends at the next check. */
  predicate EndsAt(step: Stepper, s: Cpu, k: nat, start: int, maxCycles: int, r: Result<Cpu, Trap>) {
    && InFlight(step, s, k, start, maxCycles)
    && Run(step, s, k).Ok?
    && var t := Run(step, s, k).value;
       if t.pc == RETURN_SENTINEL then r == Ok(t)
       else match step(t)
            case Err(f) => r == Err(f)
            case Ok(u) => u.cycles - start > maxCycles && r == Err(Trap(CpuBudgetExceeded(u.pc), u))
  }

  /** `call` always ends, whatever the program and the device do: it stays in flight for at
      most maxCycles / 2 instructions, and then has returned, or the next one raises or
      runs out of budget. */
  lemma {:induction false} CallEnds(step: Stepper, s: Cpu, start: int, maxCycles: int) returns (k: nat)
    requires Sound(step) && s.Valid() && start <= s.cycles
    ensures EndsAt(step, s, k, start, maxCycles, Drive(step, s, start, maxCycles))
    ensures k == 0 || 2 * k <= maxCycles
    decreases start + maxCycles - s.cycles
  {
    if s.pc == RETURN_SENTINEL || step(s).Err? || step(s).value.cycles - start > maxCycles {
      k := 0;
    } else {
      var s1 := step(s).value;
      assert SoundStep(s, s1);
      var k1 := CallEnds(step, s1, start, maxCycles);
      k := k1 + 1;
      InFlightCost(step, s, k, start, maxCycles);
    }
  }

  lemma {:induction false} InFlightCost(step: Stepper, s: Cpu, k: nat, start: int, maxCycles: int)
    requires Sound(step) && s.Valid() && InFlight(step, s, k, start, maxCycles)
    ensures k > 0 ==> s.cycles - start + 2 * k <= maxCycles
    decreases k
  {
    if k > 0 {
      assert SoundStep(s, step(s).value);
      InFlightCost(step, step(s).value, k - 1, start, maxCycles);
    }
  }

  /** The number of instructions decides the outcome: the call ends the way its
      run says it does, so exactly one outcome is possible. */
  lemma {:induction false} CallEndsOnlySo(step: Stepper, s: Cpu, k: nat, start: int, maxCycles: int, r: Result<Cpu, Trap>)
    requires Sound(step) && s.Valid() && EndsAt(step, s, k, start, maxCycles, r)
    ensures Drive(step, s, start, maxCycles) == r
    decreases k
  {
    if k > 0 {
      assert SoundStep(s, step(s).value);
      CallEndsOnlySo(step, step(s).value, k - 1, start, maxCycles, r);
    }
  }

  /** A run that first meets the sentinel after k instructions, within the budget,
      is what `call` returns. */
  lemma {:induction false} CallReturns(step: Stepper, s: Cpu, k: nat, start: int, maxCycles: int)
    requires Sound(step) && s.Valid() && Run(step, s, k).Ok?
    requires Avoids(step, s, k, RETURN_SENTINEL, RETURN_SENTINEL + 1)
    requires Run(step, s, k).value.pc == RETURN_SENTINEL
    requires Run(step, s, k).value.cycles - start <= maxCycles
    ensures Drive(step, s, start, maxCycles) == Run(step, s, k)
    decreases k
  {
    if k > 0 {
      var s1 := step(s).value;
      assert SoundStep(s, s1);
      RunIsSound(step, s1, k - 1);
      CallReturns(step, s1, k - 1, start, maxCycles);
    }
  }

  /** So a path to the sentinel is a call that returns, whatever the budget from what it used up. */
  lemma PathReturns(step: Stepper, s: Cpu, k: nat, t: Cpu, at: int, n: nat, start: int)
    requires Sound(step) && s.Valid() && Path(step, s, k, t, at, n) && t.pc == RETURN_SENTINEL
    ensures Visits(step, s, k, at) == n && Run(step, s, k) == Ok(t) && t.cycles >= s.cycles
    ensures forall maxCycles :: maxCycles >= t.cycles - start ==> Drive(step, s, start, maxCycles) == Ok(t)
  {
    hide Drive, Run, Avoids, Visits, Sound, Cpu.Valid;
    RunIsSound(step, s, k);
    forall maxCycles | maxCycles >= t.cycles - start
      ensures Drive(step, s, start, maxCycles) == Ok(t)
    {
      CallReturns(step, s, k, start, maxCycles);
    }
  }
}
