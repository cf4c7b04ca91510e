/** The regression gate: a bounded pool of suites, the serial suites after it, a deadline
    for each, and the exit code. Times are in milliseconds. */
module Gate {
  import opened Results

  const MAX_PARALLEL: nat := 5
  const STAGGER: nat := 2000
  const POLL: nat := 1000
  const SUITE_TIMEOUT: nat := 1800 * 1000

  datatype Job = Job(name: string, started: nat)

  datatype Outcome = Outcome(rc: int, killed: bool)

  /** Where every suite is at one moment: waiting, running since some time, or recorded. */
  datatype Status = Status(pending: seq<string>, running: seq<Job>, done: map<string, Outcome>, now: nat)

  /** The suites' processes and the clock: what polling a process says depends on the
      process and on when it is asked, in any way at all; so may the time a call takes. */
  class World {
    const exits: (string, nat) -> Option<int>
    const delay: nat -> nat
    var now: nat
    var tick: nat

    constructor (exits: (string, nat) -> Option<int>, delay: nat -> nat)
      ensures this.exits == exits && this.delay == delay
    {
      this.exits, this.delay := exits, delay;
      now, tick := 0, 0;
    }

    method Poll(name: string) returns (rc: Option<int>)
      modifies this
      ensures now >= old(now) && rc == exits(name, old(tick))
    {
      rc := exits(name, tick);
      now := now + delay(tick);
      tick := tick + 1;
    }

    method Sleep(ms: nat)
      modifies this
      ensures now >= old(now) + ms
    {
      now := now + ms + delay(tick);
      tick := tick + 1;
    }
  }

  function Names(jobs: seq<Job>): (r: seq<string>)
    ensures |r| == |jobs|
  {
    if |jobs| == 0 then [] else Names(jobs[..|jobs| - 1]) + [jobs[|jobs| - 1].name]
  }

  predicate Distinct(names: seq<string>) {
    forall i, j | 0 <= i < j < |names| :: names[i] != names[j]
  }

  function Count(names: seq<string>, name: string): nat {
    if |names| == 0 then 0
    else Count(names[..|names| - 1], name) + if names[|names| - 1] == name then 1 else 0
  }

  function In(done: set<string>, name: string): nat {
    if name in done then 1 else 0
  }

  lemma CountSnoc(names: seq<string>, last: string, name: string)
    ensures Count(names + [last], name) == Count(names, name) + if last == name then 1 else 0
  {
    assert (names + [last])[..|names|] == names;
  }

  lemma {:induction false} CountIsMembership(names: seq<string>, name: string)
    ensures Count(names, name) > 0 <==> name in names
  {
    if |names| > 0 {
      CountIsMembership(names[..|names| - 1], name);
      assert names == names[..|names| - 1] + [names[|names| - 1]];
    }
  }

  lemma {:induction false} DistinctIsCountedOnce(names: seq<string>, name: string)
    requires Distinct(names)
    ensures Count(names, name) <= 1
  {
    if |names| > 0 {
      DistinctIsCountedOnce(names[..|names| - 1], name);
      CountIsMembership(names[..|names| - 1], name);
    }
  }

  lemma {:induction false} CountedOnceIsDistinct(names: seq<string>)
    requires forall n :: Count(names, n) <= 1
    ensures Distinct(names)
  {
    if |names| > 0 {
      var init, last := names[..|names| - 1], names[|names| - 1];
      assert names == init + [last];
      forall n: string ensures Count(init, n) <= 1 {
        CountSnoc(init, last, n);
        assert Count(names, n) <= 1;
      }
      CountedOnceIsDistinct(init);
      assert Count(names, last) <= 1;
      CountIsMembership(init, last);
      forall i, j | 0 <= i < j < |names| ensures names[i] != names[j] {
        assert names[i] in init;
      }
    }
  }

  /** The suites in a list and a set, each taken as often as in another pair. */
  ghost predicate Balanced(xs: seq<string>, da: set<string>, ys: seq<string>, db: set<string>) {
    forall n :: Count(xs, n) + In(da, n) == Count(ys, n) + In(db, n)
  }

  /** This suite is somewhere exactly as often as it is listed. */
  ghost predicate Tallies(all: seq<string>, s: Status, n: string) {
    Count(s.pending, n) + Count(Names(s.running), n) + In(s.done.Keys, n) == Count(all, n)
  }

  /** Every suite of the lists is in exactly one place, as often as it is listed, and the
      pool is within its cap. */
  ghost predicate Partition(all: seq<string>, s: Status) {
    && |s.running| <= MAX_PARALLEL
    && forall n :: Tallies(all, s, n)
  }

  /** With distinct names: exactly one place, and once. */
  lemma InExactlyOnePlace(all: seq<string>, s: Status, name: string)
    requires Distinct(all) && Partition(all, s) && name in all
    ensures name in s.pending || name in Names(s.running) || name in s.done
    ensures !(name in s.pending && name in Names(s.running))
    ensures !(name in s.pending && name in s.done) && !(name in Names(s.running) && name in s.done)
    ensures Distinct(s.pending) && Distinct(Names(s.running))
  {
    forall n: string
      ensures Count(s.pending, n) + Count(Names(s.running), n) + In(s.done.Keys, n) <= 1
      ensures Count(s.pending, n) <= 1 && Count(Names(s.running), n) <= 1
    {
      DistinctIsCountedOnce(all, n);
      assert Tallies(all, s, n);
    }
    CountedOnceIsDistinct(s.pending);
    CountedOnceIsDistinct(Names(s.running));
    assert Tallies(all, s, name);
    CountIsMembership(all, name);
    CountIsMembership(s.pending, name);
    CountIsMembership(Names(s.running), name);
  }

  /** What a recorded result means: its process said so, or it was killed. */
  ghost predicate Justified(exits: (string, nat) -> Option<int>, name: string, o: Outcome) {
    if o.killed then o.rc == -1 else exists t :: exits(name, t) == Some(o.rc)
  }

  ghost predicate AllJustified(exits: (string, nat) -> Option<int>, results: map<string, Outcome>) {
    forall n | n in results :: Justified(exits, n, results[n])
  }

  ghost predicate NoneTwice(names: seq<string>, done: set<string>) {
    forall n :: Count(names, n) + In(done, n) <= 1
  }

  /** Suite n was running and, if killed, over its budget. */
  ghost predicate Due(running: seq<Job>, n: string, o: Outcome, timeout: Option<nat>, now: nat) {
    exists j :: j in running && j.name == n && (o.killed ==> timeout.Some? && now > j.started + timeout.value)
  }

  /** The results after a pass: the earlier ones, and only real ones added, a kill only
      for a suite over its budget. */
  ghost predicate Extends(exits: (string, nat) -> Option<int>, now: nat, running: seq<Job>, timeout: Option<nat>,
                          results: map<string, Outcome>, recorded: map<string, Outcome>)
  {
    && AllJustified(exits, recorded)
    && (forall n | n in results :: n in recorded && recorded[n] == results[n])
    && (forall n | n in recorded && n !in results :: Due(running, n, recorded[n], timeout, now))
  }

  /** One result more, some time later. */
  lemma ExtendsOneMore(exits: (string, nat) -> Option<int>, now: nat, later: nat, job: Job, running: seq<Job>,
                       timeout: Option<nat>, results: map<string, Outcome>, recorded: map<string, Outcome>, o: Outcome)
    requires Extends(exits, now, running, timeout, results, recorded) && later >= now
    requires job in running && job.name !in recorded && Justified(exits, job.name, o)
    requires o.killed ==> timeout.Some? && later > job.started + timeout.value
    ensures Extends(exits, later, running, timeout, results, recorded[job.name := o])
  {
    assert Due(running, job.name, o, timeout, later);
    ExtendsLater(exits, now, later, running, timeout, results, recorded);
    hide Due, Justified;
  }

  lemma ExtendsLater(exits: (string, nat) -> Option<int>, now: nat, later: nat, running: seq<Job>,
                     timeout: Option<nat>, results: map<string, Outcome>, recorded: map<string, Outcome>)
    requires Extends(exits, now, running, timeout, results, recorded) && later >= now
    ensures Extends(exits, later, running, timeout, results, recorded)
  {
    forall n | n in recorded && n !in results
      ensures Due(running, n, recorded[n], timeout, later)
    {
      var j :| j in running && j.name == n
        && (recorded[n].killed ==> timeout.Some? && now > j.started + timeout.value);
    }
  }

  ghost predicate WithinBudget(jobs: seq<Job>, now: nat, timeout: Option<nat>) {
    timeout.Some? ==> forall j | j in jobs :: now <= j.started + timeout.value
  }

  /** The running suites without a result yet, as they are and in their order. */
  function Unfinished(running: seq<Job>, done: set<string>): (r: seq<Job>)
    ensures |r| <= |running|
    ensures |r| == |running| ==> r == running
    ensures forall j | j in r :: j in running
  {
    if |running| == 0 then []
    else
      var init, last := Unfinished(running[..|running| - 1], done), running[|running| - 1];
      assert running == running[..|running| - 1] + [last];
      if last.name in done then init else init + [last]
  }

  lemma UnfinishedNext(running: seq<Job>, i: nat, done: set<string>)
    requires i < |running|
    ensures Unfinished(running[..i + 1], done)
         == Unfinished(running[..i], done) + (if running[i].name in done then [] else [running[i]])
  {
    assert running[..i + 1][..i] == running[..i];
  }

  lemma {:induction false} UnfinishedOthers(running: seq<Job>, done: set<string>, name: string)
    requires name !in Names(running)
    ensures Unfinished(running, done + {name}) == Unfinished(running, done)
  {
    if |running| > 0 {
      var init, last := running[..|running| - 1], running[|running| - 1];
      assert last.name == Names(running)[|Names(running)| - 1];
      assert forall n | n in Names(init) :: n in Names(running);
      UnfinishedOthers(init, done, name);
    }
  }

  lemma NothingYet(exits: (string, nat) -> Option<int>, now: nat, running: seq<Job>, timeout: Option<nat>,
                   results: map<string, Outcome>)
    requires AllJustified(exits, results)
    ensures Extends(exits, now, running, timeout, results, results) && Unfinished(running[..0], results.Keys) == []
  {
  }

  /** One pass over the running suites: finished ones and, past the timeout, killed ones
      move into the results; the others stay, with their start times and in order. */
  method Reap(w: World, running: seq<Job>, results: map<string, Outcome>, timeout: Option<nat>)
    returns (still: seq<Job>, recorded: map<string, Outcome>)
    requires NoneTwice(Names(running), results.Keys) && AllJustified(w.exits, results)
    modifies w
    ensures still == Unfinished(running, recorded.Keys)
    ensures Balanced(Names(still), recorded.Keys, Names(running), results.Keys)
    ensures Extends(w.exits, w.now, running, timeout, results, recorded)
    ensures WithinBudget(still, old(w.now), timeout)
    ensures w.now >= old(w.now)
  {
    hide Count, Balanced, NoneTwice, Names, Unfinished, Extends;
    still, recorded := [], results;
    BalancedStill(Names(still), results.Keys, running);
    NothingYet(w.exits, w.now, running, timeout, results);
    for i := 0 to |running|
      invariant w.now >= old(w.now)
      invariant still == Unfinished(running[..i], recorded.Keys)
      invariant Balanced(Names(still), recorded.Keys, Names(running[..i]), results.Keys)
      invariant Extends(w.exits, w.now, running, timeout, results, recorded)
      invariant WithinBudget(still, old(w.now), timeout)
    {
      var job := running[i];
      Unrecorded(running, i, results.Keys, Names(still), recorded.Keys);
      BalancedNext(running, i, results.Keys, still, recorded.Keys);
      UnfinishedNext(running, i, recorded.Keys);
      UnfinishedNext(running, i, recorded.Keys + {job.name});
      UnfinishedOthers(running[..i], recorded.Keys, job.name);
      ghost var tick, before, at := w.tick, recorded, w.now;
      var rc := w.Poll(job.name);
      if rc.None? && timeout.Some? && w.now > job.started + timeout.value {
        w.Sleep(0);
        recorded := recorded[job.name := Outcome(-1, true)];
        assert recorded.Keys == before.Keys + {job.name};
        ExtendsOneMore(w.exits, at, w.now, job, running, timeout, results, before, Outcome(-1, true));
      } else if rc.None? {
        still := still + [job];
        ExtendsLater(w.exits, at, w.now, running, timeout, results, recorded);
      } else {
        assert w.exits(job.name, tick) == Some(rc.value);
        recorded := recorded[job.name := Outcome(rc.value, false)];
        assert recorded.Keys == before.Keys + {job.name};
        ExtendsOneMore(w.exits, at, w.now, job, running, timeout, results, before, Outcome(rc.value, false));
      }
    }
    assert running[..|running|] == running;
  }

  lemma BalancedStill(none: seq<string>, done: set<string>, running: seq<Job>)
    requires none == Names([])
    ensures Balanced(none, done, Names(running[..0]), done)
  {
    assert running[..0] == [];
  }

  lemma NextName(jobs: seq<Job>, job: Job)
    ensures Names(jobs + [job]) == Names(jobs) + [job.name]
  {
    assert (jobs + [job])[..|jobs|] == jobs;
  }

  /** The next suite either stays or is recorded. */
  lemma BalancedNext(running: seq<Job>, i: nat, results: set<string>, still: seq<Job>, done: set<string>)
    requires i < |running| && running[i].name !in done
    requires Balanced(Names(still), done, Names(running[..i]), results)
    ensures Balanced(Names(still + [running[i]]), done, Names(running[..i + 1]), results)
    ensures Balanced(Names(still), done + {running[i].name}, Names(running[..i + 1]), results)
  {
    hide Names, Count;
    var job := running[i];
    assert running[..i + 1] == running[..i] + [job];
    NextName(still, job);
    NextName(running[..i], job);
    forall n: string
      ensures Count(Names(still + [job]), n) + In(done, n) == Count(Names(running[..i + 1]), n) + In(results, n)
      ensures Count(Names(still), n) + In(done + {job.name}, n) == Count(Names(running[..i + 1]), n) + In(results, n)
    {
      CountSnoc(Names(still), job.name, n);
      CountSnoc(Names(running[..i]), job.name, n);
      assert Count(Names(still), n) + In(done, n) == Count(Names(running[..i]), n) + In(results, n);
    }
  }

  /** A suite that runs once and is not recorded is not among those that run before it. */
  lemma FirstTime(running: seq<Job>, i: nat, results: set<string>)
    requires i < |running| && NoneTwice(Names(running), results)
    ensures Count(Names(running[..i]), running[i].name) == 0 && running[i].name !in results
  {
    hide Names, Count;
    var name := running[i].name;
    assert running[..i + 1] == running[..i] + [running[i]];
    NextName(running[..i], running[i]);
    CountSnoc(Names(running[..i]), name, name);
    PrefixCount(running, i + 1, name);
    assert Count(Names(running), name) + In(results, name) <= 1;
  }

  /** The next suite's result is not there yet. */
  lemma Unrecorded(running: seq<Job>, i: nat, results: set<string>, still: seq<string>, done: set<string>)
    requires i < |running| && NoneTwice(Names(running), results)
    requires Balanced(still, done, Names(running[..i]), results)
    ensures running[i].name !in done && running[i].name !in Names(running[..i])
  {
    hide Names, Count, NoneTwice;
    var name := running[i].name;
    FirstTime(running, i, results);
    CountIsMembership(Names(running[..i]), name);
    assert Count(still, name) + In(done, name) == Count(Names(running[..i]), name) + In(results, name);
  }

  lemma {:induction false} PrefixCount(jobs: seq<Job>, i: nat, name: string)
    requires i <= |jobs|
    ensures Count(Names(jobs[..i]), name) <= Count(Names(jobs), name)
    decreases |jobs|
  {
    if i == |jobs| {
      assert jobs[..i] == jobs;
    } else {
      var init, last := jobs[..|jobs| - 1], jobs[|jobs| - 1];
      PrefixCount(init, i, name);
      assert init[..i] == jobs[..i] && jobs == init + [last];
      NextName(init, last);
      CountSnoc(Names(init), last.name, name);
    }
  }

  // ---- the pool -----------------------------------------------------------

  lemma {:induction false} CountHead(names: seq<string>, name: string)
    requires |names| > 0
    ensures Count(names, name) == Count(names[1..], name) + if names[0] == name then 1 else 0
    decreases |names|
  {
    if |names| > 1 {
      var init := names[..|names| - 1];
      CountHead(init, name);
      assert init[1..] == names[1..][..|names| - 2];
    }
  }

  /** The outcome of the suites so far is complete: each listed suite has one result. */
  ghost predicate Complete(all: seq<string>, done: set<string>) {
    forall n :: In(done, n) == Count(all, n)
  }

  lemma StartOf(all: seq<string>, now: nat)
    ensures Partition(all, Status(all, [], map[], now))
  {
  }

  lemma EndOf(all: seq<string>, s: Status)
    requires Partition(all, s) && s.pending == [] && s.running == []
    ensures Complete(all, s.done.Keys)
  {
    forall n: string ensures In(s.done.Keys, n) == Count(all, n) {
      assert Tallies(all, s, n);
    }
  }

  /** The first waiting suite is started, if the pool has room. */
  predicate Launch(s: Status, t: Status) {
    && |s.pending| > 0 && |s.running| < MAX_PARALLEL && s.now <= t.now
    && t == Status(s.pending[1..], s.running + [Job(s.pending[0], t.now)], s.done, t.now)
  }

  /** Some running suites are recorded, a killed one only past its budget; the others run on,
      none is started, lost or recorded anew. */
  ghost predicate Collect(s: Status, t: Status) {
    && t.pending == s.pending && s.now <= t.now
    && t.running == Unfinished(s.running, t.done.Keys)
    && Balanced(Names(t.running), t.done.Keys, Names(s.running), s.done.Keys)
    && (forall n | n in s.done :: n in t.done && t.done[n] == s.done[n])
    && (forall n | n in t.done && n !in s.done :: Due(s.running, n, t.done[n], Some(SUITE_TIMEOUT), t.now))
  }

  ghost predicate Move(s: Status, t: Status) {
    Launch(s, t) || Collect(s, t)
  }

  /** What happened, complete: all suites waiting at first, then one move at a time. */
  ghost predicate Story(all: seq<string>, history: seq<Status>) {
    && history != [] && history[0] == Status(all, [], map[], history[0].now)
    && forall i | 0 < i < |history| :: Move(history[i - 1], history[i])
  }

  function Last(history: seq<Status>): Status
    requires history != []
  {
    history[|history| - 1]
  }

  lemma StoryBegins(all: seq<string>, now: nat)
    ensures Story(all, [Status(all, [], map[], now)])
  {
  }

  lemma StoryContinues(all: seq<string>, history: seq<Status>, t: Status)
    requires Story(all, history) && Move(Last(history), t)
    ensures Story(all, history + [t]) && Last(history + [t]) == t
  {
    hide Move;
    var longer := history + [t];
    forall i | 0 < i < |longer| ensures Move(longer[i - 1], longer[i]) {
      if i < |history| {
        assert longer[i - 1] == history[i - 1] && longer[i] == history[i];
      }
    }
  }

  lemma LaunchKeeps(all: seq<string>, s: Status, t: Status)
    requires Partition(all, s) && Launch(s, t)
    ensures Partition(all, t)
  {
    hide Count, Names;
    NextName(s.running, Job(s.pending[0], t.now));
    forall n: string ensures Tallies(all, t, n) {
      CountHead(s.pending, n);
      CountSnoc(Names(s.running), s.pending[0], n);
      assert Tallies(all, s, n);
    }
  }

  lemma CollectKeeps(all: seq<string>, s: Status, t: Status)
    requires Partition(all, s) && Collect(s, t)
    ensures Partition(all, t)
  {
    hide Balanced, Names, Unfinished, Due;
    forall n: string ensures Tallies(all, t, n) {
      CollectedAt(all, s, t, n);
    }
    hide Count;
  }

  lemma CollectedAt(all: seq<string>, s: Status, t: Status, n: string)
    requires Partition(all, s) && Collect(s, t)
    ensures Tallies(all, t, n)
  {
    hide Count, Names, Unfinished, Due;
    assert Tallies(all, s, n);
    hide Partition;
    assert Count(Names(t.running), n) + In(t.done.Keys, n) == Count(Names(s.running), n) + In(s.done.Keys, n);
  }

  /** At every moment of every story each suite is in exactly one place, as often as it
      is listed, and no more than five are running. */
  lemma {:induction false} StoryKeepsPartition(all: seq<string>, history: seq<Status>, i: nat)
    requires Story(all, history) && i < |history|
    ensures Partition(all, history[i])
    decreases i
  {
    hide Partition, Launch, Collect;
    if i == 0 {
      StartOf(all, history[0].now);
    } else {
      StoryKeepsPartition(all, history, i - 1);
      assert Move(history[i - 1], history[i]);
      if Launch(history[i - 1], history[i]) {
        LaunchKeeps(all, history[i - 1], history[i]);
      } else {
        CollectKeeps(all, history[i - 1], history[i]);
      }
    }
  }

  /** What one move keeps: the results as they are, the clock running, the waiting suites
      leaving from the front. */
  predicate Forward(s: Status, t: Status) {
    && s.now <= t.now && |t.pending| <= |s.pending|
    && t.pending == s.pending[|s.pending| - |t.pending|..]
    && forall n | n in s.done :: n in t.done && t.done[n] == s.done[n]
  }

  lemma MoveForward(s: Status, t: Status)
    requires Move(s, t)
    ensures Forward(s, t)
  {
    hide Balanced, Names, Unfinished, Due;
  }

  lemma ForwardOn(s: Status, t: Status, u: Status)
    requires Forward(s, t) && Forward(t, u)
    ensures Forward(s, u)
  {
  }

  /** Nor is a result ever taken back or changed, or a suite started out of turn. */
  lemma {:induction false} StoryGoesForward(all: seq<string>, history: seq<Status>, i: nat, j: nat)
    requires Story(all, history) && i <= j < |history|
    ensures Forward(history[i], history[j])
    decreases j
  {
    if i < j {
      StoryGoesForward(all, history, i, j - 1);
      assert Move(history[j - 1], history[j]);
      hide Move, Story, Forward;
      MoveForward(history[j - 1], history[j]);
      ForwardOn(history[i], history[j - 1], history[j]);
    }
  }

  // ---- kills --------------------------------------------------------------

  /** The job was launched by the move to moment l, then. */
  predicate LaunchedAt(history: seq<Status>, l: int, job: Job) {
    && 0 < l < |history| && Launch(history[l - 1], history[l])
    && job == Job(history[l - 1].pending[0], history[l].now)
  }

  /** Whatever runs was launched, and has kept the time of its launch. */
  lemma {:induction false} RunningWasLaunched(all: seq<string>, history: seq<Status>, i: nat, job: Job) returns (l: nat)
    requires Story(all, history) && i < |history| && job in history[i].running
    ensures l <= i && LaunchedAt(history, l, job)
    decreases i
  {
    assert i > 0 && Move(history[i - 1], history[i]);
    hide Story, Balanced, Names, Due, Unfinished;
    if job in history[i - 1].running {
      l := RunningWasLaunched(all, history, i - 1, job);
    } else {
      l := i;
    }
  }

  /** Suite n was launched at one moment and recorded at a later one, more than its budget
      after. */
  predicate RanOver(history: seq<Status>, n: string, l: int, k: int) {
    && 0 < l < k < |history| && n in history[k].done && n !in history[k - 1].done
    && LaunchedAt(history, l, Job(n, history[l].now))
    && history[k].now > history[l].now + SUITE_TIMEOUT
  }

  /** Every kill in every story is of a suite that ran past its budget. */
  lemma {:induction false} KilledRanOver(all: seq<string>, history: seq<Status>, i: nat, n: string) returns (l: nat, k: nat)
    requires Story(all, history) && i < |history| && n in history[i].done && history[i].done[n].killed
    ensures k <= i && RanOver(history, n, l, k)
    decreases i
  {
    assert i > 0 && Move(history[i - 1], history[i]);
    if n in history[i - 1].done {
      MoveForward(history[i - 1], history[i]);
      hide Story, Move, RanOver;
      l, k := KilledRanOver(all, history, i - 1, n);
    } else {
      k := i;
      hide Story, Balanced, Names, Unfinished;
      var job := KilledNow(history[i - 1], history[i], n);
      l := RunningWasLaunched(all, history, i - 1, job);
    }
  }

  lemma KilledNow(s: Status, t: Status, n: string) returns (job: Job)
    requires Move(s, t) && n in t.done && n !in s.done && t.done[n].killed
    ensures job in s.running && job.name == n && t.now > job.started + SUITE_TIMEOUT
  {
    hide Balanced, Names, Unfinished;
    assert Due(s.running, n, t.done[n], Some(SUITE_TIMEOUT), t.now);
    job :| job in s.running && job.name == n && t.now > job.started + SUITE_TIMEOUT;
  }

  lemma NothingTwice(all: seq<string>, s: Status)
    requires Distinct(all) && Partition(all, s)
    ensures NoneTwice(Names(s.running), s.done.Keys)
  {
    forall n: string ensures Count(Names(s.running), n) + In(s.done.Keys, n) <= 1 {
      DistinctIsCountedOnce(all, n);
      assert Tallies(all, s, n);
    }
  }

  /** How long the first running suite may still go on. */
  function HeadBudget(running: seq<Job>, now: nat): int {
    if |running| == 0 then 0 else running[0].started + SUITE_TIMEOUT + 1 - now
  }

  /** The pool: it ends with a result for every suite even if every process hangs. The
      serial suites wait behind it. */
  method RunPool(w: World, tests: seq<string>, ghost serial: seq<string>)
    returns (results: map<string, Outcome>, ghost history: seq<Status>)
    requires Distinct(tests + serial)
    modifies w
    ensures AllJustified(w.exits, results)
    ensures Recorded(tests + serial, history, serial, [], results, w.now)
    ensures forall h | h in history :: |h.pending| >= |serial|
  {
    hide Partition, Names, Count, NoneTwice, Recorded, Extends;
    var pending := tests;
    var running: seq<Job> := [];
    results := map[];
    ghost var all := tests + serial;
    history := [Status(all, [], map[], w.now)];
    RecordedBegins(all, w.now);
    while |pending| > 0 || |running| > 0
      invariant AllJustified(w.exits, results)
      invariant Recorded(all, history, pending + serial, running, results, w.now)
      invariant forall h | h in history :: |h.pending| >= |serial|
      decreases |pending|, |running|, HeadBudget(running, w.now)
    {
      RunningOnce(all, history, pending + serial, running, results, w.now);
      ghost var before, done, at := running, results, w.now;
      running, results := Reap(w, running, results, Some(SUITE_TIMEOUT));
      CollectStory(w.exits, all, history, pending + serial, before, done, at, running, results, w.now);
      history := history + [Status(pending + serial, running, results, w.now)];
      ghost var reaped, left, since := running, pending, w.now;
      while |pending| > 0 && |running| < MAX_PARALLEL
        invariant Recorded(all, history, pending + serial, running, results, w.now)
        invariant forall h | h in history :: |h.pending| >= |serial|
        invariant |pending| < |left| || (pending == left && running == reaped)
        invariant w.now >= since
      {
        LaunchStory(all, history, pending + serial, running, results, w.now);
        assert (pending + serial)[1..] == pending[1..] + serial && (pending + serial)[0] == pending[0];
        var name := pending[0];
        pending := pending[1..];
        running := running + [Job(name, w.now)];
        history := history + [Status(pending + serial, running, results, w.now)];
        ghost var launched := w.now;
        w.Sleep(STAGGER);
        TimePasses(all, history, pending + serial, running, results, launched, w.now);
      }
      if |running| > 0 {
        ghost var polled := w.now;
        w.Sleep(POLL);
        TimePasses(all, history, pending + serial, running, results, polled, w.now);
      }
    }
    assert pending == [] && running == [] && pending + serial == serial;
  }

  /** The story so far ends with the suites where they are, no later than now. */
  ghost predicate Recorded(all: seq<string>, history: seq<Status>, pending: seq<string>, running: seq<Job>,
                           done: map<string, Outcome>, now: nat)
  {
    && Story(all, history) && history != []
    && Last(history) == Status(pending, running, done, Last(history).now) && Last(history).now <= now
  }

  lemma RecordedBegins(all: seq<string>, now: nat)
    ensures Recorded(all, [Status(all, [], map[], now)], all, [], map[], now)
  {
    StoryBegins(all, now);
  }

  lemma TimePasses(all: seq<string>, history: seq<Status>, pending: seq<string>, running: seq<Job>,
                   done: map<string, Outcome>, now: nat, later: nat)
    requires Recorded(all, history, pending, running, done, now) && now <= later
    ensures Recorded(all, history, pending, running, done, later)
  {
    hide Story;
  }

  lemma RunningOnce(all: seq<string>, history: seq<Status>, pending: seq<string>, running: seq<Job>,
                    done: map<string, Outcome>, now: nat)
    requires Distinct(all) && Recorded(all, history, pending, running, done, now)
    ensures NoneTwice(Names(running), done.Keys)
  {
    hide Story, Partition, NoneTwice, Names;
    StoryKeepsPartition(all, history, |history| - 1);
    NothingTwice(all, Last(history));
  }

  lemma CollectStory(exits: (string, nat) -> Option<int>, all: seq<string>, history: seq<Status>,
                     pending: seq<string>, running: seq<Job>, done: map<string, Outcome>, now: nat,
                     still: seq<Job>, recorded: map<string, Outcome>, later: nat)
    requires Recorded(all, history, pending, running, done, now) && now <= later
    requires still == Unfinished(running, recorded.Keys)
    requires Balanced(Names(still), recorded.Keys, Names(running), done.Keys)
    requires Extends(exits, later, running, Some(SUITE_TIMEOUT), done, recorded)
    ensures Recorded(all, history + [Status(pending, still, recorded, later)], pending, still, recorded, later)
    ensures AllJustified(exits, recorded)
  {
    hide Story, Names, Launch, Balanced, Unfinished, Due, AllJustified;
    assert Collect(Last(history), Status(pending, still, recorded, later));
    hide Collect;
    StoryContinues(all, history, Status(pending, still, recorded, later));
  }

  lemma LaunchStory(all: seq<string>, history: seq<Status>, pending: seq<string>, running: seq<Job>,
                    done: map<string, Outcome>, now: nat)
    requires Recorded(all, history, pending, running, done, now) && |pending| > 0 && |running| < MAX_PARALLEL
    ensures var more := running + [Job(pending[0], now)];
      Recorded(all, history + [Status(pending[1..], more, done, now)], pending[1..], more, done, now)
  {
    hide Story, Collect;
    StoryContinues(all, history, Status(pending[1..], running + [Job(pending[0], now)], done, now));
  }

  // ---- the serial suites and the verdict ----------------------------------

  /** The suites that change the build tree, one at a time, after the pool. */
  method RunSerial(w: World, serial: seq<string>, pooled: map<string, Outcome>,
                   ghost all: seq<string>, ghost before: seq<Status>)
    returns (results: map<string, Outcome>, ghost history: seq<Status>)
    requires Distinct(all) && AllJustified(w.exits, pooled)
    requires Recorded(all, before, serial, [], pooled, w.now)
    modifies w
    ensures AllJustified(w.exits, results)
    ensures Recorded(all, history, [], [], results, w.now) && before <= history
    ensures forall i | |before| <= i < |history| :: |history[i].running| <= 1
  {
    hide Partition, Names, Count, NoneTwice, Recorded, Extends;
    results, history := pooled, before;
    assert serial[0..] == serial;
    for i := 0 to |serial|
      invariant AllJustified(w.exits, results)
      invariant Recorded(all, history, serial[i..], [], results, w.now)
      invariant before <= history && forall i | |before| <= i < |history| :: |history[i].running| <= 1
    {
      LaunchStory(all, history, serial[i..], [], results, w.now);
      assert serial[i..][1..] == serial[i + 1..] && serial[i..][0] == serial[i];
      var pendingOne := [Job(serial[i], w.now)];
      assert [] + pendingOne == pendingOne;
      history := history + [Status(serial[i + 1..], pendingOne, results, w.now)];
      while |pendingOne| > 0
        invariant |pendingOne| <= 1
        invariant AllJustified(w.exits, results)
        invariant Recorded(all, history, serial[i + 1..], pendingOne, results, w.now)
        invariant before <= history && forall i | |before| <= i < |history| :: |history[i].running| <= 1
        decreases |pendingOne|, HeadBudget(pendingOne, w.now)
      {
        RunningOnce(all, history, serial[i + 1..], pendingOne, results, w.now);
        ghost var running, done, at := pendingOne, results, w.now;
        pendingOne, results := Reap(w, pendingOne, results, Some(SUITE_TIMEOUT));
        CollectStory(w.exits, all, history, serial[i + 1..], running, done, at, pendingOne, results, w.now);
        history := history + [Status(serial[i + 1..], pendingOne, results, w.now)];
        if |pendingOne| > 0 {
          ghost var polled := w.now;
          w.Sleep(POLL);
          TimePasses(all, history, serial[i + 1..], pendingOne, results, polled, w.now);
        }
      }
      assert pendingOne == [];
    }
    assert serial[|serial|..] == [];
  }

  /** What the builds around the suites did. */
  datatype Builds = Builds(first: int, clean: int, restore: int, prgExists: bool)

  /** `restore_default_build` found nothing wrong. */
  predicate Restored(b: Builds) {
    b.clean == 0 && b.restore == 0 && b.prgExists
  }

  lemma CompleteIsListed(all: seq<string>, done: set<string>, name: string)
    requires Complete(all, done)
    ensures name in done <==> name in all
  {
    CountIsMembership(all, name);
    assert In(done, name) == Count(all, name);
  }

  /** The gate: exit code 0 exactly when the first build worked, every suite of both
      lists exited 0 by itself, and the tree was restored. The history is the whole
      story, from all suites waiting to all recorded; at every moment of it each suite
      is in exactly one place and at most five run, a serial suite runs alone, and whatever
      was killed had run past its budget since its launch. */
  method RunGate(w: World, tests: seq<string>, serial: seq<string>, builds: Builds)
    returns (code: int, results: map<string, Outcome>, ghost history: seq<Status>)
    requires Distinct(tests + serial)
    modifies w
    ensures code == 0 || code == 1
    ensures builds.first == 0 ==> forall n :: n in results <==> n in tests + serial
    ensures AllJustified(w.exits, results)
    ensures code == 0 <==>
            && builds.first == 0 && (|serial| > 0 ==> Restored(builds))
            && forall n | n in tests + serial :: n in results && !results[n].killed && results[n].rc == 0
    ensures Story(tests + serial, history) && history != []
    ensures builds.first == 0 ==> Last(history) == Status([], [], results, Last(history).now)
    ensures forall n | n in results && results[n].killed :: exists l, k :: RanOver(history, n, l, k)
    ensures forall i | 0 <= i < |history| :: Partition(tests + serial, history[i])
    ensures forall i | 0 <= i < |history| && |history[i].pending| < |serial| :: |history[i].running| <= 1
  {
    ghost var all := tests + serial;
    results, history := map[], [Status(all, [], map[], w.now)];
    StoryBegins(all, w.now);
    StartOf(all, w.now);
    if builds.first != 0 {
      code := 1;
      return;
    }
    ghost var pool;
    results, pool := RunPool(w, tests, serial);
    results, history := RunSerial(w, serial, results, all, pool);
    forall i | 0 <= i < |history| ensures Partition(all, history[i]) {
      StoryKeepsPartition(all, history, i);
    }
    EndOf(all, Last(history));
    forall n | n in results && results[n].killed ensures exists l, k :: RanOver(history, n, l, k) {
      var l, k := KilledRanOver(all, history, |history| - 1, n);
    }
    forall n: string ensures n in results <==> n in all {
      CompleteIsListed(all, results.Keys, n);
    }
    assert forall i | 0 <= i < |pool| :: history[i] in pool by {
      assert forall i | 0 <= i < |pool| :: history[i] == pool[i];
    }
    hide Complete, Story, Partition;
    var restoreFailed := |serial| > 0 && !Restored(builds);
    var ok := true;
    var left := results.Keys;
    while left != {}
      invariant left <= results.Keys
      invariant ok <==> forall n | n in results && n !in left :: results[n].rc == 0
      decreases |left|
    {
      var name :| name in left;
      if results[name].rc != 0 {
        ok := false;
      }
      left := left - {name};
    }
    if restoreFailed {
      ok := false;
    }
    code := if ok then 0 else 1;
  }
}
