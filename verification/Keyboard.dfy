/** Typing on the C64 from the host: the KERNAL keyboard queue as a protocol between a
    host that writes and a machine that removes the head at times of its own choosing. */
module Keyboard {
  import opened Bytes

  const KBD_MAX: nat := 10
  const C64_INPUT_MAX: nat := 832
  const RETURN: Byte := 0x0d
  const POLL_MS: nat := 50

  /** The two ends of the queue at one moment. */
  datatype Snapshot = Snapshot(consumed: seq<Byte>, queue: seq<Byte>)

  /** The machine takes the head of its queue. */
  predicate Took(s: Snapshot, t: Snapshot) {
    s.queue != [] && t == Snapshot(s.consumed + [s.queue[0]], s.queue[1..])
  }

  /** The host puts keys in an empty queue. */
  predicate Wrote(s: Snapshot, t: Snapshot) {
    s.queue == [] && t.consumed == s.consumed && |t.queue| <= KBD_MAX
  }

  /** Nothing happens between two snapshots but one key taken or one write. */
  ghost predicate Linked(history: seq<Snapshot>) {
    forall i | 0 < i < |history| :: Took(history[i - 1], history[i]) || Wrote(history[i - 1], history[i])
  }

  lemma LinkedNext(history: seq<Snapshot>, next: Snapshot)
    requires Linked(history) && history != []
    requires Took(history[|history| - 1], next) || Wrote(history[|history| - 1], next)
    ensures Linked(history + [next])
  {
    var longer := history + [next];
    forall i | 0 < i < |longer| ensures Took(longer[i - 1], longer[i]) || Wrote(longer[i - 1], longer[i]) {
      if i < |history| {
        assert longer[i - 1] == history[i - 1] && longer[i] == history[i];
      }
    }
  }

  lemma HeadTaken(s: Snapshot)
    requires s.queue != []
    ensures [s.queue[0]] + s.queue[1..] == s.queue
    ensures (s.consumed + [s.queue[0]]) + s.queue[1..] == s.consumed + s.queue
  {
  }

  /** Whoever moves when, a key once consumed stays consumed and a key once typed stays
      typed, in order: from any snapshot to any later one both only grow. */
  lemma {:induction false} NothingIsLost(history: seq<Snapshot>, i: nat, j: nat)
    requires Linked(history) && i <= j < |history|
    ensures history[i].consumed <= history[j].consumed
    ensures history[i].consumed + history[i].queue <= history[j].consumed + history[j].queue
    decreases j
  {
    if i < j {
      NothingIsLost(history, i, j - 1);
      var s, t := history[j - 1], history[j];
      if Took(s, t) {
        HeadTaken(s);
      } else {
        assert Wrote(s, t) && s.consumed + s.queue == s.consumed;
      }
    }
  }

  /** Between two moments the queue never overflowed, and what the machine consumed
      followed by what was waiting was always a beginning of `goal`. */
  ghost predicate Kept(before: seq<Snapshot>, after: seq<Snapshot>, goal: seq<Byte>) {
    && before <= after
    && forall i | |before| <= i < |after| ::
         |after[i].queue| <= KBD_MAX && after[i].consumed + after[i].queue <= goal
  }

  lemma KeptStill(history: seq<Snapshot>, goal: seq<Byte>)
    ensures Kept(history, history, goal)
  {
  }

  lemma KeptLonger(before: seq<Snapshot>, after: seq<Snapshot>, goal: seq<Byte>, rest: seq<Byte>)
    requires Kept(before, after, goal)
    ensures Kept(before, after, goal + rest)
  {
    forall i | |before| <= i < |after|
      ensures after[i].consumed + after[i].queue <= goal + rest
    {
      var typed := after[i].consumed + after[i].queue;
      assert goal[..|typed|] == (goal + rest)[..|typed|];
    }
  }

  lemma KeptOn(first: seq<Snapshot>, middle: seq<Snapshot>, last: seq<Snapshot>, goal: seq<Byte>)
    requires Kept(first, middle, goal) && Kept(middle, last, goal)
    ensures Kept(first, last, goal)
  {
    forall i | |first| <= i < |last|
      ensures |last[i].queue| <= KBD_MAX && last[i].consumed + last[i].queue <= goal
    {
      if i < |middle| {
        assert last[i] == middle[i];
      }
    }
  }

  /** The machine: its queue, and when it takes keys from it. Between one operation of
      the host's and the next it removes as many keys as `eats` says, while there are
      any; `delay` is the time the operation takes. */
  class Machine {
    const eats: nat -> nat
    const delay: nat -> nat
    const buffer: array<Byte>
    var count: nat
    var now: nat
    var tick: nat
    ghost var consumed: seq<Byte>
    ghost var history: seq<Snapshot>

    predicate Sized()
      reads this
    {
      buffer.Length == KBD_MAX && count <= KBD_MAX
    }

    /** The history is complete: it has every change of the queue, one at a time, and
        ends with the queue as it is. */
    ghost predicate Valid()
      reads this, buffer
    {
      && Sized() && Linked(history) && history != []
      && history[|history| - 1] == Snapshot(consumed, Queue())
    }

    /** A machine that empties its queue whenever it gets to run. */
    ghost predicate Prompt() {
      forall t :: eats(t) >= KBD_MAX
    }

    function Queue(): seq<Byte>
      reads this, buffer
      requires Sized()
    {
      buffer[..count]
    }

    /** Everything put in the queue so far. */
    ghost function Typed(): seq<Byte>
      reads this, buffer
      requires Sized()
    {
      consumed + Queue()
    }

    constructor (eats: nat -> nat, delay: nat -> nat)
      ensures Valid() && fresh(buffer) && count == 0 && history == [Snapshot([], [])]
      ensures this.eats == eats && this.delay == delay
    {
      this.eats, this.delay := eats, delay;
      buffer := new Byte[KBD_MAX];
      count, now, tick := 0, 0, 0;
      consumed, history := [], [Snapshot([], [])];
    }

    /** GETIN: take the first key and move the others down. */
    method RemoveHead() returns (key: Byte)
      requires Valid() && count > 0
      modifies this`count, this`consumed, this`history, buffer
      ensures Valid() && [key] + Queue() == old(Queue()) && consumed == old(consumed) + [key]
      ensures count == old(count) - 1 && Typed() == old(Typed())
      ensures history == old(history) + [Snapshot(consumed, Queue())]
    {
      hide Linked;
      ghost var was := history[|history| - 1];
      ghost var next := Snapshot(was.consumed + [was.queue[0]], was.queue[1..]);
      HeadTaken(was);
      LinkedNext(history, next);
      key := buffer[0];
      MoveDown();
      count := count - 1;
      consumed := consumed + [key];
      history := history + [next];
    }

    method MoveDown()
      requires Sized() && count > 0
      modifies buffer
      ensures buffer[..count - 1] == old(buffer[..count])[1..]
    {
      for i := 1 to count
        invariant forall j | 0 <= j < i - 1 :: buffer[j] == old(buffer[j + 1])
        invariant forall j | i - 1 <= j < buffer.Length :: buffer[j] == old(buffer[j])
      {
        buffer[i - 1] := buffer[i];
      }
    }

    /** The machine's own time between two operations of the host's. */
    method Elapse()
      requires Valid()
      modifies this`count, this`consumed, this`history, this`now, this`tick, buffer
      ensures Valid() && Typed() == old(Typed()) && now >= old(now)
      ensures count == (if old(count) > eats(old(tick)) then old(count) - eats(old(tick)) else 0)
      ensures old(count) == 0 ==> buffer[..] == old(buffer[..])
      ensures Kept(old(history), history, old(Typed()))
      ensures |history| == |old(history)| + (old(count) - count)
    {
      var removals := eats(tick);
      for k := 0 to removals
        invariant Valid() && Typed() == old(Typed()) && now == old(now) && tick == old(tick)
        invariant count == if old(count) > k then old(count) - k else 0
        invariant old(count) == 0 ==> buffer[..] == old(buffer[..])
        invariant Kept(old(history), history, old(Typed()))
        invariant |history| == |old(history)| + (old(count) - count)
      {
        if count > 0 {
          var _ := RemoveHead();
        }
      }
      now := now + delay(tick);
      tick := tick + 1;
    }

    method Sleep(ms: nat)
      requires Valid()
      modifies this`count, this`consumed, this`history, this`now, this`tick, buffer
      ensures Valid() && Typed() == old(Typed()) && count <= old(count) && now >= old(now) + ms
      ensures Kept(old(history), history, old(Typed()))
    {
      Elapse();
      now := now + ms;
    }

    /** `read_memory(KBD_COUNT, 1)[0]` */
    method ReadCount() returns (n: nat)
      requires Valid()
      modifies this`count, this`consumed, this`history, this`now, this`tick, buffer
      ensures Valid() && Typed() == old(Typed()) && now >= old(now)
      ensures n == count == (if old(count) > eats(old(tick)) then old(count) - eats(old(tick)) else 0)
      ensures Kept(old(history), history, old(Typed()))
    {
      Elapse();
      n := count;
    }

    /** `write_memory(KBD_BUFFER, chunk)`, with the queue empty. */
    method WriteBuffer(chunk: seq<Byte>)
      requires Valid() && count == 0 && |chunk| <= KBD_MAX
      modifies this`count, this`consumed, this`history, this`now, this`tick, buffer
      ensures Valid() && Typed() == old(Typed()) && count == 0 && now >= old(now)
      ensures buffer[..|chunk|] == chunk
      ensures Kept(old(history), history, old(Typed()))
    {
      Elapse();
      for i := 0 to |chunk|
        modifies buffer
        invariant buffer[..i] == chunk[..i]
      {
        buffer[i] := chunk[i];
      }
    }

    /** `write_memory(KBD_COUNT, bytes([n]))`, with the queue empty: the keys become live. */
    method WriteCount(n: nat)
      requires Valid() && count == 0 && n <= KBD_MAX
      modifies this`count, this`consumed, this`history, this`now, this`tick, buffer
      ensures Valid() && count == n && Typed() == old(Typed()) + old(buffer[..n]) && now >= old(now)
      ensures Kept(old(history), history, old(Typed()) + old(buffer[..n]))
      ensures history == old(history) + [Snapshot(consumed, Queue())]
    {
      ghost var before := Typed();
      Elapse();
      assert buffer[..n] == old(buffer[..n]);
      KeptLonger(old(history), history, before, buffer[..n]);
      count := n;
      assert consumed == before;
      LinkedNext(history, Snapshot(consumed, buffer[..n]));
      history := history + [Snapshot(consumed, buffer[..n])];
    }

    // ---- the host ---------------------------------------------------------

    /** Wait until the machine has taken every key; false at the deadline. */
    method WaitDrained(timeout: nat) returns (drained: bool)
      requires Valid()
      modifies this`count, this`consumed, this`history, this`now, this`tick, buffer
      ensures Valid() && Typed() == old(Typed()) && now >= old(now)
      ensures drained ==> count == 0 && consumed == old(Typed())
      ensures !drained ==> now >= old(now) + timeout
      ensures Prompt() && timeout > 0 ==> drained
      ensures Kept(old(history), history, old(Typed()))
    {
      var deadline := now + timeout;
      while now < deadline
        invariant Valid() && Typed() == old(Typed()) && now >= old(now)
        invariant Prompt() && timeout > 0 ==> now == old(now)
        invariant Kept(old(history), history, old(Typed()))
        decreases deadline - now
      {
        var waiting := ReadCount();
        if waiting == 0 {
          return true;
        }
        Sleep(POLL_MS);
      }
      return false;
    }

    /** One key: true exactly when the wait before and the wait after both saw the queue
        empty, and then the key was consumed. */
    method PressKey(key: Byte, timeout: nat) returns (pressed: bool)
      requires Valid()
      modifies this`count, this`consumed, this`history, this`now, this`tick, buffer
      ensures Valid() && now >= old(now)
      ensures Typed() == old(Typed()) || Typed() == old(Typed()) + [key]
      ensures pressed ==> count == 0 && consumed == Typed() == old(Typed()) + [key]
      ensures Prompt() && timeout > 0 ==> pressed
      ensures Kept(old(history), history, old(Typed()) + [key])
    {
      hide Kept, Linked;
      ghost var start, h0 := Typed(), history;
      pressed := WaitDrained(timeout);
      KeptLonger(h0, history, start, [key]);
      if !pressed {
        return;
      }
      ghost var h1 := history;
      WriteBuffer([key]);
      ghost var h2 := history;
      KeptLonger(h1, h2, start, [key]);
      WriteCount(1);
      ghost var h3 := history;
      pressed := WaitDrained(timeout);
      KeptOn(h0, h1, h2, start + [key]);
      KeptOn(h0, h2, h3, start + [key]);
      KeptOn(h0, h3, history, start + [key]);
    }

    /** A string, ten characters at a time. */
    method TypeText(text: string, timeout: nat) returns (typed: bool)
      requires Valid()
      modifies this`count, this`consumed, this`history, this`now, this`tick, buffer
      ensures Valid() && now >= old(now)
      ensures old(Typed()) <= Typed() <= old(Typed()) + Ascii(text)
      ensures typed ==> count == 0 && consumed == Typed() == old(Typed()) + Ascii(text)
      ensures Prompt() && timeout > 0 ==> typed
      ensures Kept(old(history), history, old(Typed()) + Ascii(text))
    {
      hide Kept, Linked, Ascii;
      var payload := EncodeAscii(text);
      ghost var start, h0 := Typed(), history;
      KeptStill(h0, start + payload);
      var i := 0;
      while i < |payload|
        invariant Valid() && 0 <= i <= |payload| && now >= old(now)
        invariant Typed() == start + payload[..i]
        invariant Kept(h0, history, start + payload)
      {
        var next := if i + KBD_MAX < |payload| then i + KBD_MAX else |payload|;
        ghost var h := history;
        typed := TypeChunk(payload[i..next], timeout);
        Joined(start, payload, i, next);
        UpTo(start, payload, next);
        KeptLonger(h, history, start + payload[..next], payload[next..]);
        KeptOn(h0, h, history, start + payload);
        if !typed {
          return;
        }
        i := next;
      }
      UpTo(start, payload, |payload|);
      ghost var h := history;
      typed := WaitDrained(timeout);
      KeptOn(h0, h, history, start + payload);
    }

    /** One turn of `type_text`: wait for an empty queue, then fill it. */
    method TypeChunk(chunk: seq<Byte>, timeout: nat) returns (typed: bool)
      requires Valid() && |chunk| <= KBD_MAX
      modifies this`count, this`consumed, this`history, this`now, this`tick, buffer
      ensures Valid() && now >= old(now)
      ensures Typed() == if typed then old(Typed()) + chunk else old(Typed())
      ensures Prompt() && timeout > 0 ==> typed
      ensures Kept(old(history), history, old(Typed()) + chunk)
    {
      hide Kept, Linked;
      ghost var start, h0 := Typed(), history;
      typed := WaitDrained(timeout);
      KeptLonger(h0, history, start, chunk);
      if !typed {
        return;
      }
      ghost var h1 := history;
      WriteBuffer(chunk);
      ghost var h2 := history;
      KeptLonger(h1, h2, start, chunk);
      WriteCount(|chunk|);
      KeptOn(h0, h1, h2, start + chunk);
      KeptOn(h0, h2, history, start + chunk);
    }

    /** M, the line in upper case and cut to what the C64 accepts, and RETURN: true only
        when exactly that was consumed; and at every moment until the call ends, no more
        than a beginning of it was consumed or waiting, in ten bytes of queue. */
    method SendMessage(text: string, upper: string -> string, timeout: nat) returns (sent: bool)
      requires Valid()
      modifies this`count, this`consumed, this`history, this`now, this`tick, buffer
      ensures Valid()
      ensures sent ==> count == 0 && consumed == old(Typed()) + Script(text, upper)
      ensures Prompt() && timeout > 0 ==> sent
      ensures old(Typed()) <= Typed() <= old(Typed()) + Script(text, upper)
      ensures Kept(old(history), history, old(Typed()) + Script(text, upper))
    {
      hide Kept, Linked, Ascii, Machine.Queue;
      var line := upper(text);
      if |line| > C64_INPUT_MAX {
        line := line[..C64_INPUT_MAX];
      }
      ghost var start, h0 := Typed(), history;
      ghost var m: seq<Byte>, keys := ['M' as int], Ascii(line);
      ghost var goal := start + Script(text, upper);
      assert goal == (start + m) + (keys + [RETURN]) && goal == (start + m + keys) + [RETURN];
      sent := PressKey('M' as int, timeout);
      ghost var h1 := history;
      KeptLonger(h0, h1, start + m, keys + [RETURN]);
      if !sent {
        return;
      }
      Sleep(300);
      ghost var h2 := history;
      KeptLonger(h1, h2, start + m, keys + [RETURN]);
      KeptOn(h0, h1, h2, goal);
      sent := TypeText(line, timeout);
      ghost var h3 := history;
      KeptLonger(h2, h3, start + m + keys, [RETURN]);
      KeptOn(h0, h2, h3, goal);
      Between(start, start + m, Typed(), start + m + keys, goal);
      if !sent {
        return;
      }
      sent := PressKey(RETURN, timeout);
      KeptOn(h0, h3, history, goal);
    }
  }

  lemma Between(a: seq<Byte>, b: seq<Byte>, c: seq<Byte>, d: seq<Byte>, e: seq<Byte>)
    requires a <= b <= c <= d <= e
    ensures a <= c <= e
  {
  }

  lemma Joined(start: seq<Byte>, payload: seq<Byte>, i: nat, next: nat)
    requires i <= next <= |payload|
    ensures (start + payload[..i]) + payload[i..next] == start + payload[..next]
  {
  }

  lemma UpTo(start: seq<Byte>, payload: seq<Byte>, n: nat)
    requires n <= |payload|
    ensures (start + payload[..n]) + payload[n..] == start + payload
    ensures start <= start + payload[..n] <= start + payload
  {
    assert payload[..n] + payload[n..] == payload;
    assert (start + payload)[..|start| + n] == start + payload[..n];
  }

  function AsciiByte(c: char): Byte {
    if c as int < 128 then c as int else '?' as int
  }

  /** `text.encode("ascii", errors="replace")` */
  function Ascii(text: string): (r: seq<Byte>)
    ensures |r| == |text|
  {
    if |text| == 0 then [] else Ascii(text[..|text| - 1]) + [AsciiByte(text[|text| - 1])]
  }

  method EncodeAscii(text: string) returns (payload: seq<Byte>)
    ensures payload == Ascii(text)
  {
    payload := [];
    for i := 0 to |text|
      invariant payload == Ascii(text[..i])
    {
      assert text[..i + 1][..i] == text[..i];
      payload := payload + [AsciiByte(text[i])];
    }
    assert text[..|text|] == text;
  }

  function Line(text: string, upper: string -> string): string {
    var line := upper(text);
    if |line| > C64_INPUT_MAX then line[..C64_INPUT_MAX] else line
  }

  /** The keys of a message. */
  function Script(text: string, upper: string -> string): seq<Byte> {
    ['M' as int] + Ascii(Line(text, upper)) + [RETURN]
  }
}
