/** The streamed and the buffered answer on one promised schedule. */
module StreamClock {
  import opened SimModels
  import opened Wrappers

  /** One event sent at `at` that was due at `due`. */
  datatype Event = Event(at: real, due: real)

  /** The machine the double runs on. The n-th sleep returns `overshoot(n)` seconds late, and the n-th
      send keeps the double busy for `busy(n)` seconds. */
  class Machine {
    const overshoot: nat -> real
    const busy: nat -> real
    var now: real
    var sleeps: nat
    var sends: nat

    ghost predicate Sane()
      reads this
    {
      (forall n: nat :: overshoot(n) >= 0.0) && (forall n: nat :: busy(n) >= 0.0)
    }

    constructor (overshoot: nat -> real, busy: nat -> real, now: real)
      ensures this.overshoot == overshoot && this.busy == busy && this.now == now
    {
      this.overshoot, this.busy, this.now := overshoot, busy, now;
      sleeps, sends := 0, 0;
    }

    method Sleep(seconds: real)
      requires Sane() && seconds > 0.0
      modifies this
      ensures Sane() && now == old(now) + seconds + overshoot(old(sleeps))
      ensures sleeps == old(sleeps) + 1 && sends == old(sends)
    {
      now, sleeps := now + seconds + overshoot(sleeps), sleeps + 1;
    }

    /** Send one event; the result is when it left. */
    method Send() returns (at: real)
      requires Sane()
      modifies this
      ensures Sane() && at == old(now) && now == old(now) + busy(old(sends))
      ensures sends == old(sends) + 1 && sleeps == old(sleeps)
    {
      at := now;
      now, sends := now + busy(sends), sends + 1;
    }
  }

  /** Deadlines counted from one start. */
  class Clock {
    const machine: Machine
    var due: real

    constructor (machine: Machine, first: real)
      ensures this.machine == machine && due == machine.now + first
    {
      this.machine := machine;
      due := machine.now + first;
    }

    /** Sleep until the deadline, or not at all when it has passed. */
    method Wait()
      requires machine.Sane()
      modifies machine
      ensures machine.Sane() && machine.sends == old(machine.sends)
      ensures due <= machine.now && old(machine.now) <= machine.now
      ensures machine.now == old(machine.now) || machine.now == due + machine.overshoot(old(machine.sleeps))
      ensures old(machine.now) >= due ==> machine.now == old(machine.now)
    {
      var remaining := due - machine.now;
      if remaining > 0.0 {
        machine.Sleep(remaining);
      }
    }

    method Advance(gap: real)
      requires machine.Sane()
      modifies this, machine
      ensures machine.Sane() && machine.sends == old(machine.sends)
      ensures due == old(due) + gap
      ensures due <= machine.now && old(machine.now) <= machine.now
      ensures machine.now == old(machine.now) || machine.now == due + machine.overshoot(old(machine.sleeps))
      ensures old(machine.now) >= due ==> machine.now == old(machine.now)
    {
      due := due + gap;
      Wait();
    }
  }

  // ---- lateness -------------------------------------------------------------------------

  /** Sleeps are at most `e` late and no send takes longer than a gap. */
  ghost predicate Bounded(m: Machine, e: real, gap: real) {
    (forall n: nat :: m.overshoot(n) <= e) && (forall n: nat :: m.busy(n) <= gap)
  }

  /** The deadline of a slot, counted in gaps from the first. */
  function DueAt(first: real, gap: real, slot: nat): real {
    first + slot as real * gap
  }

  /** The k-th event is due k gaps after the first, and none leaves early. */
  ghost predicate OnSchedule(events: seq<Event>, first: real, gap: real, slots: seq<nat>) {
    && |slots| == |events|
    && forall i :: 0 <= i < |events| ==>
         events[i].due == DueAt(first, gap, slots[i]) && events[i].due <= events[i].at
  }

  ghost predicate AtMostLate(events: seq<Event>, e: real) {
    forall i :: 0 <= i < |events| ==> events[i].at <= events[i].due + e
  }

  lemma NextSlot(first: real, gap: real, n: nat)
    ensures DueAt(first, gap, n + 1) == DueAt(first, gap, n) + gap
  {
  }

  /** `slots` from `from` on, one for each of `count` events. */
  function Slots(from: nat, count: nat): (s: seq<nat>)
    ensures |s| == count && forall i :: 0 <= i < count ==> s[i] == from + i
  {
    seq(count, i requires 0 <= i < count => from + i)
  }

  /** The events paced by the schedule: the role, the thinking, then the answer or one tool call. */
  function PacedSlots(thinking: nat, answer: nat, toolCall: bool): seq<nat> {
    Slots(0, 1 + thinking) + if toolCall then [thinking + answer] else Slots(1 + thinking, answer)
  }

  /** What a streamed answer keeps: the deadline is the slot's, and a machine that is only ever a
      little late is at most a gap later than that. */
  ghost predicate AtSlot(clock: Clock, first: real, gap: real, slot: nat, e: real)
    reads clock, clock.machine
  {
    && clock.machine.Sane()
    && clock.due == DueAt(first, gap, slot) && clock.due <= clock.machine.now
    && (Calm(clock.machine, e, gap) ==> clock.machine.now <= clock.due + e + gap)
  }

  ghost predicate Calm(machine: Machine, e: real, gap: real) {
    0.0 <= e && Bounded(machine, e, gap)
  }

  lemma CalmGap(machine: Machine, e: real, gap: real)
    requires machine.Sane() && Bounded(machine, e, gap)
    ensures 0.0 <= gap
  {
    assert 0.0 <= machine.busy(0) <= gap;
  }

  /** Advance to the next deadline and send, `count` times. */
  method SendPaced(clock: Clock, gap: real, count: nat, ghost first: real, ghost slot: nat, ghost e: real)
    returns (events: seq<Event>)
    requires AtSlot(clock, first, gap, slot, e)
    modifies clock, clock.machine
    ensures AtSlot(clock, first, gap, slot + count, e)
    ensures OnSchedule(events, first, gap, Slots(slot + 1, count))
    ensures Calm(clock.machine, e, gap) ==> AtMostLate(events, e)
  {
    hide DueAt;
    events := [];
    for i := 0 to count
      invariant AtSlot(clock, first, gap, slot + i, e)
      invariant OnSchedule(events, first, gap, Slots(slot + 1, i))
      invariant Calm(clock.machine, e, gap) ==> AtMostLate(events, e)
    {
      NextSlot(first, gap, slot + i);
      clock.Advance(gap);
      var at := clock.machine.Send();
      events := events + [Event(at, clock.due)];
      assert Calm(clock.machine, e, gap) ==> at <= clock.due + e;
    }
  }

  /** Advance through `count` deadlines in silence. */
  method WaitPaced(clock: Clock, gap: real, count: nat, ghost first: real, ghost slot: nat, ghost e: real)
    requires AtSlot(clock, first, gap, slot, e)
    modifies clock, clock.machine
    ensures AtSlot(clock, first, gap, slot + count, e)
    ensures Calm(clock.machine, e, gap) && count > 0 ==> clock.machine.now <= clock.due + e
  {
    hide DueAt;
    for i := 0 to count
      invariant AtSlot(clock, first, gap, slot + i, e)
      invariant Calm(clock.machine, e, gap) && i > 0 ==> clock.machine.now <= clock.due + e
    {
      NextSlot(first, gap, slot + i);
      if 0.0 <= e && Bounded(clock.machine, e, gap) {
        CalmGap(clock.machine, e, gap);
      }
      clock.Advance(gap);
    }
  }

  lemma JoinedSchedule(a: seq<Event>, b: seq<Event>, first: real, gap: real, s: seq<nat>, t: seq<nat>, e: real)
    requires OnSchedule(a, first, gap, s) && OnSchedule(b, first, gap, t)
    ensures OnSchedule(a + b, first, gap, s + t)
    ensures AtMostLate(a, e) && AtMostLate(b, e) ==> AtMostLate(a + b, e)
  {
  }

  /** The visible part: a tool call waits out its tokens and is sent as one event, an answer is
      streamed. */
  method SendAnswer(clock: Clock, gap: real, count: nat, toolCall: bool,
                    ghost first: real, ghost slot: nat, ghost e: real)
    returns (events: seq<Event>)
    requires AtSlot(clock, first, gap, slot, e)
    modifies clock, clock.machine
    ensures AtSlot(clock, first, gap, slot + count, e) || toolCall
    ensures clock.machine.Sane() && clock.due == DueAt(first, gap, slot + count) && clock.due <= clock.machine.now
    ensures OnSchedule(events, first, gap, if toolCall then [slot + count] else Slots(slot + 1, count))
    ensures Calm(clock.machine, e, gap) && (toolCall ==> 0 < count) ==> AtMostLate(events, e)
  {
    if toolCall {
      WaitPaced(clock, gap, count, first, slot, e);
      var at := clock.machine.Send();
      events := [Event(at, clock.due)];
    } else {
      events := SendPaced(clock, gap, count, first, slot, e);
    }
  }

  /** The start of a stream: the clock is set, and the role is sent at the first deadline. */
  method Open(machine: Machine, first: real, gap: real, ghost e: real) returns (clock: Clock, role: Event, start: real)
    requires machine.Sane()
    modifies machine
    ensures fresh(clock) && clock.machine == machine
    ensures start == old(machine.now) + machine.busy(old(machine.sends))
    ensures AtSlot(clock, start + first, gap, 0, if 0.0 <= first then e else -1.0)
    ensures OnSchedule([role], start + first, gap, Slots(0, 1))
    ensures Calm(machine, e, gap) && 0.0 <= first ==> AtMostLate([role], e)
  {
    var _ := machine.Send();
    start := machine.now;
    clock := new Clock(machine, first);
    clock.Wait();
    var at := machine.Send();
    role := Event(at, clock.due);
    FirstSlot(clock.due, gap, at);
    if Bounded(machine, e, gap) {
      CalmGap(machine, e, gap);
    }
  }

  /** A stream of `thinking` and `answer` events, the first due `wait` seconds after the start. */
  method Play(machine: Machine, wait: real, gap: real, thinking: nat, answer: nat, toolCall: bool, ghost e: real)
    returns (events: seq<Event>, start: real, last: real)
    requires machine.Sane()
    modifies machine
    ensures start == old(machine.now) + machine.busy(old(machine.sends))
    ensures last == DueAt(start + wait, gap, thinking + answer) && last <= machine.now
    ensures OnSchedule(events, start + wait, gap, PacedSlots(thinking, answer, toolCall))
    ensures Calm(machine, e, gap) && 0.0 <= wait && (toolCall ==> 0 < answer) ==> AtMostLate(events, e)
  {
    ghost var bound := if 0.0 <= wait then e else -1.0;
    var clock, role;
    clock, role, start := Open(machine, wait, gap, e);
    var thoughts := SendPaced(clock, gap, thinking, start + wait, 0, bound);
    var visible := SendAnswer(clock, gap, answer, toolCall, start + wait, thinking, bound);
    WholeStream(role, thoughts, visible, start + wait, gap, thinking, answer, toolCall, bound);
    events, last := [role] + thoughts + visible, clock.due;
    Close(machine);
  }

  /** The streamed answer. `e` bounds how late a sleep may return. Its last deadline is the start plus
      the promised seconds plus the extra latency; no event leaves before its own deadline; and when
      no send takes longer than a gap every paced event is at most `e` late, however many there are. */
  method Stream(machine: Machine, model: SimModel, thinking: nat, answer: nat, toolCall: bool, extra: real,
                ghost e: real)
    returns (events: seq<Event>, start: real, last: real)
    requires machine.Sane()
    modifies machine
    ensures start == old(machine.now) + machine.busy(old(machine.sends))
    ensures last == start + model.DeclaredSeconds(answer, thinking) + extra && last <= machine.now
    ensures OnSchedule(events, start + (model.ttftMs / 1000.0 + extra), model.SecondsPerChunk(),
                       PacedSlots(RangeCount(thinking, model.PerChunk()), RangeCount(answer, model.PerChunk()),
                                  toolCall))
    ensures (Calm(machine, e, model.SecondsPerChunk()) && 0.0 <= model.ttftMs / 1000.0 + extra
             && (toolCall ==> 0 < answer)) ==> AtMostLate(events, e)
  {
    var chunks, more := RangeCount(thinking, model.PerChunk()), RangeCount(answer, model.PerChunk());
    var wait := model.ttftMs / 1000.0 + extra;
    events, start, last := Play(machine, wait, model.SecondsPerChunk(), chunks, more, toolCall, e);
    PromiseIsTheSchedule(model, answer, thinking, start, extra, last);
    SomeChunk(answer, model.PerChunk());
  }

  lemma SomeChunk(n: nat, p: int)
    requires p > 0
    ensures 0 < n ==> 0 < RangeCount(n, p)
  {
    if 0 < n {
      assert (n + p - 1) / p >= 1 by {
        DivIs(n + p - 1, p, (n + p - 1) / p, (n + p - 1) % p);
      }
    }
  }

  /** The finish reason, the usage and the end marker follow without waiting. */
  method Close(machine: Machine)
    requires machine.Sane()
    modifies machine
    ensures machine.Sane() && old(machine.now) <= machine.now
  {
    var _ := machine.Send();
    var _ := machine.Send();
    var _ := machine.Send();
  }

  lemma WholeStream(role: Event, thoughts: seq<Event>, visible: seq<Event>, first: real, gap: real,
                    chunks: nat, more: nat, toolCall: bool, e: real)
    requires OnSchedule([role], first, gap, Slots(0, 1))
    requires OnSchedule(thoughts, first, gap, Slots(1, chunks))
    requires OnSchedule(visible, first, gap, if toolCall then [chunks + more] else Slots(chunks + 1, more))
    ensures OnSchedule([role] + thoughts + visible, first, gap, PacedSlots(chunks, more, toolCall))
    ensures AtMostLate([role], e) && AtMostLate(thoughts, e) && AtMostLate(visible, e) ==>
              AtMostLate([role] + thoughts + visible, e)
  {
    JoinedSchedule([role], thoughts, first, gap, Slots(0, 1), Slots(1, chunks), e);
    assert Slots(0, 1) + Slots(1, chunks) == Slots(0, 1 + chunks);
    JoinedSchedule([role] + thoughts, visible, first, gap, Slots(0, 1 + chunks),
                   if toolCall then [chunks + more] else Slots(chunks + 1, more), e);
  }

  lemma FirstSlot(first: real, gap: real, at: real)
    requires first <= at
    ensures OnSchedule([Event(at, first)], first, gap, Slots(0, 1))
  {
    assert 0 as real * gap == 0.0;
  }

  /** What the model promises is what the schedule adds up to. */
  lemma PromiseIsTheSchedule(model: SimModel, answer: nat, thinking: nat, start: real, extra: real, last: real)
    requires last == (start + (model.ttftMs / 1000.0 + extra))
                     + (RangeCount(thinking, model.PerChunk()) + RangeCount(answer, model.PerChunk())) as real
                       * model.SecondsPerChunk()
    ensures last == start + model.DeclaredSeconds(answer, thinking) + extra
  {
    RangeIsCeil(answer, model.PerChunk());
    RangeIsCeil(thinking, model.PerChunk());
  }

  /** The buffered answer sleeps the same promise in one piece, and is late by one overshoot. */
  method Buffered(machine: Machine, model: SimModel, thinking: nat, answer: nat, extra: real)
    returns (at: real, promised: real)
    requires machine.Sane()
    modifies machine
    ensures promised == old(machine.now) + model.DeclaredSeconds(answer, thinking) + extra
    ensures promised <= at <= machine.now
    ensures old(machine.now) < promised ==> at == promised + machine.overshoot(old(machine.sleeps))
  {
    var seconds := model.DeclaredSeconds(answer, thinking) + extra;
    promised := machine.now + seconds;
    if seconds > 0.0 {
      machine.Sleep(seconds);
    }
    at := machine.Send();
  }

  /** One chat request: planned once, then streamed or slept through. Either way what is promised is
      the declared time of the same plan, counted from where the answer's clock starts. */
  method Chat(machine: Machine, model: SimModel, maxTokens: Option<int>, thinking: bool, toolCall: bool, stream: bool,
              extra: real, ghost e: real)
    returns (start: real, promised: real)
    requires machine.Sane()
    requires 0.0 <= model.reasoningShare <= 1.0 && 0 <= model.defaultMaxTokens && 0 <= model.maxOutputTokens
    modifies machine
    ensures var (answer, reasoning) := model.OutputPlan(maxTokens, thinking, toolCall);
            promised == start + model.DeclaredSeconds(answer, reasoning) + extra
    ensures start == if stream then old(machine.now) + machine.busy(old(machine.sends)) else old(machine.now)
    ensures promised <= machine.now
  {
    PlanSplitsTheAnswer(model, maxTokens, thinking);
    var (answer, reasoning) := model.OutputPlan(maxTokens, thinking, toolCall);
    start := machine.now;
    if stream {
      var events;
      events, start, promised := Stream(machine, model, reasoning, answer, toolCall, extra, e);
    } else {
      var at;
      at, promised := Buffered(machine, model, reasoning, answer, extra);
    }
  }
}
