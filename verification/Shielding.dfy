/** Work that finishes even when whoever waits for it is cancelled, over every interleaving. */
module Shielding {
  import opened Wrappers

  /** How the shielded work stands. It may also end by cancelling itself. */
  datatype Work<T, E> = Running | Returned(value: T) | Failed(error: E) | CancelledItself

  /** A cancellation of the waiting task, told by its number, or of the scope around it. */
  datatype Cancellation = ByTask(number: nat) | ByScope

  /** What reaches the caller. */
  datatype Outcome<T, E> =
    | Result(value: T)
    | Raises(error: E)
    | RaisesWorkCancelled
    | RaisesCancelled(cancellation: Cancellation, cause: Option<E>)

  datatype Waiter<T, E> = Waiting | Left(outcome: Outcome<T, E>)

  /** The future the waiter sleeps on: the end of the work has been noticed, or it was cancelled first. */
  datatype Sleep = Pending | Finished | Interrupted(reason: Cancellation)

  /** What may happen next. Between two runs of the waiter anything may: the work may end and its end
      be noticed, the task or the scope around it may be cancelled, and a cancelled scope may deliver
      its cancellation, which it does again and again. */
  datatype Event<T, E> =
    | WorkEnds(how: Work<T, E>)
    | EndNoticed
    | CancelTask(number: nat)
    | CancelScope
    | ScopeDelivers
    | WaiterRuns

  /** `must` is a cancellation asked for after the sleep was over, `held` the last one thrown into the
      waiter, and `wakes` counts how often it ran. */
  datatype State<T, E> = State(
    work: Work<T, E>, sleep: Sleep, must: Option<Cancellation>, held: Option<Cancellation>,
    scopeCancelled: bool, wakes: nat, waiter: Waiter<T, E>)

  /** How the waiter leaves once the work has ended. */
  function Leave<T, E>(work: Work<T, E>, held: Option<Cancellation>): Outcome<T, E>
    requires !work.Running?
  {
    match held
    case Some(c) => RaisesCancelled(c, if work.Failed? then Some(work.error) else None)
    case None =>
      match work
      case Returned(value) => Result(value)
      case Failed(error) => Raises(error)
      case CancelledItself => RaisesWorkCancelled
  }

  /** `Task.cancel`: the first call cancels the sleep, any further one leaves a note for the next run. */
  function Cancel<T, E>(s: State<T, E>, c: Cancellation): State<T, E> {
    if s.sleep.Pending? then s.(sleep := Interrupted(c)) else s.(must := Some(c))
  }

  /** What a run of the waiter throws into it: what cancelled its sleep, or else the note. */
  function ThrownBy(sleep: Sleep, must: Option<Cancellation>): Option<Cancellation> {
    if sleep.Interrupted? then Some(sleep.reason) else must
  }

  /** One step. The waiter only runs when its sleep is over; it catches what is thrown, and leaves if
      the work has ended. Only into a sleep that no shield surrounds does a scope deliver. */
  function Next<T, E>(shield: bool, s: State<T, E>, e: Event<T, E>): State<T, E> {
    match e
    case WorkEnds(how) => if s.work.Running? && !how.Running? then s.(work := how) else s
    case EndNoticed =>
      if s.waiter.Waiting? && s.sleep.Pending? && !s.work.Running? then s.(sleep := Finished) else s
    case CancelTask(number) => if s.waiter.Waiting? then Cancel(s, ByTask(number)) else s
    case CancelScope => s.(scopeCancelled := true)
    case ScopeDelivers =>
      if s.waiter.Waiting? && s.scopeCancelled && !shield && s.sleep.Pending? then Cancel(s, ByScope) else s
    case WaiterRuns =>
      if s.waiter.Left? || s.sleep.Pending? then s
      else
        var thrown := ThrownBy(s.sleep, s.must);
        var held := if thrown.Some? then thrown else s.held;
        s.(sleep := Pending, must := None, held := held, wakes := s.wakes + 1,
           waiter := if s.work.Running? then Waiting else Left(Leave(s.work, held)))
  }

  /** The state after the first `n` events. */
  function Run<T, E>(shield: bool, events: seq<Event<T, E>>, n: nat): State<T, E>
    requires n <= |events|
  {
    if n == 0 then State(Running, Pending, None, None, false, 0, Waiting)
    else Next(shield, Run(shield, events, n - 1), events[n - 1])
  }

  // ---- what the schedule itself says ----------------------------------------------------

  /** How the work ended, by its own doing alone. */
  function EndOf<T, E>(events: seq<Event<T, E>>, n: nat): Work<T, E>
    requires n <= |events|
  {
    if n == 0 then Running
    else
      var before := EndOf(events, n - 1);
      if before.Running? && events[n - 1].WorkEnds? then events[n - 1].how else before
  }

  function ScopeCancelled<T, E>(events: seq<Event<T, E>>, n: nat): bool
    requires n <= |events|
  {
    n > 0 && (events[n - 1].CancelScope? || ScopeCancelled(events, n - 1))
  }

  /** The cancellation that arrives with an event, if one does. */
  function Arrives<T, E>(shield: bool, events: seq<Event<T, E>>, i: nat): Option<Cancellation>
    requires i < |events|
  {
    match events[i]
    case CancelTask(number) => Some(ByTask(number))
    case ScopeDelivers => if !shield && ScopeCancelled(events, i) then Some(ByScope) else None
    case _ => None
  }

  /** The event ends a sleep: a cancellation arrives, or the end of the work is noticed. */
  predicate Rouses<T, E>(shield: bool, events: seq<Event<T, E>>, i: nat)
    requires i < |events|
  {
    Arrives(shield, events, i).Some? || (events[i].EndNoticed? && !EndOf(events, i).Running?)
  }

  /** The first event of a stretch that ends a sleep. */
  function FirstRousing<T, E>(shield: bool, events: seq<Event<T, E>>, from: nat, until: nat): (r: Option<nat>)
    requires from <= until <= |events|
    ensures r.Some? ==> from <= r.value < until && Rouses(shield, events, r.value)
    ensures forall i :: from <= i < (if r.Some? then r.value else until) ==> !Rouses(shield, events, i)
    decreases until
  {
    if from == until then None
    else
      var earlier := FirstRousing(shield, events, from, until - 1);
      if earlier.Some? then earlier else if Rouses(shield, events, until - 1) then Some(until - 1) else None
  }

  function LastTaskCancel<T, E>(events: seq<Event<T, E>>, from: nat, until: nat): Option<Cancellation>
    requires from <= until <= |events|
    decreases until
  {
    if from == until then None
    else if events[until - 1].CancelTask? then Some(ByTask(events[until - 1].number))
    else LastTaskCancel(events, from, until - 1)
  }

  /** What a sleep from `from` to `until` throws: the cancellation that ended it, or else, the end of the
      work having ended it, the last cancellation that arrived since. */
  function Thrown<T, E>(shield: bool, events: seq<Event<T, E>>, from: nat, until: nat): Option<Cancellation>
    requires from <= until <= |events|
  {
    match FirstRousing(shield, events, from, until)
    case None => None
    case Some(i) =>
      if Arrives(shield, events, i).Some? then Arrives(shield, events, i) else LastTaskCancel(events, from, until)
  }

  /** Where the sleep that stands after `n` events began: behind the last run that found one over. */
  function SleepsSince<T, E>(shield: bool, events: seq<Event<T, E>>, n: nat): (m: nat)
    requires n <= |events|
    ensures m <= n
  {
    if n == 0 then 0
    else
      var m := SleepsSince(shield, events, n - 1);
      if events[n - 1].WaiterRuns? && FirstRousing(shield, events, m, n - 1).Some? then n else m
  }

  /** The last cancellation thrown into the waiter. */
  function LastThrown<T, E>(shield: bool, events: seq<Event<T, E>>, n: nat): Option<Cancellation>
    requires n <= |events|
  {
    if n == 0 then None
    else
      var thrown := Thrown(shield, events, SleepsSince(shield, events, n - 1), n - 1);
      if events[n - 1].WaiterRuns? && thrown.Some? then thrown else LastThrown(shield, events, n - 1)
  }

  lemma {:induction false} QuietStretch<T, E>(shield: bool, events: seq<Event<T, E>>, from: nat, until: nat)
    requires from <= until <= |events| && FirstRousing(shield, events, from, until).None?
    ensures LastTaskCancel(events, from, until).None?
    decreases until
  {
    if from != until {
      QuietStretch(shield, events, from, until - 1);
    }
  }

  /** What the waiter is asleep on, told by the schedule. */
  ghost predicate SleepTold<T, E>(shield: bool, events: seq<Event<T, E>>, n: nat, s: State<T, E>)
    requires n <= |events|
  {
    var m := SleepsSince(shield, events, n);
    match FirstRousing(shield, events, m, n)
    case None => s.sleep.Pending? && s.must.None?
    case Some(i) =>
      if Arrives(shield, events, i).Some? then s.sleep == Interrupted(Arrives(shield, events, i).value)
      else s.sleep.Finished? && s.must == LastTaskCancel(events, m, n)
  }

  ghost predicate Told<T, E>(shield: bool, events: seq<Event<T, E>>, n: nat, s: State<T, E>)
    requires n <= |events|
  {
    && s.work == EndOf(events, n) && s.scopeCancelled == ScopeCancelled(events, n)
    && (s.sleep.Finished? || s.waiter.Left? ==> !s.work.Running?)
    && (s.waiter.Waiting? ==> SleepTold(shield, events, n, s) && s.held == LastThrown(shield, events, n))
  }

  lemma ToldWhenItRuns<T, E>(shield: bool, events: seq<Event<T, E>>, n: nat, s: State<T, E>)
    requires n < |events| && Told(shield, events, n, s) && events[n].WaiterRuns?
    ensures Told(shield, events, n + 1, Next(shield, s, events[n]))
  {
    var m := SleepsSince(shield, events, n);
    var first := FirstRousing(shield, events, m, n);
    assert SleepsSince(shield, events, n + 1) == if first.Some? then n + 1 else m;
    assert FirstRousing(shield, events, n + 1, n + 1).None?;
    assert !Rouses(shield, events, n);
    assert first.None? ==> FirstRousing(shield, events, m, n + 1).None?;
    if s.waiter.Waiting? && first.Some? {
      assert ThrownBy(s.sleep, s.must) == Thrown(shield, events, m, n);
    }
    hide FirstRousing, LastTaskCancel, SleepsSince, Rouses, Arrives;
  }

  lemma ToldOtherwise<T, E>(shield: bool, events: seq<Event<T, E>>, n: nat, s: State<T, E>)
    requires n < |events| && Told(shield, events, n, s) && !events[n].WaiterRuns?
    ensures Told(shield, events, n + 1, Next(shield, s, events[n]))
  {
    var m := SleepsSince(shield, events, n);
    var first := FirstRousing(shield, events, m, n);
    if first.None? {
      QuietStretch(shield, events, m, n);
    }
    assert SleepsSince(shield, events, n + 1) == m;
    assert LastThrown(shield, events, n + 1) == LastThrown(shield, events, n);
    assert FirstRousing(shield, events, m, n + 1) ==
           if first.Some? then first else if Rouses(shield, events, n) then Some(n) else None;
    hide FirstRousing, SleepsSince, LastThrown;
  }

  /** No cancellation ends the work, and while the waiter waits its state is what the schedule tells:
      the sleep, the note, and the last cancellation thrown. */
  lemma {:induction false} WaiterKeepsTrack<T, E>(shield: bool, events: seq<Event<T, E>>, n: nat)
    requires n <= |events|
    ensures Told(shield, events, n, Run(shield, events, n))
  {
    if n > 0 {
      WaiterKeepsTrack(shield, events, n - 1);
      hide Next, Told;
      if events[n - 1].WaiterRuns? {
        ToldWhenItRuns(shield, events, n - 1, Run(shield, events, n - 1));
      } else {
        ToldOtherwise(shield, events, n - 1, Run(shield, events, n - 1));
      }
    }
  }

  // ---- what the caller gets -------------------------------------------------------------

  /** The event at which the waiter leaves. */
  ghost predicate LeavesAt<T, E>(shield: bool, events: seq<Event<T, E>>, n: nat) {
    n < |events| && Run(shield, events, n).waiter.Waiting? && Run(shield, events, n + 1).waiter.Left?
  }

  /** What the caller is owed: with nothing thrown, what the work returned or raised, its own cancellation
      included; otherwise the cancellation thrown, caused by the work's failure exactly if it failed. */
  ghost predicate IsOwed<T, E>(work: Work<T, E>, thrown: Option<Cancellation>, outcome: Outcome<T, E>) {
    && !work.Running?
    && (outcome.Result? <==> thrown.None? && work.Returned?)
    && (outcome.Raises? <==> thrown.None? && work.Failed?)
    && (outcome.RaisesWorkCancelled? <==> thrown.None? && work.CancelledItself?)
    && (outcome.Result? ==> outcome.value == work.value)
    && (outcome.Raises? ==> outcome.error == work.error)
    && (outcome.RaisesCancelled? ==>
          && thrown == Some(outcome.cancellation)
          && (outcome.cause.Some? <==> work.Failed?)
          && (outcome.cause.Some? ==> outcome.cause.value == work.error))
  }

  /** When the waiter leaves, the work has ended by itself, and what is raised or returned is decided
      by it and by the last cancellation thrown: that one, carrying the work's failure if it failed,
      and otherwise what the work produced. */
  lemma LeavesWithWhatIsOwed<T, E>(shield: bool, events: seq<Event<T, E>>, n: nat)
    requires LeavesAt(shield, events, n)
    ensures events[n] == WaiterRuns && !EndOf(events, n).Running?
    ensures Run(shield, events, n + 1).waiter == Left(Leave(EndOf(events, n), LastThrown(shield, events, n + 1)))
    ensures IsOwed(EndOf(events, n), LastThrown(shield, events, n + 1), Run(shield, events, n + 1).waiter.outcome)
  {
    WaiterKeepsTrack(shield, events, n);
  }

  /** A cancellation has arrived and not been delivered to the caller yet. */
  ghost predicate Owed<T, E>(s: State<T, E>) {
    if s.waiter.Waiting? then s.held.Some? || ThrownBy(s.sleep, s.must).Some? else s.waiter.outcome.RaisesCancelled?
  }

  /** What is owed stays owed until it is delivered. */
  lemma {:induction false} OwedUntilDelivered<T, E>(shield: bool, events: seq<Event<T, E>>, m: nat, n: nat)
    requires m <= n <= |events| && Owed(Run(shield, events, m))
    ensures Owed(Run(shield, events, n))
    decreases n
  {
    if m < n {
      OwedUntilDelivered(shield, events, m, n - 1);
    }
  }

  predicate TaskCancelled<T, E>(events: seq<Event<T, E>>, n: nat)
    requires n <= |events|
  {
    exists i :: 0 <= i < n && events[i].CancelTask?
  }

  /** No cancellation of the task is lost: whichever is thrown, one is raised if any arrived in time. */
  lemma NoneIsLost<T, E>(shield: bool, events: seq<Event<T, E>>, n: nat)
    requires LeavesAt(shield, events, n) && TaskCancelled(events, n)
    ensures Run(shield, events, n + 1).waiter.outcome.RaisesCancelled?
  {
    var i :| 0 <= i < n && events[i].CancelTask?;
    WaitingBefore(shield, events, i, n);
    OwedUntilDelivered(shield, events, i + 1, n + 1);
  }

  lemma {:induction false} WaitingBefore<T, E>(shield: bool, events: seq<Event<T, E>>, i: nat, n: nat)
    requires i <= n <= |events| && Run(shield, events, n).waiter.Waiting?
    ensures Run(shield, events, i).waiter.Waiting?
    decreases n
  {
    if i < n {
      WaitingBefore(shield, events, i, n - 1);
    }
  }

  /** Behind the shield only a cancellation of the task is ever thrown. */
  lemma {:induction false} NothingElseIsThrown<T, E>(events: seq<Event<T, E>>, n: nat)
    requires n <= |events|
    ensures LastThrown(true, events, n).Some? ==> TaskCancelled(events, n)
  {
    if n > 0 {
      NothingElseIsThrown(events, n - 1);
      var m := SleepsSince(true, events, n - 1);
      if TaskCancelled(events, n - 1) {
        var i :| 0 <= i < n - 1 && events[i].CancelTask?;
        assert TaskCancelled(events, n);
      } else {
        NoTaskCancel(events, m, n - 1);
      }
    }
  }

  lemma {:induction false} NoTaskCancel<T, E>(events: seq<Event<T, E>>, from: nat, until: nat)
    requires from <= until <= |events|
    requires forall i :: 0 <= i < until ==> !events[i].CancelTask?
    ensures LastTaskCancel(events, from, until).None?
    decreases until
  {
    if from != until {
      NoTaskCancel(events, from, until - 1);
    }
  }

  /** Once the waiter has left, nothing changes what it delivered. */
  lemma {:induction false} LeavingIsFinal<T, E>(shield: bool, events: seq<Event<T, E>>, m: nat, n: nat)
    requires m <= n <= |events| && Run(shield, events, m).waiter.Left?
    ensures Run(shield, events, n).waiter == Run(shield, events, m).waiter
    decreases n
  {
    if m < n {
      LeavingIsFinal(shield, events, m, n - 1);
    }
  }

  /** A waiter that has left did so at some event. */
  lemma {:induction false} LeftSomewhere<T, E>(shield: bool, events: seq<Event<T, E>>, n: nat) returns (m: nat)
    requires n <= |events| && Run(shield, events, n).waiter.Left?
    ensures m < n && LeavesAt(shield, events, m)
  {
    if Run(shield, events, n - 1).waiter.Left? {
      m := LeftSomewhere(shield, events, n - 1);
    } else {
      m := n - 1;
    }
  }

  /** What the caller of the shielded work may count on. */
  ghost predicate DeliveredAt<T, E>(events: seq<Event<T, E>>, n: nat, outcome: Outcome<T, E>) {
    && n < |events| && !EndOf(events, n).Running?
    && IsOwed(EndOf(events, n), LastThrown(true, events, n + 1), outcome)
    && (outcome.RaisesCancelled? <==> TaskCancelled(events, n))
  }

  /** Over every interleaving: the waiter leaves only with the work done; it raises the last
      cancellation thrown into it exactly when one had arrived by then, and otherwise delivers what
      the work produced. */
  lemma NeverEarlyNeverLost<T, E>(events: seq<Event<T, E>>)
    requires Run(true, events, |events|).waiter.Left?
    ensures exists n: nat :: DeliveredAt(events, n, Run(true, events, |events|).waiter.outcome)
  {
    var n := LeftSomewhere(true, events, |events|);
    LeavesWithWhatIsOwed(true, events, n);
    LeavingIsFinal(true, events, n + 1, |events|);
    if TaskCancelled(events, n) {
      NoneIsLost(true, events, n);
    }
    NothingElseIsThrown(events, n + 1);
    assert TaskCancelled(events, n + 1) ==> TaskCancelled(events, n);
    assert DeliveredAt(events, n, Run(true, events, |events|).waiter.outcome);
  }

  /** Once the end of the work is noticed the waiter's next run is its last, however often it was
      cancelled. */
  lemma LeavesOnceDone<T, E>(events: seq<Event<T, E>>)
    requires !EndOf(events, |events|).Running?
    ensures Run(true, events + [EndNoticed, WaiterRuns], |events| + 2).waiter.Left?
  {
    var more := events + [EndNoticed, WaiterRuns];
    SamePrefix(true, events, more, |events|);
    WaiterKeepsTrack(true, events, |events|);
    assert Run(true, more, |events| + 1) == Next(true, Run(true, more, |events|), EndNoticed);
  }

  lemma {:induction false} SamePrefix<T, E>(shield: bool, events: seq<Event<T, E>>, other: seq<Event<T, E>>, n: nat)
    requires n <= |events| && n <= |other|
    requires forall i :: 0 <= i < n ==> events[i] == other[i]
    ensures Run(shield, events, n) == Run(shield, other, n)
  {
    if n > 0 {
      SamePrefix(shield, events, other, n - 1);
    }
  }

  /** Of two cancellations the first is thrown when the sleep was still pending, and the second when
      the end of the work had been noticed. */
  lemma WhichOfTwo<T, E>(first: nat, second: nat, how: Work<T, E>)
    requires !how.Running?
    ensures var early := [CancelTask(first), CancelTask(second), WaiterRuns, WorkEnds(how), EndNoticed, WaiterRuns];
            Run(true, early, 6).waiter.Left? && IsOwed(how, Some(ByTask(first)), Run(true, early, 6).waiter.outcome)
    ensures var late := [WorkEnds(how), EndNoticed, CancelTask(first), CancelTask(second), WaiterRuns];
            Run(true, late, 5).waiter.Left? && IsOwed(how, Some(ByTask(second)), Run(true, late, 5).waiter.outcome)
  {
    var early := [CancelTask(first), CancelTask(second), WaiterRuns, WorkEnds(how), EndNoticed, WaiterRuns];
    OneMore(true, early, 0);
    OneMore(true, early, 1);
    OneMore(true, early, 2);
    OneMore(true, early, 3);
    OneMore(true, early, 4);
    OneMore(true, early, 5);
    var late := [WorkEnds(how), EndNoticed, CancelTask(first), CancelTask(second), WaiterRuns];
    OneMore(true, late, 0);
    OneMore(true, late, 1);
    OneMore(true, late, 2);
    OneMore(true, late, 3);
    OneMore(true, late, 4);
  }

  lemma OneMore<T, E>(shield: bool, events: seq<Event<T, E>>, n: nat)
    requires n < |events|
    ensures Run(shield, events, n + 1) == Next(shield, Run(shield, events, n), events[n])
  {
  }

  // ---- what the shield is for -----------------------------------------------------------

  /** The events other than the scope's. */
  function Unscoped<T, E>(events: seq<Event<T, E>>, n: nat): (r: seq<Event<T, E>>)
    requires n <= |events|
  {
    if n == 0 then []
    else
      var rest := Unscoped(events, n - 1);
      if events[n - 1].CancelScope? || events[n - 1].ScopeDelivers? then rest else rest + [events[n - 1]]
  }

  /** Every event is kept as often as it came, unless it is the scope's. */
  lemma {:induction false} UnscopedKeeps<T, E>(events: seq<Event<T, E>>, n: nat, e: Event<T, E>)
    requires n <= |events|
    ensures multiset(Unscoped(events, n))[e] ==
            if e.CancelScope? || e.ScopeDelivers? then 0 else multiset(events[..n])[e]
  {
    if n > 0 {
      var before, last := events[..n - 1], events[n - 1];
      UnscopedKeeps(events, n - 1, e);
      assert events[..n] == before + [last];
      assert multiset(before + [last])[e] == multiset(before)[e] + if e == last then 1 else 0;
    }
  }

  /** Behind the shield a cancelled scope, deliver as often as it may, changes neither the work, nor how
      often the waiter runs, nor what is delivered. */
  lemma {:induction false} ScopeIsShielded<T, E>(events: seq<Event<T, E>>, n: nat)
    requires n <= |events|
    ensures var quiet := Unscoped(events, n);
            Run(true, events, n).(scopeCancelled := false) == Run(true, quiet, |quiet|).(scopeCancelled := false)
  {
    if n > 0 {
      ScopeIsShielded(events, n - 1);
      var rest, quiet := Unscoped(events, n - 1), Unscoped(events, n);
      var was, calm := Run(true, events, n - 1), Run(true, rest, |rest|);
      FlagUnread(was, calm, events[n - 1]);
      hide Next, Unscoped;
      if |quiet| > |rest| {
        SamePrefix(true, rest, quiet, |rest|);
      }
    }
  }

  /** Behind the shield no step reads whether the scope is cancelled, and the scope's own do nothing else. */
  lemma FlagUnread<T, E>(s: State<T, E>, t: State<T, E>, e: Event<T, E>)
    requires s.(scopeCancelled := false) == t.(scopeCancelled := false)
    ensures Next(true, s, e).(scopeCancelled := false) ==
            (if e.CancelScope? || e.ScopeDelivers? then t else Next(true, t, e)).(scopeCancelled := false)
  {
  }

  /** When the task itself was cancelled. */
  ghost function TaskCancels<T, E>(events: seq<Event<T, E>>, n: nat): set<nat>
    requires n <= |events|
  {
    set i: nat | i < n && events[i].CancelTask?
  }

  /** Behind the shield every run of the waiter but its last answers a cancellation of its own. */
  lemma {:induction false} WakesAreEarned<T, E>(events: seq<Event<T, E>>, n: nat)
    requires n <= |events|
    ensures var s := Run(true, events, n);
            s.wakes + (if s.sleep.Interrupted? then 1 else 0)
            <= |TaskCancels(events, n)| + if s.waiter.Left? then 1 else 0
  {
    if n > 0 {
      assert TaskCancels(events, n) ==
             TaskCancels(events, n - 1) + if events[n - 1].CancelTask? then {n - 1} else {};
      WakesAreEarned(events, n - 1);
      WaiterKeepsTrack(true, events, n - 1);
    }
  }

  /** Without it a cancelled scope that delivers into a pending sleep is what the caller gets in the
      end, whatever the work produced. */
  lemma ScopeGetsThrough<T, E>(events: seq<Event<T, E>>, i: nat, n: nat)
    requires i < n <= |events| && events[i].ScopeDelivers? && Run(false, events, i).scopeCancelled
    requires Run(false, events, i).waiter.Waiting? && Run(false, events, i).sleep.Pending?
    requires Run(false, events, n).waiter.Left?
    ensures Run(false, events, n).waiter.outcome.RaisesCancelled?
  {
    OwedUntilDelivered(false, events, i + 1, n);
  }

  function Hammering<T, E>(times: nat): (events: seq<Event<T, E>>)
    ensures |events| == 1 + 2 * times
  {
    if times == 0 then [CancelScope] else Hammering(times - 1) + [ScopeDelivers, WaiterRuns]
  }

  /** Nor is there a bound to how often it wakes the waiter: each sleep is interrupted again. */
  lemma {:induction false} UnshieldedSpins<T, E>(times: nat)
    ensures var events := Hammering<T, E>(times);
            && Run(false, events, |events|).wakes == times && Run(true, events, |events|).wakes == 0
            && Run(false, events, |events|).sleep.Pending? && Run(true, events, |events|).sleep.Pending?
            && Run(false, events, |events|).waiter.Waiting? && Run(false, events, |events|).scopeCancelled
            && Run(false, events, |events|).work.Running?
  {
    var events := Hammering<T, E>(times);
    if times == 0 {
      assert Run(false, events, 1) == Next(false, Run(false, events, 0), CancelScope);
      assert Run(true, events, 1) == Next(true, Run(true, events, 0), CancelScope);
    } else {
      var before := Hammering<T, E>(times - 1);
      UnshieldedSpins<T, E>(times - 1);
      SamePrefix(false, before, events, |before|);
      SamePrefix(true, before, events, |before|);
      OneMoreHammer(false, events, |before|);
      OneMoreHammer(true, events, |before|);
    }
  }

  lemma OneMoreHammer<T, E>(shield: bool, events: seq<Event<T, E>>, n: nat)
    requires n + 2 == |events| && events[n] == ScopeDelivers && events[n + 1] == WaiterRuns
    ensures Run(shield, events, n + 2) == Next(shield, Next(shield, Run(shield, events, n), ScopeDelivers), WaiterRuns)
  {
    assert Run(shield, events, n + 1) == Next(shield, Run(shield, events, n), ScopeDelivers);
  }

  // ---- the code itself ------------------------------------------------------------------

  datatype Wakeup = Woken | ThrownInto(cancellation: Cancellation) | Stuck

  /** The event loop under one schedule, and whether the wait stands behind a shield. */
  class Loop<T, E> {
    const shield: bool
    const schedule: seq<Event<T, E>>
    var at: nat
    var work: Work<T, E>
    var sleep: Sleep
    var must: Option<Cancellation>
    var scopeCancelled: bool
    ghost var wakes: nat

    ghost predicate Follows(held: Option<Cancellation>)
      reads this
    {
      && at <= |schedule|
      && Run(shield, schedule, at) == State(work, sleep, must, held, scopeCancelled, wakes, Waiting)
    }

    constructor (schedule: seq<Event<T, E>>, shield: bool)
      ensures this.schedule == schedule && this.shield == shield && at == 0
      ensures Follows(None) && sleep == Pending && work == Running
    {
      this.schedule, this.shield, at, work, sleep, must := schedule, shield, 0, Running, Pending, None;
      scopeCancelled, wakes := false, 0;
    }

    /** `await asyncio.wait((task,))`: sleep until the loop runs the waiter again, with or without a
        cancellation thrown. `Stuck` is a schedule that ends first. */
    method Wait(ghost held: Option<Cancellation>) returns (wakeup: Wakeup)
      requires Follows(held) && sleep == Pending && work == Running
      modifies this
      ensures wakeup.Stuck? ==> at == |schedule| && Follows(held)
      ensures !wakeup.Stuck? ==> sleep == Pending && must == None && old(at) < at <= |schedule|
      ensures wakeup.Woken? ==> !work.Running?
      ensures !wakeup.Stuck? ==>
        var now := if wakeup.ThrownInto? then Some(wakeup.cancellation) else held;
        Run(shield, schedule, at) == State(work, Pending, None, now, scopeCancelled, wakes,
                                           if work.Running? then Waiting else Left(Leave(work, now)))
    {
      while at < |schedule|
        invariant Follows(held) && old(at) <= at && (sleep.Finished? ==> !work.Running?)
      {
        var event := schedule[at];
        at := at + 1;
        match event {
          case WorkEnds(how) =>
            if work.Running? && !how.Running? {
              work := how;
            }
          case EndNoticed =>
            if sleep.Pending? && !work.Running? {
              sleep := Finished;
            }
          case CancelTask(number) =>
            if sleep.Pending? {
              sleep := Interrupted(ByTask(number));
            } else {
              must := Some(ByTask(number));
            }
          case CancelScope => scopeCancelled := true;
          case ScopeDelivers =>
            if scopeCancelled && !shield && sleep.Pending? {
              sleep := Interrupted(ByScope);
            }
          case WaiterRuns =>
            if !sleep.Pending? {
              var thrown := if sleep.Interrupted? then Some(sleep.reason) else must;
              sleep, must, wakes := Pending, None, wakes + 1;
              return if thrown.Some? then ThrownInto(thrown.value) else Woken;
            }
        }
      }
      return Stuck;
    }
  }

  /** Run the work to its end, then deliver any cancellation that arrived meanwhile. */
  method Uninterrupted<T, E>(schedule: seq<Event<T, E>>) returns (outcome: Option<Outcome<T, E>>)
    ensures outcome == match Run(true, schedule, |schedule|).waiter case Waiting => None case Left(o) => Some(o)
    ensures outcome.Some? ==> exists n: nat :: DeliveredAt(schedule, n, outcome.value)
  {
    if Run(true, schedule, |schedule|).waiter.Left? {
      NeverEarlyNeverLost(schedule);
    }
    var loop := new Loop(schedule, true);
    var cancelled: Option<Cancellation> := None;
    while loop.work.Running?
      invariant fresh(loop) && loop.schedule == schedule && loop.shield && loop.at <= |schedule|
      invariant Run(true, schedule, loop.at) ==
                State(loop.work, Pending, None, cancelled, loop.scopeCancelled, loop.wakes,
                      if loop.work.Running? then Waiting else Left(Leave(loop.work, cancelled)))
      invariant loop.sleep == Pending && loop.must == None
      decreases |schedule| - loop.at
    {
      var wakeup := loop.Wait(cancelled);
      match wakeup {
        case Stuck => return None;
        case ThrownInto(c) => cancelled := Some(c);
        case Woken =>
      }
    }
    LeavingIsFinal(true, schedule, loop.at, |schedule|);
    if cancelled.Some? {
      var failure := if loop.work.Failed? then Some(loop.work.error) else None;
      return Some(RaisesCancelled(cancelled.value, failure));
    }
    match loop.work {
      case Returned(value) => return Some(Result(value));
      case Failed(error) => return Some(Raises(error));
      case CancelledItself => return Some(RaisesWorkCancelled);
    }
  }
}
