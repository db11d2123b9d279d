/** The other half of what a timer is for: as long as nobody writes its entry any more, it removes
    the entry and ends within five of its own steps, whatever else goes on. A tick is one atomic step
    of the timer's loop: a read, a comparison, a removal. */
module ReceiverProgress {
  import opened Options
  import opened Amounts
  import opened Receiver
  import opened ReceiverRuns

  /** A timer that is still at work. */
  predicate Live(s: State, id: nat) {
    id in s.timers && !s.timers[id].Over?
  }

  predicate Settled(s: State, id: nat) {
    id in s.timers && s.timers[id].Over? && id !in s.transactions
  }

  /** The step does not write the entry under id; other handlers may take any step. */
  predicate Quiet(s: State, ev: Event, id: nat) {
    ev.Advance? && ev.task < |s.tasks| ==>
      var t := s.tasks[ev.task];
      !(IdOf(t.req) == Some(id) && (t.phase.Ready? || t.phase.Pushing?))
  }

  function OneTick(ev: Event, id: nat): nat {
    if ev == Tick(id) then 1 else 0
  }

  /** How often the timer has ticked from i up to j. */
  function Ticks(evs: seq<Event>, i: nat, j: nat, id: nat): nat
    requires i <= j <= |evs|
  {
    if i == j then 0 else Ticks(evs, i, j - 1, id) + OneTick(evs[j - 1], id)
  }

  /** The ticks the timer still takes before it ends, if its entry is not written meanwhile. */
  function Left(s: State, id: nat): nat
    requires id in s.timers
  {
    var stored := id in s.transactions;
    match s.timers[id]
    case Reading => if !stored then 1 else if s.transactions[id].Complete? then 5 else 4
    case Waiting(last) =>
      if !stored then 0
      else if s.transactions[id] == last then if last.Complete? then 4 else 3
      else if s.transactions[id].Complete? then 3 else 5
    case TimedOut(state) => if state.Complete? then 3 else 2
    case Completed => 2
    case Over => 0
    case Panicked => 0
  }

  /** Each tick uses one up. */
  lemma TickAdvances(s: State, id: nat)
    requires Inv(s) && Live(s, id)
    ensures var s' := Step(s, Tick(id));
            && id in s'.timers && Left(s', id) + 1 == Left(s, id)
            && if Left(s', id) == 0 then Settled(s', id) else Live(s', id)
  {
    assert EntryInv(s, id);
  }

  lemma SettledStays(s: State, ev: Event, id: nat)
    requires Inv(s) && Settled(s, id) && Quiet(s, ev, id)
    ensures Settled(Step(s, ev), id)
  {
    if ev.Advance? && ev.task < |s.tasks| {
      assert TaskInv(s, s.tasks[ev.task]);
    }
  }

  /** No other quiet step touches timer or entry. */
  lemma QuietKeeps(s: State, ev: Event, id: nat)
    requires Inv(s) && Live(s, id) && Quiet(s, ev, id) && ev != Tick(id)
    ensures var s' := Step(s, ev);
            id in s'.timers && s'.timers[id] == s.timers[id] && SameEntry(s, s', id)
  {
    if ev.Advance? && ev.task < |s.tasks| {
      assert TaskInv(s, s.tasks[ev.task]);
    }
  }

  lemma SameLeft(s: State, s': State, id: nat)
    requires Live(s, id) && id in s'.timers && s'.timers[id] == s.timers[id] && SameEntry(s, s', id)
    ensures Live(s', id) && Left(s', id) == Left(s, id)
  {
  }

  lemma StepAdvances(s: State, ev: Event, id: nat)
    requires Inv(s) && (Settled(s, id) || Live(s, id)) && Quiet(s, ev, id)
    ensures var s' := Step(s, ev);
            if Live(s, id) && OneTick(ev, id) < Left(s, id)
            then Live(s', id) && Left(s', id) + OneTick(ev, id) == Left(s, id)
            else Settled(s', id)
  {
    assert EntryInv(s, id);
    if Settled(s, id) {
      SettledStays(s, ev, id);
    } else if ev == Tick(id) {
      TickAdvances(s, id);
    } else {
      QuietKeeps(s, ev, id);
      SameLeft(s, Step(s, ev), id);
    }
  }

  lemma {:induction false} TicksUsedUp(run: Run, wallet: seq<Token>, i: nat, j: nat, id: nat)
    requires IsRun(run, wallet) && i <= j <= |run.evs| && Live(run.states[i], id)
    requires forall m :: i <= m < j ==> Quiet(run.states[m], run.evs[m], id)
    ensures var s := run.states[j];
            if Ticks(run.evs, i, j, id) < Left(run.states[i], id)
            then Live(s, id) && Left(s, id) + Ticks(run.evs, i, j, id) == Left(run.states[i], id)
            else Settled(s, id)
  {
    LeftBounds(run, wallet, i, id);
    if i < j {
      TicksUsedUp(run, wallet, i, j - 1, id);
      RunInv(run, wallet, j - 1);
      StepAdvances(run.states[j - 1], run.evs[j - 1], id);
    }
  }

  lemma LeftBounds(run: Run, wallet: seq<Token>, n: nat, id: nat)
    requires IsRun(run, wallet) && n <= |run.evs| && Live(run.states[n], id)
    ensures 1 <= Left(run.states[n], id) <= 5
  {
    TimerNeverPanics(run, wallet, n, id);
  }

  /** In every run a live timer whose entry is written no more has removed it and ended exactly when
      it has ticked as often as its state says, which is at most five times. */
  lemma TimerEnds(run: Run, wallet: seq<Token>, i: nat, j: nat, id: nat)
    requires IsRun(run, wallet) && i <= j <= |run.evs| && Live(run.states[i], id)
    requires forall m :: i <= m < j ==> Quiet(run.states[m], run.evs[m], id)
    ensures Settled(run.states[j], id) <==> Ticks(run.evs, i, j, id) >= Left(run.states[i], id)
    ensures 1 <= Left(run.states[i], id) <= 5
  {
    TicksUsedUp(run, wallet, i, j, id);
    LeftBounds(run, wallet, i, id);
  }
}
