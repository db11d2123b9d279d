/** The receiver over every run: every interleaving of handlers, timers and failures. */
module ReceiverRuns {
  import opened Options
  import opened Amounts
  import opened Receiver

  datatype Run = Run(evs: seq<Event>, states: seq<State>)

  ghost predicate IsRun(run: Run, wallet: seq<Token>) {
    && |run.states| == |run.evs| + 1
    && run.states[0] == Start(wallet)
    && forall n :: 0 <= n < |run.evs| ==> run.states[n + 1] == Step(run.states[n], run.evs[n])
  }

  lemma StartInv(wallet: seq<Token>)
    ensures Inv(Start(wallet))
  {
    forall id: nat ensures EntryInv(Start(wallet), id) {}
  }

  lemma {:induction false} RunInv(run: Run, wallet: seq<Token>, n: nat)
    requires IsRun(run, wallet) && n <= |run.evs|
    ensures Inv(run.states[n])
  {
    if n == 0 {
      StartInv(wallet);
    } else {
      RunInv(run, wallet, n - 1);
      StepKeeps(run.states[n - 1], run.evs[n - 1]);
    }
  }

  // ----- What is stored under an id -----

  lemma InitiatedStays(s: State, ev: Event, id: nat)
    requires Inv(s) && id in s.initiated
    ensures id in Step(s, ev).initiated && Step(s, ev).initiated[id] == s.initiated[id]
  {
    if ev.Advance? && ev.task < |s.tasks| {
      assert TaskInv(s, s.tasks[ev.task]);
    }
  }

  lemma {:induction false} InitiatedFixed(run: Run, wallet: seq<Token>, i: nat, j: nat, id: nat)
    requires IsRun(run, wallet) && i <= j <= |run.evs| && id in run.states[i].initiated
    ensures id in run.states[j].initiated && run.states[j].initiated[id] == run.states[i].initiated[id]
  {
    if i < j {
      InitiatedFixed(run, wallet, i, j - 1, id);
      RunInv(run, wallet, j - 1);
      InitiatedStays(run.states[j - 1], run.evs[j - 1], id);
    }
  }

  /** Whatever is stored under an id at any two times has the same amount and peer, those that
      initiate stored. */
  lemma EntriesCarryOrigin(run: Run, wallet: seq<Token>, i: nat, j: nat, id: nat)
    requires IsRun(run, wallet) && i <= j <= |run.evs|
    requires id in run.states[i].transactions && id in run.states[j].transactions
    ensures id in run.states[i].initiated
    ensures run.states[i].transactions[id].inner == run.states[j].transactions[id].inner
         == run.states[i].initiated[id]
  {
    RunInv(run, wallet, i);
    RunInv(run, wallet, j);
    assert EntryInv(run.states[i], id) && EntryInv(run.states[j], id);
    InitiatedFixed(run, wallet, i, j, id);
  }

  predicate SameEntry(s: State, s': State, id: nat) {
    (id in s.transactions <==> id in s'.transactions)
    && (id in s.transactions ==> s'.transactions[id] == s.transactions[id])
  }

  /** An entry changes only by a step of a handler for its own peer and id, and disappears only
      by a step of its own timer. */
  lemma WhoChangesEntries(s: State, ev: Event, id: nat)
    requires Inv(s) && !SameEntry(s, Step(s, ev), id)
    ensures var s' := Step(s, ev);
            if id in s'.transactions
            then && id in s'.initiated && ev.Advance? && ev.task < |s.tasks|
                 && var t := s.tasks[ev.task];
                    && t.peer == s'.initiated[id].peer
                    && (Drawn(t.phase) == Some(id) || IdOf(t.req) == Some(id))
            else ev == Tick(id) && id in s.timers
  {
    if ev.Advance? && ev.task < |s.tasks| {
      assert TaskInv(s, s.tasks[ev.task]);
    }
  }

  /** The id initiate draws is new: nothing is stored, timed or about to be stored under it. */
  lemma FreshId(s: State, k: nat, view: View)
    requires Inv(s) && k < |s.tasks| && s.tasks[k].phase.Priced?
    ensures Drawn(AdvanceStep(s, k, view).tasks[k].phase) == Some(s.nextId)
    ensures s.nextId !in s.initiated && s.nextId !in s.transactions && s.nextId !in s.timers
    ensures forall j :: 0 <= j < |s.tasks| ==> Drawn(s.tasks[j].phase) != Some(s.nextId)
  {
    assert EntryInv(s, s.nextId);
    forall j | 0 <= j < |s.tasks| ensures Drawn(s.tasks[j].phase) != Some(s.nextId) {
      DrawnBelow(s, j);
    }
  }

  /** In no run does a timer find its entry gone when it unwraps it. */
  lemma TimerNeverPanics(run: Run, wallet: seq<Token>, n: nat, id: nat)
    requires IsRun(run, wallet) && n <= |run.evs| && id in run.states[n].timers
    ensures !run.states[n].timers[id].Panicked?
    ensures run.states[n].timers[id].Waiting? ==> id in run.states[n].transactions
  {
    RunInv(run, wallet, n);
    assert EntryInv(run.states[n], id);
  }

  /** The step that reads the table never looks at which state an entry is in: the order of the
      protocol's steps is not enforced. */
  lemma StateIgnored(s: State, id: nat, other: TransactionState, k: nat)
    requires k < |s.tasks| && s.tasks[k].phase.Arrived?
    requires id in s.transactions && other.inner == s.transactions[id].inner
    ensures FirstStep(Store(s, id, other), k).tasks == FirstStep(s, k).tasks
  {
    var req := s.tasks[k].req;
    if IdOf(req).Some? {
      assert IdOf(req).value in s.transactions <==> IdOf(req).value in Store(s, id, other).transactions;
    }
  }

  // ----- Conservation -----

  /** What a transfer handler has put into the wallet so far. */
  function Contribution(t: Task): int {
    match t.phase
    case Pushing(_, n) => if t.req.TransferRequest? && n <= |t.req.tokens| then SumOfValues(t.req.tokens[..n]) else 0
    case Accepted(tx) => Value(tx.amount)
    case _ => 0
  }

  function Contributions(tasks: seq<Task>): int {
    if tasks == [] then 0 else Contributions(tasks[..|tasks| - 1]) + Contribution(tasks[|tasks| - 1])
  }

  lemma {:induction false} ContributionChanges(tasks: seq<Task>, k: nat, t: Task)
    requires k < |tasks|
    ensures Contributions(tasks[k := t]) == Contributions(tasks) - Contribution(tasks[k]) + Contribution(t)
  {
    var init := tasks[..|tasks| - 1];
    if k < |init| {
      ContributionChanges(init, k, t);
      assert tasks[k := t][..|tasks| - 1] == init[k := t];
    } else {
      assert tasks[k := t][..|tasks| - 1] == init;
    }
  }

  lemma SumAppend(tokens: seq<Token>, t: Token)
    ensures SumOfValues(tokens + [t]) == SumOfValues(tokens) + Value(t.value)
  {
    assert (tokens + [t])[..|tokens|] == tokens;
  }

  lemma PushContributes(t: Task, tx: Transaction, n: nat)
    requires t.req.TransferRequest? && t.phase == Pushing(tx, n) && n < |t.req.tokens|
    ensures Contribution(t.(phase := Pushing(tx, n + 1))) == Contribution(t) + Value(t.req.tokens[n].value)
  {
    var tokens := t.req.tokens;
    SumAppend(tokens[..n], tokens[n]);
    assert tokens[..n + 1] == tokens[..n] + [tokens[n]];
  }

  /** An accepted transfer has contributed exactly the amount asked for. */
  lemma AcceptContributes(t: Task, tx: Transaction)
    requires t.req.TransferRequest? && t.phase == Pushing(tx, |t.req.tokens|)
    requires Total(t.req.tokens) == Some(tx.amount)
    ensures Contribution(t.(phase := Accepted(tx))) == Contribution(t)
  {
    assert t.req.tokens[..|t.req.tokens|] == t.req.tokens;
    TotalIsExact(t.req.tokens);
  }

  lemma PushBalances(s: State, k: nat, view: View)
    requires Inv(s) && k < |s.tasks| && s.tasks[k].phase.Pushing?
    ensures var s' := AdvanceStep(s, k, view);
            && s'.tasks == s.tasks[k := s'.tasks[k]]
            && SumOfValues(s'.wallet) - Contribution(s'.tasks[k]) == SumOfValues(s.wallet) - Contribution(s.tasks[k])
  {
    var t := s.tasks[k];
    var n := t.phase.pushed;
    assert TaskInv(s, t);
    if n < |t.req.tokens| {
      SumAppend(s.wallet, t.req.tokens[n]);
      PushContributes(t, t.phase.tx, n);
    } else {
      AcceptContributes(t, t.phase.tx);
    }
  }

  lemma OthersBalance(s: State, k: nat, view: View)
    requires Inv(s) && k < |s.tasks| && !s.tasks[k].phase.Pushing?
    ensures var s' := AdvanceStep(s, k, view);
            && s'.tasks == s.tasks[k := s'.tasks[k]]
            && s'.wallet == s.wallet && Contribution(s'.tasks[k]) == Contribution(s.tasks[k])
  {
    if s.tasks[k].phase.Matched? {
      assert SumOfValues([]) == 0;
    }
  }

  lemma AdvanceBalances(s: State, k: nat, view: View)
    requires Inv(s) && k < |s.tasks|
    ensures var s' := AdvanceStep(s, k, view);
            SumOfValues(s'.wallet) - Contributions(s'.tasks) == SumOfValues(s.wallet) - Contributions(s.tasks)
  {
    if s.tasks[k].phase.Pushing? {
      PushBalances(s, k, view);
    } else {
      OthersBalance(s, k, view);
    }
    ContributionChanges(s.tasks, k, AdvanceStep(s, k, view).tasks[k]);
  }

  lemma StepBalances(s: State, ev: Event)
    requires Inv(s)
    ensures var s' := Step(s, ev);
            SumOfValues(s'.wallet) - Contributions(s'.tasks) == SumOfValues(s.wallet) - Contributions(s.tasks)
  {
    match ev
    case Advance(k, view) =>
      if k < |s.tasks| { AdvanceBalances(s, k, view); }
    case Abort(k) =>
      if Step(s, ev) != s { ContributionChanges(s.tasks, k, s.tasks[k].(phase := Rejected)); }
    case Arrive(req, peer) =>
      assert (s.tasks + [Task(req, peer, Arrived)])[..|s.tasks|] == s.tasks;
    case _ =>
  }

  lemma {:induction false} RunBalances(run: Run, wallet: seq<Token>, n: nat)
    requires IsRun(run, wallet) && n <= |run.evs|
    ensures SumOfValues(run.states[n].wallet) == SumOfValues(wallet) + Contributions(run.states[n].tasks)
  {
    if n > 0 {
      RunBalances(run, wallet, n - 1);
      RunInv(run, wallet, n - 1);
      StepBalances(run.states[n - 1], run.evs[n - 1]);
    }
  }

  /** The amounts that initiate fixed for the transfers accepted so far, counted per transfer. */
  ghost function AcceptedAmounts(s: State, tasks: seq<Task>): int
    requires forall i :: 0 <= i < |tasks| && tasks[i].phase.Accepted? ==> WorksOn(s, tasks[i], tasks[i].phase.tx)
  {
    if tasks == [] then 0 else
      var t := tasks[|tasks| - 1];
      AcceptedAmounts(s, tasks[..|tasks| - 1])
      + if t.phase.Accepted?
        then assert WorksOn(s, tasks[|tasks| - 1], t.phase.tx); Value(s.initiated[IdOf(t.req).value].amount)
        else 0
  }

  lemma {:induction false} ContributionsAreAmounts(s: State, tasks: seq<Task>)
    requires forall i :: 0 <= i < |tasks| && tasks[i].phase.Accepted? ==> WorksOn(s, tasks[i], tasks[i].phase.tx)
    requires forall t :: t in tasks ==> !t.phase.Pushing?
    ensures Contributions(tasks) == AcceptedAmounts(s, tasks)
  {
    if tasks != [] {
      ContributionsAreAmounts(s, tasks[..|tasks| - 1]);
    }
  }

  /** Conservation: whenever no transfer is in the middle of pushing its tokens, the wallet is
      worth what it started with plus the initiated amounts of the accepted transfers. */
  lemma WalletConserved(run: Run, wallet: seq<Token>, n: nat)
    requires IsRun(run, wallet) && n <= |run.evs|
    requires forall t :: t in run.states[n].tasks ==> !t.phase.Pushing?
    ensures var s := run.states[n];
            forall i :: 0 <= i < |s.tasks| && s.tasks[i].phase.Accepted? ==> WorksOn(s, s.tasks[i], s.tasks[i].phase.tx)
    ensures SumOfValues(run.states[n].wallet)
         == SumOfValues(wallet) + AcceptedAmounts(run.states[n], run.states[n].tasks)
  {
    RunInv(run, wallet, n);
    RunBalances(run, wallet, n);
    var s := run.states[n];
    assert forall i :: 0 <= i < |s.tasks| ==> TaskInv(s, s.tasks[i]);
    ContributionsAreAmounts(s, s.tasks);
  }
}
