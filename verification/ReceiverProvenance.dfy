/** Where the receiver's states come from, over every run: no token is taken and no entry moves on
    unless the request that did it passed its check. */
module ReceiverProvenance {
  import opened Options
  import opened Amounts
  import opened Receiver
  import opened ReceiverRuns

  /** What the check of a request demands of the wallet's answers and of the amount agreed on. */
  predicate Passes(req: Request, amount: Amount, view: View) {
    view.verified && match req
      case InitiateRequest(_, _, _) => false
      case GossipRequest(_) => true
      case TransactRequest(_, methods) => Total(Flatten(methods)) == Some(amount)
      case TransferRequest(_, tokens) =>
        (forall t :: t in tokens ==> t.recipient == view.ticket) && Total(tokens) == Some(amount)
  }

  /** A handler other than initiate that has got past its check. */
  predicate PastCheck(t: Task) {
    t.phase.Ready? || t.phase.Pushing? || t.phase.Accepted? || (t.phase.Done? && !t.req.InitiateRequest?)
  }

  /** Step i was task k's check, made on the entry it had matched, and it passed. */
  predicate CheckedAt(run: Run, i: nat, k: nat)
    requires i < |run.evs| < |run.states|
  {
    var s, ev := run.states[i], run.evs[i];
    && ev.Advance? && ev.task == k < |s.tasks| && s.tasks[k].phase.Matched?
    && Passes(s.tasks[k].req, s.tasks[k].phase.tx.amount, ev.view)
  }

  ghost predicate Checked(run: Run, n: nat, k: nat)
    requires n <= |run.evs| < |run.states|
  {
    exists i: nat {:trigger CheckedAt(run, i, k)} :: i < n && CheckedAt(run, i, k)
  }

  /** s' differs from s in task j's phase and perhaps elsewhere, but in no other task. */
  predicate OnlyTask(s: State, s': State, j: nat)
    requires j < |s.tasks|
  {
    |s'.tasks| == |s.tasks| && s'.tasks == s.tasks[j := s.tasks[j].(phase := s'.tasks[j].phase)]
  }

  lemma ReadingShape(s: State, j: nat, view: View)
    requires j < |s.tasks| && (s.tasks[j].phase.Arrived? || s.tasks[j].phase.Matched?)
    ensures OnlyTask(s, AdvanceStep(s, j, view), j)
  {
    if s.tasks[j].phase.Matched? {
      assert OnlyTask(s, CheckStep(s, j, s.tasks[j].phase.tx, view), j);
    } else {
      assert OnlyTask(s, FirstStep(s, j), j);
    }
  }

  lemma AdvanceShape(s: State, j: nat, view: View)
    requires j < |s.tasks|
    ensures OnlyTask(s, AdvanceStep(s, j, view), j)
  {
    if s.tasks[j].phase.Arrived? || s.tasks[j].phase.Matched? { ReadingShape(s, j, view); }
  }

  /** A step that is not task k's own leaves it alone. */
  lemma OthersKept(s: State, ev: Event, k: nat)
    requires k < |s.tasks| && !((ev.Advance? || ev.Abort?) && ev.task == k)
    ensures k < |Step(s, ev).tasks| && Step(s, ev).tasks[k] == s.tasks[k]
  {
    if ev.Advance? && ev.task < |s.tasks| { AdvanceShape(s, ev.task, ev.view); }
  }

  lemma OwnAdvance(s: State, k: nat, view: View)
    requires Inv(s) && k < |s.tasks|
    ensures var t' := AdvanceStep(s, k, view).tasks[k];
            PastCheck(t') ==>
              PastCheck(s.tasks[k])
              || (s.tasks[k].phase.Matched? && Passes(s.tasks[k].req, s.tasks[k].phase.tx.amount, view))
  {
    assert TaskInv(s, s.tasks[k]);
  }

  /** A step leaves a task alone, or moves it on by one phase. */
  lemma TaskStep(s: State, ev: Event, k: nat)
    requires Inv(s) && k < |Step(s, ev).tasks|
    ensures var t' := Step(s, ev).tasks[k];
            if k >= |s.tasks| then t'.phase.Arrived?
            else && t'.req == s.tasks[k].req && t'.peer == s.tasks[k].peer
                 && (PastCheck(t') ==>
                      PastCheck(s.tasks[k])
                      || (ev.Advance? && ev.task == k && s.tasks[k].phase.Matched?
                          && Passes(s.tasks[k].req, s.tasks[k].phase.tx.amount, ev.view)))
  {
    if k < |s.tasks| {
      if ev.Advance? && ev.task == k {
        AdvanceShape(s, k, ev.view);
        OwnAdvance(s, k, ev.view);
      } else if !(ev.Abort? && ev.task == k) {
        OthersKept(s, ev, k);
      }
    } else if ev.Advance? && ev.task < |s.tasks| {
      AdvanceShape(s, ev.task, ev.view);
    }
  }

  /** In every run a handler that has got past its check has passed one. */
  lemma {:induction false} PastMeansChecked(run: Run, wallet: seq<Token>, n: nat, k: nat)
    requires IsRun(run, wallet) && n <= |run.evs| && k < |run.states[n].tasks| && PastCheck(run.states[n].tasks[k])
    ensures Checked(run, n, k)
  {
    if n > 0 {
      RunInv(run, wallet, n - 1);
      TaskStep(run.states[n - 1], run.evs[n - 1], k);
      if k < |run.states[n - 1].tasks| && PastCheck(run.states[n - 1].tasks[k]) {
        PastMeansChecked(run, wallet, n - 1, k);
        var i: nat :| i < n - 1 && CheckedAt(run, i, k);
        assert CheckedAt(run, i, k);
      } else {
        assert CheckedAt(run, n - 1, k);
      }
    }
  }

  // ----- Entries -----

  predicate DidFor(t: Task, id: nat) {
    IdOf(t.req) == Some(id) && (t.phase.Done? || t.phase.Accepted?)
  }

  /** Some handler for this id has done what the entry's state says was done. */
  ghost predicate Earned(s: State, id: nat)
    requires id in s.transactions
  {
    match s.transactions[id]
    case Complete(_) => exists k :: 0 <= k < |s.tasks| && DidFor(s.tasks[k], id) && s.tasks[k].req.TransferRequest?
    case Transfer(_) => exists k :: 0 <= k < |s.tasks| && DidFor(s.tasks[k], id) && s.tasks[k].req.TransactRequest?
    case _ => true
  }

  lemma DoneStays(s: State, ev: Event, k: nat, id: nat)
    requires k < |s.tasks| && DidFor(s.tasks[k], id)
    ensures k < |Step(s, ev).tasks| && Step(s, ev).tasks[k] == s.tasks[k]
  {
    if !((ev.Advance? || ev.Abort?) && ev.task == k) { OthersKept(s, ev, k); }
  }

  lemma EarnedStays(s: State, ev: Event, id: nat)
    requires Inv(s) && id in s.transactions && Earned(s, id)
    requires id in Step(s, ev).transactions && Step(s, ev).transactions[id] == s.transactions[id]
    ensures Earned(Step(s, ev), id)
  {
    match s.transactions[id]
    case Complete(_) =>
      var k :| 0 <= k < |s.tasks| && DidFor(s.tasks[k], id) && s.tasks[k].req.TransferRequest?;
      DoneStays(s, ev, k, id);
    case Transfer(_) =>
      var k :| 0 <= k < |s.tasks| && DidFor(s.tasks[k], id) && s.tasks[k].req.TransactRequest?;
      DoneStays(s, ev, k, id);
    case _ =>
  }

  lemma EarnedByWriting(s: State, ev: Event, id: nat)
    requires Inv(s) && id in Step(s, ev).transactions
    requires id !in s.transactions || Step(s, ev).transactions[id] != s.transactions[id]
    ensures Earned(Step(s, ev), id)
  {
    WhoChangesEntries(s, ev, id);
    Written(s, ev.task, ev.view, id);
  }

  /** What writes an entry is a handler's last step, or initiate's. */
  lemma Written(s: State, k: nat, view: View, id: nat)
    requires Inv(s) && k < |s.tasks| && id in AdvanceStep(s, k, view).transactions
    requires id !in s.transactions || AdvanceStep(s, k, view).transactions[id] != s.transactions[id]
    ensures Earned(AdvanceStep(s, k, view), id)
  {
    assert TaskInv(s, s.tasks[k]);
    var s' := AdvanceStep(s, k, view);
    AdvanceShape(s, k, view);
    assert s'.transactions[id].Complete? ==> DidFor(s'.tasks[k], id) && s'.tasks[k].req.TransferRequest?;
    assert s'.transactions[id].Transfer? ==> DidFor(s'.tasks[k], id) && s'.tasks[k].req.TransactRequest?;
  }

  /** In every run a complete entry has had its transfer accepted, and one waiting for the transfer
      its proposal; by PastMeansChecked both passed their checks. */
  lemma {:induction false} EntriesEarned(run: Run, wallet: seq<Token>, n: nat, id: nat)
    requires IsRun(run, wallet) && n <= |run.evs| && id in run.states[n].transactions
    ensures Earned(run.states[n], id)
  {
    if n > 0 {
      var s, s' := run.states[n - 1], run.states[n];
      RunInv(run, wallet, n - 1);
      if id in s.transactions && s'.transactions[id] == s.transactions[id] {
        EntriesEarned(run, wallet, n - 1, id);
        EarnedStays(s, run.evs[n - 1], id);
      } else {
        EarnedByWriting(s, run.evs[n - 1], id);
      }
    }
  }

  // ----- Where an entry starts -----

  /** Step i stored the entry under id, having found the epochs to differ, or not. */
  predicate StoredAt(run: Run, i: nat, id: nat, differs: bool)
    requires i < |run.evs| < |run.states|
  {
    var s, ev := run.states[i], run.evs[i];
    && ev.Advance? && ev.task < |s.tasks| && s.tasks[ev.task].phase.Numbered? && s.tasks[ev.task].phase.id == id
    && ev.view.epochDiffers == differs
  }

  ghost predicate StartedWith(run: Run, n: nat, id: nat, differs: bool)
    requires n <= |run.evs| < |run.states|
  {
    exists i: nat {:trigger StoredAt(run, i, id, differs)} :: i < n && StoredAt(run, i, id, differs)
  }

  ghost predicate GossipDone(s: State, id: nat) {
    exists k :: 0 <= k < |s.tasks| && DidFor(s.tasks[k], id) && s.tasks[k].req.GossipRequest?
  }

  lemma StartWritten(s: State, k: nat, view: View, id: nat)
    requires Inv(s) && k < |s.tasks| && id in AdvanceStep(s, k, view).transactions
    requires id !in s.transactions || AdvanceStep(s, k, view).transactions[id] != s.transactions[id]
    ensures var s', p := AdvanceStep(s, k, view), s.tasks[k].phase;
            && (s'.transactions[id].Gossip? ==> p.Numbered? && p.id == id && view.epochDiffers)
            && (s'.transactions[id].Transact? ==>
                 (p.Numbered? && p.id == id && !view.epochDiffers) || GossipDone(s', id))
  {
    assert TaskInv(s, s.tasks[k]);
    var s' := AdvanceStep(s, k, view);
    AdvanceShape(s, k, view);
    if s.tasks[k].phase.Ready? {
      assert s'.transactions[id].Transact? ==> DidFor(s'.tasks[k], id) && s'.tasks[k].req.GossipRequest?;
    }
  }

  /** In every run an entry asks for gossip only if initiate found the epochs to differ, and skips it
      only if initiate did not, or a gossip request for it has been accepted. */
  lemma {:induction false} StartOf(run: Run, wallet: seq<Token>, n: nat, id: nat)
    requires IsRun(run, wallet) && n <= |run.evs| && id in run.states[n].transactions
    ensures run.states[n].transactions[id].Gossip? ==> StartedWith(run, n, id, true)
    ensures run.states[n].transactions[id].Transact? ==>
              StartedWith(run, n, id, false) || GossipDone(run.states[n], id)
  {
    if n > 0 {
      var s, s', ev := run.states[n - 1], run.states[n], run.evs[n - 1];
      RunInv(run, wallet, n - 1);
      if id in s.transactions && s'.transactions[id] == s.transactions[id] {
        StartOf(run, wallet, n - 1, id);
        StartStays(run, n, id);
      } else {
        WhoChangesEntries(s, ev, id);
        StartWritten(s, ev.task, ev.view, id);
        assert s'.transactions[id].Gossip? ==> StoredAt(run, n - 1, id, true);
        assert s'.transactions[id].Transact? && !GossipDone(s', id) ==> StoredAt(run, n - 1, id, false);
      }
    }
  }

  lemma StartStays(run: Run, n: nat, id: nat)
    requires 0 < n <= |run.evs| < |run.states| && run.states[n] == Step(run.states[n - 1], run.evs[n - 1])
    ensures StartedWith(run, n - 1, id, true) ==> StartedWith(run, n, id, true)
    ensures StartedWith(run, n - 1, id, false) ==> StartedWith(run, n, id, false)
    ensures GossipDone(run.states[n - 1], id) ==> GossipDone(run.states[n], id)
  {
    var s := run.states[n - 1];
    if GossipDone(s, id) {
      var k :| 0 <= k < |s.tasks| && DidFor(s.tasks[k], id) && s.tasks[k].req.GossipRequest?;
      DoneStays(s, run.evs[n - 1], k, id);
    }
  }

  // ----- The wallet -----

  /** In every run, whatever a transfer handler has pushed went to the ticket it checked against and
      totals the amount that initiate fixed. */
  lemma PushedWasOurs(run: Run, wallet: seq<Token>, n: nat, k: nat)
    requires IsRun(run, wallet) && n <= |run.evs| && k < |run.states[n].tasks|
    requires run.states[n].tasks[k].phase.Pushing? || run.states[n].tasks[k].phase.Accepted?
    ensures var s := run.states[n];
            && s.tasks[k].req.TransferRequest? && s.tasks[k].req.transferId in s.initiated
            && Total(s.tasks[k].req.tokens) == Some(s.initiated[s.tasks[k].req.transferId].amount)
            && exists i: nat {:trigger CheckedAt(run, i, k)} ::
                 i < n && CheckedAt(run, i, k)
                 && forall t :: t in s.tasks[k].req.tokens ==> t.recipient == run.evs[i].view.ticket
  {
    var s := run.states[n];
    RunInv(run, wallet, n);
    assert TaskInv(s, s.tasks[k]);
    PastMeansChecked(run, wallet, n, k);
    var i: nat :| i < n && CheckedAt(run, i, k);
    SameRequest(run, wallet, i, n, k);
    RunInv(run, wallet, i);
    assert TaskInv(run.states[i], run.states[i].tasks[k]);
    InitiatedFixed(run, wallet, i, n, s.tasks[k].req.transferId);
  }

  lemma {:induction false} SameRequest(run: Run, wallet: seq<Token>, i: nat, n: nat, k: nat)
    requires IsRun(run, wallet) && i <= n <= |run.evs| && k < |run.states[i].tasks|
    ensures k < |run.states[n].tasks| && run.states[n].tasks[k].req == run.states[i].tasks[k].req
  {
    if i < n {
      SameRequest(run, wallet, i, n - 1, k);
      RequestKept(run.states[n - 1], run.evs[n - 1], k);
    }
  }

  lemma RequestKept(s: State, ev: Event, k: nat)
    requires k < |s.tasks|
    ensures k < |Step(s, ev).tasks| && Step(s, ev).tasks[k].req == s.tasks[k].req
  {
    if ev.Advance? && ev.task == k {
      AdvanceShape(s, k, ev.view);
    } else if !(ev.Abort? && ev.task == k) {
      OthersKept(s, ev, k);
    }
  }
}
