/** When can an entry outlive its timer? Exactly when the timer removes it while some handler that
    has read it can still write it back. */
module ReceiverOrphans {
  import opened Options
  import opened Amounts
  import opened Receiver
  import opened ReceiverRuns

  /** The ticket that would make a transfer's tokens ours. */
  function LikelyTicket(tokens: seq<Token>): nat {
    if tokens == [] then 0 else tokens[0].recipient
  }

  /** A handler that has read an entry and, if its wallet checks pass, will write it. */
  predicate CanWrite(t: Task) {
    match t.phase
    case Ready(_) => IdOf(t.req).Some? && !t.req.TransferRequest?
    case Pushing(_, _) => t.req.TransferRequest?
    case Matched(tx) =>
      (match t.req
       case InitiateRequest(_, _, _) => false
       case GossipRequest(id) => id.Some?
       case TransactRequest(_, methods) => Total(Flatten(methods)) == Some(tx.amount)
       case TransferRequest(_, tokens) =>
         AllTo(tokens, LikelyTicket(tokens)) && Total(tokens) == Some(tx.amount))
    case _ => false
  }

  predicate Orphan(s: State, id: nat) {
    id in s.transactions && id in s.timers && s.timers[id].Over?
  }

  predicate Removes(s: State, ev: Event) {
    ev.Tick? && ev.timer in s.timers && (s.timers[ev.timer].TimedOut? || s.timers[ev.timer].Completed?)
  }

  /** No handler can still write the entry that this step removes. */
  ghost predicate CleanRemoval(s: State, ev: Event) {
    Removes(s, ev) ==> forall t :: t in s.tasks && CanWrite(t) ==> IdOf(t.req) != Some(ev.timer)
  }

  ghost predicate Clean(s: State) {
    && (forall k {:trigger s.tasks[k]} :: 0 <= k < |s.tasks| && CanWrite(s.tasks[k]) ==>
          IdOf(s.tasks[k].req).value in s.transactions)
    && (forall id :: id in s.timers && s.timers[id].Over? ==> id !in s.transactions)
  }

  lemma PassedCheck(s: State, k: nat, tx: Transaction, view: View)
    requires k < |s.tasks| && s.tasks[k].phase == Matched(tx)
    ensures CanWrite(CheckStep(s, k, tx, view).tasks[k]) && IdOf(s.tasks[k].req).Some? ==> CanWrite(s.tasks[k])
  {
    var req := s.tasks[k].req;
    if req.TransferRequest? && AllTo(req.tokens, view.ticket) && req.tokens != [] {
      assert req.tokens[0].recipient == view.ticket;
    }
  }

  lemma AdvanceClean(s: State, k: nat, view: View)
    requires Inv(s) && Clean(s) && k < |s.tasks|
    ensures Clean(AdvanceStep(s, k, view))
  {
    var s' := AdvanceStep(s, k, view);
    assert TaskInv(s, s.tasks[k]);
    if s.tasks[k].phase.Matched? {
      PassedCheck(s, k, s.tasks[k].phase.tx, view);
    }
    forall j | 0 <= j < |s'.tasks| && CanWrite(s'.tasks[j]) ensures IdOf(s'.tasks[j].req).value in s'.transactions {
      assert s.tasks[j].req == s'.tasks[j].req;
      assert j != k ==> s'.tasks[j] == s.tasks[j];
    }
  }

  /** Steps that leave every task but a new or failing one as it is, and keep the table. */
  lemma TableClean(s: State, s': State)
    requires Clean(s) && s'.transactions == s.transactions && s'.timers == s.timers
    requires forall j :: 0 <= j < |s'.tasks| && CanWrite(s'.tasks[j]) ==> j < |s.tasks| && s'.tasks[j] == s.tasks[j]
    ensures Clean(s')
  {
    forall j | 0 <= j < |s'.tasks| && CanWrite(s'.tasks[j]) ensures IdOf(s'.tasks[j].req).value in s'.transactions {
      assert s'.tasks[j] == s.tasks[j];
    }
  }

  lemma TickClean(s: State, id: nat)
    requires Clean(s) && id in s.timers && CleanRemoval(s, Tick(id))
    ensures Clean(TickStep(s, id))
  {
    var s' := TickStep(s, id);
    forall j | 0 <= j < |s'.tasks| && CanWrite(s'.tasks[j]) ensures IdOf(s'.tasks[j].req).value in s'.transactions {
      assert s'.tasks[j] == s.tasks[j] && s.tasks[j] in s.tasks;
    }
  }

  lemma StepClean(s: State, ev: Event)
    requires Inv(s) && Clean(s) && CleanRemoval(s, ev)
    ensures Clean(Step(s, ev))
  {
    match ev
    case Advance(k, view) =>
      if k < |s.tasks| { AdvanceClean(s, k, view); }
    case Tick(id) =>
      if id in s.timers { TickClean(s, id); }
    case _ =>
      TableClean(s, Step(s, ev));
  }

  /** If no removal meets a handler that can still write, no entry ever outlives its timer. */
  lemma {:induction false} NoOrphans(run: Run, wallet: seq<Token>, n: nat)
    requires IsRun(run, wallet) && n <= |run.evs|
    requires forall i :: 0 <= i < n ==> CleanRemoval(run.states[i], run.evs[i])
    ensures Clean(run.states[n])
    ensures forall id :: !Orphan(run.states[n], id)
  {
    if n > 0 {
      NoOrphans(run, wallet, n - 1);
      RunInv(run, wallet, n - 1);
      assert CleanRemoval(run.states[n - 1], run.evs[n - 1]);
      StepClean(run.states[n - 1], run.evs[n - 1]);
    }
  }

  /** An orphan stays for ever. */
  lemma OrphanStays(s: State, ev: Event, id: nat)
    requires Inv(s) && Orphan(s, id)
    ensures Orphan(Step(s, ev), id)
  {
    assert EntryInv(s, id);
    if ev.Advance? && ev.task < |s.tasks| {
      assert TaskInv(s, s.tasks[ev.task]);
    }
  }

  // ----- The other direction -----

  function After(s: State, evs: seq<Event>): State
    decreases |evs|
  {
    if evs == [] then s else After(Step(s, evs[0]), evs[1..])
  }

  lemma {:induction false} AfterAppend(s: State, a: seq<Event>, b: seq<Event>)
    ensures After(s, a + b) == After(After(s, a), b)
    decreases |a|
  {
    if a == [] {
      assert a + b == b;
    } else {
      AfterAppend(Step(s, a[0]), a[1..], b);
      assert (a + b)[1..] == a[1..] + b;
    }
  }

  function StepsLeft(t: Task): nat {
    match t.phase
    case Matched(_) => if t.req.TransferRequest? then |t.req.tokens| + 2 else 2
    case Ready(_) => 1
    case Pushing(_, n) => if t.req.TransferRequest? && n <= |t.req.tokens| then |t.req.tokens| - n + 1 else 1
    case _ => 0
  }

  /** A handler that can write can be driven to write, leaving the timers alone. */
  lemma {:induction false} DriveToWrite(s: State, k: nat) returns (evs: seq<Event>)
    requires Inv(s) && k < |s.tasks| && CanWrite(s.tasks[k])
    ensures IdOf(s.tasks[k].req).value in After(s, evs).transactions
    ensures After(s, evs).timers == s.timers
    decreases StepsLeft(s.tasks[k])
  {
    var t := s.tasks[k];
    assert TaskInv(s, t);
    var ticket := if t.req.TransferRequest? then LikelyTicket(t.req.tokens) else 0;
    var ev := Advance(k, View(false, true, ticket));
    var s' := Step(s, ev);
    if t.phase.Ready? || (t.phase.Pushing? && t.phase.pushed == |t.req.tokens|) {
      evs := [ev];
      assert After(s', []) == s';
    } else {
      StepKeeps(s, ev);
      var rest := DriveToWrite(s', k);
      evs := [ev] + rest;
      assert evs[1..] == rest;
    }
  }

  lemma OneStep(s: State, ev: Event)
    ensures After(s, [ev]) == Step(s, ev)
  {
    assert [ev][1..] == [];
    assert After(Step(s, ev), []) == Step(s, ev);
  }

  /** If a removal does meet a handler that can still write the entry, the run can go on so that
      the timer ends first and the entry then comes back for good. */
  lemma {:induction false} DirtyRemovalOrphans(s: State, id: nat, k: nat) returns (evs: seq<Event>)
    requires Inv(s) && Removes(s, Tick(id))
    requires k < |s.tasks| && CanWrite(s.tasks[k]) && IdOf(s.tasks[k].req) == Some(id)
    ensures Orphan(After(s, evs), id)
    decreases s.timers[id].TimedOut?
  {
    var s' := Step(s, Tick(id));
    StepKeeps(s, Tick(id));
    var rest: seq<Event>;
    if s'.timers[id].Completed? {
      rest := DirtyRemovalOrphans(s', id, k);
    } else {
      var s'' := Step(s', Tick(id));
      StepKeeps(s', Tick(id));
      assert s''.timers[id].Over?;
      var drive := DriveToWrite(s'', k);
      OneStep(s', Tick(id));
      rest := [Tick(id)] + drive;
      AfterAppend(s', [Tick(id)], drive);
    }
    evs := [Tick(id)] + rest;
    OneStep(s, Tick(id));
    AfterAppend(s, [Tick(id)], rest);
  }

  /** s0 goes by evs to s. */
  ghost predicate Leads(s0: State, evs: seq<Event>, s: State) {
    After(s0, evs) == s
  }

  lemma Extend(s0: State, evs: seq<Event>, s: State, ev: Event) returns (evs': seq<Event>)
    requires Leads(s0, evs, s)
    ensures evs' == evs + [ev] && Leads(s0, evs', Step(s, ev))
  {
    evs' := evs + [ev];
    AfterAppend(s0, evs, [ev]);
    OneStep(s, ev);
  }

  /** initiate runs to its end: one entry, with a timer about to read it. */
  lemma InitiatedFrom(s0: State, before: seq<Event>, s1: State, peer: Option<Peer>, v: View)
    returns (evs: seq<Event>, s: State)
    requires v.epochDiffers && Leads(s0, before, s1)
    requires s1 == Start([]).(nextAmount := s1.nextAmount)
    ensures Leads(s0, evs, s)
    ensures s.timers == map[1 := Reading] && s.transactions == map[1 := Gossip(Transaction(s1.nextAmount, peer))]
    ensures s.wallet == [] && |s.tasks| == 1 && !CanWrite(s.tasks[0])
  {
    var arrive := Arrive(InitiateRequest(true, None, false), peer);
    evs := Extend(s0, before, s1, arrive);
    var s2 := Step(s1, arrive);
    evs := Extend(s0, evs, s2, Advance(0, v));
    var s3 := Step(s2, Advance(0, v));
    evs := Extend(s0, evs, s3, Advance(0, v));
    var s4 := Step(s3, Advance(0, v));
    evs := Extend(s0, evs, s4, Advance(0, v));
    var s5 := Step(s4, Advance(0, v));
    evs := Extend(s0, evs, s5, Advance(0, v));
    s := Step(s5, Advance(0, v));
  }

  /** Such a run, concretely: a gossip handler that reads before its timer's removal and writes
      after the timer has ended. */
  lemma OrphanReachable() returns (evs: seq<Event>)
    ensures Orphan(After(Start([]), evs), 1)
  {
    var v, peer, s0 := View(true, true, 0), Some(7), Start([]);
    var first, s5 := InitiatedFrom(s0, [], s0, peer, v);
    first := Extend(s0, first, s5, Tick(1));
    var s6 := Step(s5, Tick(1));
    first := Extend(s0, first, s6, Tick(1));
    var s7 := Step(s6, Tick(1));
    var arrive := Arrive(GossipRequest(Some(1)), peer);
    first := Extend(s0, first, s7, arrive);
    var s8 := Step(s7, arrive);
    first := Extend(s0, first, s8, Advance(1, v));
    var s9 := Step(s8, Advance(1, v));
    assert CanWrite(s9.tasks[1]) && Removes(s9, Tick(1));
    ReachesInv(s0, first);
    var rest := DirtyRemovalOrphans(s9, 1, 1);
    evs := first + rest;
    AfterAppend(s0, first, rest);
  }

  lemma {:induction false} ReachesInv(s: State, evs: seq<Event>)
    requires Inv(s) || s == Start([])
    ensures Inv(After(s, evs))
    decreases |evs|
  {
    if s == Start([]) { StartInv([]); }
    if evs != [] {
      StepKeeps(s, evs[0]);
      ReachesInv(Step(s, evs[0]), evs[1..]);
    }
  }

  /** The protocol's order is not enforced, concretely: a transfer is accepted straight after
      initiate, with neither gossip nor transact, and its token is in the wallet. */
  lemma TransferAfterInitiate() returns (evs: seq<Event>)
    ensures var s, paid := After(Start([]), evs), Token(Amount(1, 0, 0), 5);
            && s.wallet == [paid]
            && s.transactions == map[1 := Complete(Transaction(Amount(1, 0, 0), Some(7)))]
            && |s.tasks| == 2 && s.tasks[1].req.TransferRequest? && s.tasks[1].phase.Accepted?
  {
    var paid, peer, v, s0 := Token(Amount(1, 0, 0), 5), Some(7), View(true, true, 5), Start([]);
    var tx := Transaction(Amount(1, 0, 0), peer);
    OneStep(s0, SetAmount(Amount(1, 0, 0)));
    var s1 := Step(s0, SetAmount(Amount(1, 0, 0)));
    var s6;
    evs, s6 := InitiatedFrom(s0, [SetAmount(Amount(1, 0, 0))], s1, peer, v);
    var request := TransferRequest(1, [paid]);
    evs := Extend(s0, evs, s6, Arrive(request, peer));
    var s7 := Step(s6, Arrive(request, peer));
    evs := Extend(s0, evs, s7, Advance(1, v));
    var s8 := Step(s7, Advance(1, v));
    assert s8.tasks[1].phase == Matched(tx);
    OneTokenTotal(paid);
    evs := Extend(s0, evs, s8, Advance(1, v));
    var s9 := Step(s8, Advance(1, v));
    assert s9.tasks[1].phase == Pushing(tx, 0);
    evs := Extend(s0, evs, s9, Advance(1, v));
    var s10 := Step(s9, Advance(1, v));
    assert s10.tasks[1].phase == Pushing(tx, 1);
    evs := Extend(s0, evs, s10, Advance(1, v));
  }

  lemma OneTokenTotal(t: Token)
    requires t.value == Amount(1, 0, 0)
    ensures Total([t]) == Some(Amount(1, 0, 0))
  {
    assert [t][..0] == [];
    assert Total([]) == Some(ZERO);
  }
}
