/** The receiver's transaction table. Handlers and timers run concurrently and take the table's
    and the wallet's locks separately, so each is a task that advances one atomic step at a time. */
module Receiver {
  import opened Options
  import opened Amounts

  type Peer = nat

  datatype Transaction = Transaction(amount: Amount, peer: Option<Peer>)

  datatype TransactionState =
    | Gossip(inner: Transaction) | Transact(inner: Transaction)
    | Transfer(inner: Transaction) | Complete(inner: Transaction)

  /** An id of None is an empty field. */
  datatype Request =
    | InitiateRequest(currentVersion: bool, epoch: Option<int>, hasSignature: bool)
    | GossipRequest(gossipId: Option<nat>)
    | TransactRequest(transactId: nat, methods: seq<seq<Token>>)
    | TransferRequest(transferId: nat, tokens: seq<Token>)

  function IdOf(req: Request): Option<nat> {
    match req
    case InitiateRequest(_, _, _) => None
    case GossipRequest(id) => id
    case TransactRequest(id, _) => Some(id)
    case TransferRequest(id, _) => Some(id)
  }

  /** Where a handler has got to. Initiate: amount read, id drawn, entry stored. The others:
      entry read and peer matched, request checked, tokens being pushed. */
  datatype Phase =
    | Arrived
    | Priced(tx: Transaction) | Numbered(tx: Transaction, id: nat) | Stored(id: nat)
    | Matched(tx: Transaction) | Ready(tx: Transaction) | Pushing(tx: Transaction, pushed: nat)
    | Rejected | Done | Accepted(tx: Transaction)

  datatype Task = Task(req: Request, peer: Option<Peer>, phase: Phase)

  /** A timer reads the entry, waits for the tick, reads again (unwrapping), and removes. */
  datatype Timer = Reading | Waiting(last: TransactionState) | TimedOut(state: TransactionState)
                 | Completed | Over | Panicked

  /** initiated is history: what initiate stored under each id. */
  datatype State = State(
    nextAmount: Amount, nextId: nat, transactions: map<nat, TransactionState>, wallet: seq<Token>,
    tasks: seq<Task>, timers: map<nat, Timer>, initiated: map<nat, Transaction>)

  /** What consulting the wallet yields: whether epochs differ, whether the update or the tokens
      verify, and the credential of our last ticket. */
  datatype View = View(epochDiffers: bool, verified: bool, ticket: nat)

  /** Abort is a handler that fails before it has touched the wallet. */
  datatype Event = SetAmount(amount: Amount) | Arrive(req: Request, peer: Option<Peer>)
                 | Advance(task: nat, view: View) | Abort(task: nat) | Tick(timer: nat)

  function Start(wallet: seq<Token>): State {
    State(ZERO, 1, map[], wallet, [], map[], map[])
  }

  // ----- Handlers -----

  function Enter(s: State, k: nat, phase: Phase): State
    requires k < |s.tasks|
  {
    s.(tasks := s.tasks[k := s.tasks[k].(phase := phase)])
  }

  function Store(s: State, id: nat, entry: TransactionState): State {
    s.(transactions := s.transactions[id := entry])
  }

  /** The first step: validate, or look the entry up and match the peer. */
  function FirstStep(s: State, k: nat): State
    requires k < |s.tasks|
  {
    var t := s.tasks[k];
    if t.req.InitiateRequest? then
      if !t.req.currentVersion || (t.req.epoch.Some? && !t.req.hasSignature) then Enter(s, k, Rejected)
      else Enter(s, k, Priced(Transaction(s.nextAmount, t.peer)))
    else
      var id := IdOf(t.req);
      if id.None? || id.value !in s.transactions then Enter(s, k, Rejected) else
      var tx := s.transactions[id.value].inner;
      if t.peer != tx.peer then Enter(s, k, Rejected) else Enter(s, k, Matched(tx))
  }

  /** The request is checked against the entry as it was read. */
  function CheckStep(s: State, k: nat, tx: Transaction, view: View): State
    requires k < |s.tasks|
  {
    var req := s.tasks[k].req;
    var ok := view.verified && match req
      case InitiateRequest(_, _, _) => false
      case GossipRequest(_) => true
      case TransactRequest(_, methods) => Total(Flatten(methods)) == Some(tx.amount)
      case TransferRequest(_, tokens) => AllTo(tokens, view.ticket) && Total(tokens) == Some(tx.amount);
    Enter(s, k, if !ok then Rejected else if req.TransferRequest? then Pushing(tx, 0) else Ready(tx))
  }

  function AdvanceStep(s: State, k: nat, view: View): State
    requires k < |s.tasks|
  {
    var t := s.tasks[k];
    match t.phase
    case Arrived => FirstStep(s, k)
    case Priced(tx) => Enter(s.(nextId := s.nextId + 1), k, Numbered(tx, s.nextId))
    case Numbered(tx, id) =>
      var entry := if view.epochDiffers then Gossip(tx) else Transact(tx);
      Enter(Store(s, id, entry).(initiated := s.initiated[id := tx]), k, Stored(id))
    case Stored(id) => Enter(s.(timers := s.timers[id := Reading]), k, Done)
    case Matched(tx) => CheckStep(s, k, tx, view)
    case Ready(tx) =>
      if IdOf(t.req).None? then s
      else Enter(Store(s, IdOf(t.req).value, if t.req.GossipRequest? then Transact(tx) else Transfer(tx)), k, Done)
    case Pushing(tx, n) =>
      if !t.req.TransferRequest? then s
      else if n < |t.req.tokens| then Enter(s.(wallet := s.wallet + [t.req.tokens[n]]), k, Pushing(tx, n + 1))
      else Enter(Store(s, t.req.transferId, Complete(tx)), k, Accepted(tx))
    case _ => s
  }

  // ----- Timers -----

  function SetTimer(s: State, id: nat, timer: Timer): State {
    s.(timers := s.timers[id := timer])
  }

  function TickStep(s: State, id: nat): State
    requires id in s.timers
  {
    match s.timers[id]
    case Reading => SetTimer(s, id, if id in s.transactions then Waiting(s.transactions[id]) else Over)
    case Waiting(last) =>
      if id !in s.transactions then SetTimer(s, id, Panicked) else
      var state := s.transactions[id];
      SetTimer(s, id, if state == last then TimedOut(state) else if state.Complete? then Completed else Reading)
    case TimedOut(state) =>
      SetTimer(s.(transactions := s.transactions - {id}), id, if state.Complete? then Completed else Reading)
    case Completed => SetTimer(s.(transactions := s.transactions - {id}), id, Reading)
    case Over => s
    case Panicked => s
  }

  predicate MayAbort(p: Phase) {
    p.Arrived? || p.Priced? || p.Numbered? || p.Stored? || p.Matched?
  }

  function Step(s: State, ev: Event): State {
    match ev
    case SetAmount(a) => s.(nextAmount := a)
    case Arrive(req, peer) => s.(tasks := s.tasks + [Task(req, peer, Arrived)])
    case Advance(k, view) => if k < |s.tasks| then AdvanceStep(s, k, view) else s
    case Abort(k) => if k < |s.tasks| && MayAbort(s.tasks[k].phase) then Enter(s, k, Rejected) else s
    case Tick(id) => if id in s.timers then TickStep(s, id) else s
  }

  // ----- Invariant -----

  /** The id an initiate handler has drawn and whose timer it has not spawned yet. */
  function Drawn(p: Phase): Option<nat> {
    match p
    case Numbered(_, id) => Some(id)
    case Stored(id) => Some(id)
    case _ => None
  }

  /** A handler working on an entry works on what initiate stored, for the same peer. */
  predicate WorksOn(s: State, t: Task, tx: Transaction) {
    IdOf(t.req).Some? && IdOf(t.req).value in s.initiated && s.initiated[IdOf(t.req).value] == tx && tx.peer == t.peer
  }

  predicate TaskInv(s: State, t: Task) {
    match t.phase
    case Priced(tx) => t.req.InitiateRequest? && tx.peer == t.peer
    case Numbered(tx, id) =>
      t.req.InitiateRequest? && tx.peer == t.peer && id < s.nextId && id !in s.initiated && id !in s.timers
    case Stored(id) => t.req.InitiateRequest? && id in s.initiated && id !in s.timers
    case Matched(tx) => WorksOn(s, t, tx)
    case Ready(tx) => WorksOn(s, t, tx) && !t.req.TransferRequest?
    case Pushing(tx, n) =>
      WorksOn(s, t, tx) && t.req.TransferRequest? && n <= |t.req.tokens| && Total(t.req.tokens) == Some(tx.amount)
    case Accepted(tx) => WorksOn(s, t, tx) && t.req.TransferRequest?
    case _ => true
  }

  predicate EntryInv(s: State, id: nat) {
    && (id in s.transactions ==> id in s.initiated && s.transactions[id].inner == s.initiated[id])
    && (id in s.initiated ==> id < s.nextId)
    && (id in s.timers ==> id in s.initiated && !s.timers[id].Panicked?)
    && (id in s.timers && s.timers[id].Waiting? ==> id in s.transactions)
  }

  predicate OwnDraw(s: State, j: nat, k: nat)
    requires j < |s.tasks| && k < |s.tasks|
  {
    j != k && Drawn(s.tasks[j].phase).Some? ==> Drawn(s.tasks[j].phase) != Drawn(s.tasks[k].phase)
  }

  ghost predicate Inv(s: State) {
    && (forall id: nat {:trigger EntryInv(s, id)} :: EntryInv(s, id))
    && (forall k {:trigger s.tasks[k]} :: 0 <= k < |s.tasks| ==> TaskInv(s, s.tasks[k]))
    && (forall j, k {:trigger OwnDraw(s, j, k)} :: 0 <= j < |s.tasks| && 0 <= k < |s.tasks| ==> OwnDraw(s, j, k))
  }

  /** A change of task k alone, with initiated, timers and nextId only growing, keeps the others. */
  predicate Grows(s: State, s': State) {
    && s.nextId <= s'.nextId
    && (forall id :: id in s.initiated ==> id in s'.initiated && s'.initiated[id] == s.initiated[id])
  }

  lemma TasksKept(s: State, s': State, k: nat)
    requires Inv(s) && k < |s.tasks| && |s'.tasks| == |s.tasks| && Grows(s, s')
    requires forall j :: 0 <= j < |s.tasks| && j != k ==> s'.tasks[j] == s.tasks[j]
    requires TaskInv(s', s'.tasks[k])
    requires forall id :: id in s'.initiated && id !in s.initiated ==> Drawn(s.tasks[k].phase) == Some(id)
    requires forall id :: id in s'.timers && id !in s.timers ==> Drawn(s.tasks[k].phase) == Some(id)
    ensures forall j {:trigger s'.tasks[j]} :: 0 <= j < |s'.tasks| ==> TaskInv(s', s'.tasks[j])
  {
    forall j | 0 <= j < |s'.tasks| ensures TaskInv(s', s'.tasks[j]) {
      if j != k {
        assert OwnDraw(s, j, k) && TaskInv(s, s.tasks[j]);
      }
    }
  }

  lemma DrawsKept(s: State, s': State, k: nat)
    requires Inv(s) && k < |s.tasks| && |s'.tasks| == |s.tasks|
    requires forall j :: 0 <= j < |s.tasks| && j != k ==> s'.tasks[j] == s.tasks[j]
    requires var d := Drawn(s'.tasks[k].phase);
             d.None? || d == Drawn(s.tasks[k].phase) || d.value >= s.nextId
    ensures forall i, j {:trigger OwnDraw(s', i, j)} :: 0 <= i < |s'.tasks| && 0 <= j < |s'.tasks| ==> OwnDraw(s', i, j)
  {
    forall i: nat, j: nat | i < |s'.tasks| && j < |s'.tasks| ensures OwnDraw(s', i, j) {
      assert OwnDraw(s, i, j) && OwnDraw(s, j, i);
      DrawnBelow(s, i);
      DrawnBelow(s, j);
    }
  }

  lemma DrawnBelow(s: State, k: nat)
    requires Inv(s) && k < |s.tasks|
    ensures Drawn(s.tasks[k].phase).Some? ==> Drawn(s.tasks[k].phase).value < s.nextId
  {
    assert TaskInv(s, s.tasks[k]);
    if s.tasks[k].phase.Stored? {
      assert EntryInv(s, s.tasks[k].phase.id);
    }
  }

  lemma InitiateKeeps(s: State, k: nat, view: View)
    requires Inv(s) && k < |s.tasks|
    requires s.tasks[k].phase.Priced? || s.tasks[k].phase.Numbered? || s.tasks[k].phase.Stored?
    ensures Inv(AdvanceStep(s, k, view))
  {
    var s' := AdvanceStep(s, k, view);
    assert TaskInv(s, s.tasks[k]) && EntryInv(s, s.nextId);
    DrawnBelow(s, k);
    forall id: nat ensures EntryInv(s', id) {
      assert EntryInv(s, id);
    }
    TasksKept(s, s', k);
    DrawsKept(s, s', k);
  }

  /** A step that leaves the table, the timers and the ids as they are. */
  lemma TableUntouched(s: State, s': State)
    requires Inv(s) && s'.transactions == s.transactions && s'.timers == s.timers
    requires s'.initiated == s.initiated && s'.nextId == s.nextId
    ensures forall id: nat {:trigger EntryInv(s', id)} :: EntryInv(s', id)
  {
    forall id: nat ensures EntryInv(s', id) {
      assert EntryInv(s, id);
    }
  }

  /** Steps that only read: arrival, the check, and those of a finished handler. */
  lemma ReadKeeps(s: State, k: nat, view: View)
    requires Inv(s) && k < |s.tasks| && !s.tasks[k].phase.Priced? && Drawn(s.tasks[k].phase).None?
    requires !s.tasks[k].phase.Ready? && !s.tasks[k].phase.Pushing?
    ensures Inv(AdvanceStep(s, k, view))
  {
    var s' := AdvanceStep(s, k, view);
    TableUntouched(s, s');
    ReadPhase(s, k, view);
    TasksKept(s, s', k);
    DrawsKept(s, s', k);
  }

  lemma ReadPhase(s: State, k: nat, view: View)
    requires Inv(s) && k < |s.tasks| && !s.tasks[k].phase.Priced? && Drawn(s.tasks[k].phase).None?
    requires !s.tasks[k].phase.Ready? && !s.tasks[k].phase.Pushing?
    ensures var s' := AdvanceStep(s, k, view);
            TaskInv(s', s'.tasks[k]) && Drawn(s'.tasks[k].phase).None?
  {
    assert TaskInv(s, s.tasks[k]);
    if IdOf(s.tasks[k].req).Some? {
      assert EntryInv(s, IdOf(s.tasks[k].req).value);
    }
  }

  /** Steps that write the table or the wallet. */
  lemma WriteKeeps(s: State, k: nat, view: View)
    requires Inv(s) && k < |s.tasks| && (s.tasks[k].phase.Ready? || s.tasks[k].phase.Pushing?)
    ensures Inv(AdvanceStep(s, k, view))
  {
    var s' := AdvanceStep(s, k, view);
    assert TaskInv(s, s.tasks[k]) && EntryInv(s, IdOf(s.tasks[k].req).value);
    forall id: nat ensures EntryInv(s', id) {
      assert EntryInv(s, id);
    }
    TasksKept(s, s', k);
    DrawsKept(s, s', k);
  }

  lemma TickKeeps(s: State, id: nat)
    requires Inv(s) && id in s.timers
    ensures Inv(TickStep(s, id))
  {
    var s' := TickStep(s, id);
    assert EntryInv(s, id);
    forall i: nat ensures EntryInv(s', i) {
      assert EntryInv(s, i);
    }
    forall i: nat, j: nat | i < |s'.tasks| && j < |s'.tasks| ensures OwnDraw(s', i, j) {
      assert OwnDraw(s, i, j);
    }
  }

  /** The invariant is kept by every step of every handler and timer. */
  lemma StepKeeps(s: State, ev: Event)
    requires Inv(s)
    ensures Inv(Step(s, ev))
  {
    var s' := Step(s, ev);
    match ev
    case Advance(k, view) =>
      if k < |s.tasks| {
        if Drawn(s.tasks[k].phase).Some? || s.tasks[k].phase.Priced? {
          InitiateKeeps(s, k, view);
        } else if s.tasks[k].phase.Ready? || s.tasks[k].phase.Pushing? {
          WriteKeeps(s, k, view);
        } else {
          ReadKeeps(s, k, view);
        }
      }
    case Tick(id) =>
      if id in s.timers { TickKeeps(s, id); }
    case Abort(k) =>
      if s' != s {
        forall id: nat ensures EntryInv(s', id) { assert EntryInv(s, id); }
        TasksKept(s, s', k);
        DrawsKept(s, s', k);
      }
    case _ =>
      forall id: nat ensures EntryInv(s', id) { assert EntryInv(s, id); }
      forall i: nat, j: nat | i < |s'.tasks| && j < |s'.tasks| ensures OwnDraw(s', i, j) {
        if i < |s.tasks| && j < |s.tasks| { assert OwnDraw(s, i, j); }
      }
  }
}
