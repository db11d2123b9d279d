/** The receiver object and its handlers, each as it runs when nothing comes in between, and the
    task steps of the concurrent model as a refinement of them. */
module ReceiverHandlers {
  import opened Options
  import opened Amounts
  import opened Receiver
  import opened ReceiverOrphans

  datatype Reply = MissingFields | InvalidVersion | UnknownTransactionId | UnknownTransactionPeer
                 | InvalidEpochSignature | NotAccepted | Okay

  /** What initiate answers: id, epoch, ticket and the amount asked for. */
  datatype InitiateReply = InitiateReply(txId: nat, epoch: int, ticket: nat, item: Amount)

  datatype Outcome = Outcome(reply: Reply, transactions: map<nat, TransactionState>, wallet: seq<Token>)

  /** What a request does once its entry has been read and its peer matched. */
  function MatchedOutcome(table: map<nat, TransactionState>, wallet: seq<Token>,
                          req: Request, tx: Transaction, view: View): Outcome
    requires IdOf(req).Some?
  {
    var id := IdOf(req).value;
    match req
    case GossipRequest(_) =>
      if view.verified then Outcome(Okay, table[id := Transact(tx)], wallet)
      else Outcome(InvalidEpochSignature, table, wallet)
    case TransactRequest(_, methods) =>
      if view.verified && Total(Flatten(methods)) == Some(tx.amount)
      then Outcome(Okay, table[id := Transfer(tx)], wallet)
      else Outcome(NotAccepted, table, wallet)
    case TransferRequest(_, tokens) =>
      if view.verified && AllTo(tokens, view.ticket) && Total(tokens) == Some(tx.amount)
      then Outcome(Okay, table[id := Complete(tx)], wallet + tokens)
      else Outcome(NotAccepted, table, wallet)
  }

  /** What a gossip, transact or transfer request does to the table and the wallet. */
  function HandlerOutcome(table: map<nat, TransactionState>, wallet: seq<Token>,
                          req: Request, peer: Option<Peer>, view: View): Outcome
    requires !req.InitiateRequest?
  {
    if IdOf(req).None? then Outcome(MissingFields, table, wallet) else
    var id := IdOf(req).value;
    if id !in table then Outcome(UnknownTransactionId, table, wallet) else
    var tx := table[id].inner;
    if peer != tx.peer then Outcome(UnknownTransactionPeer, table, wallet)
    else MatchedOutcome(table, wallet, req, tx, view)
  }

  class BrioletteReceiver {
    var nextTxAmount: Amount
    var nextId: nat
    var transactions: map<nat, TransactionState>
    var wallet: seq<Token>

    constructor (wallet: seq<Token>)
      ensures nextTxAmount == ZERO && nextId == 1 && transactions == map[] && this.wallet == wallet
    {
      nextTxAmount, nextId, transactions, this.wallet := ZERO, 1, map[], wallet;
    }

    /** The whole part is cast to 32 bits; the currency is the default one. */
    method NextAmount(whole: nat, fractionalMicros: int)
      modifies this`nextTxAmount
      ensures nextTxAmount == Amount(Wrap32(whole), fractionalMicros, ZERO.code)
      ensures whole < TWO_31 ==> Value(nextTxAmount) == whole * MICROS + fractionalMicros
    {
      nextTxAmount := Amount(Wrap32(whole), fractionalMicros, ZERO.code);
    }

    /** Draws an id and stores the entry; spawning the timer is the caller's next step. */
    method Initiate(currentVersion: bool, epoch: Option<int>, hasSignature: bool, peer: Option<Peer>,
                    localEpoch: int, ticket: nat)
      returns (reply: Reply, answer: Option<InitiateReply>)
      modifies this`nextId, this`transactions
      ensures reply == (if !currentVersion then InvalidVersion
                        else if epoch.Some? && !hasSignature then MissingFields else Okay)
      ensures answer == if reply.Okay? then Some(InitiateReply(old(nextId), localEpoch, ticket, nextTxAmount)) else None
      ensures nextId == old(nextId) + if reply.Okay? then 1 else 0
      ensures transactions == if !reply.Okay? then old(transactions) else
                old(transactions)[old(nextId) := var tx := Transaction(nextTxAmount, peer);
                                                 if epoch != Some(localEpoch) then Gossip(tx) else Transact(tx)]
    {
      if !currentVersion { return InvalidVersion, None; }
      if epoch.Some? && !hasSignature { return MissingFields, None; }
      var tx := Transaction(nextTxAmount, peer);
      var id := nextId;
      nextId := nextId + 1;
      if epoch.None? || epoch.value != localEpoch {
        transactions := transactions[id := Gossip(tx)];
      } else {
        transactions := transactions[id := Transact(tx)];
      }
      return Okay, Some(InitiateReply(id, localEpoch, ticket, nextTxAmount));
    }

    /** The lookup with which the other three handlers begin. */
    method FindTransaction(id: nat, peer: Option<Peer>) returns (error: Option<Reply>, tx: Transaction)
      ensures error == if id !in transactions then Some(UnknownTransactionId)
                       else if peer != transactions[id].inner.peer then Some(UnknownTransactionPeer) else None
      ensures error.None? ==> tx == transactions[id].inner
    {
      tx := Transaction(ZERO, None);
      if id !in transactions { return Some(UnknownTransactionId), tx; }
      tx := transactions[id].inner;
      error := if peer != tx.peer then Some(UnknownTransactionPeer) else None;
    }

    /** update is the epoch of the update supplied and syncs what synchronising to it would say: only
        a newer update is synchronised to. Without one, our own epoch is sent back. */
    method GossipImpl(txId: Option<nat>, peer: Option<Peer>, update: Option<int>, localEpoch: int, syncs: bool)
      returns (reply: Reply, sent: Option<int>)
      modifies this`transactions
      ensures var view := View(false, update.None? || update.value <= localEpoch || syncs, 0);
              Outcome(reply, transactions, wallet)
              == HandlerOutcome(old(transactions), wallet, GossipRequest(txId), peer, view)
      ensures sent == if reply.Okay? && update.None? then Some(localEpoch) else None
    {
      if txId.None? { return MissingFields, None; }
      var error, tx := FindTransaction(txId.value, peer);
      if error.Some? { return error.value, None; }
      sent := None;
      if update.Some? {
        if update.value > localEpoch && !syncs { return InvalidEpochSignature, None; }
      } else {
        sent := Some(localEpoch);
      }
      transactions := transactions[txId.value := Transact(tx)];
      reply := Okay;
    }

    method TransactImpl(id: nat, methods: seq<seq<Token>>, verdicts: seq<bool>, peer: Option<Peer>)
      returns (reply: Reply)
      requires |verdicts| == |methods|
      modifies this`transactions
      ensures var view := View(false, forall i :: 0 <= i < |verdicts| ==> verdicts[i], 0);
              Outcome(reply, transactions, wallet)
              == HandlerOutcome(old(transactions), wallet, TransactRequest(id, methods), peer, view)
    {
      var error, tx := FindTransaction(id, peer);
      if error.Some? { return error.value; }
      var accepted := AcceptsProposal(methods, verdicts, tx.amount);
      if !accepted { return NotAccepted; }
      transactions := transactions[id := Transfer(tx)];
      reply := Okay;
    }

    method TransferImpl(id: nat, tokens: seq<Token>, peer: Option<Peer>, view: View) returns (reply: Reply)
      modifies this`transactions, this`wallet
      ensures Outcome(reply, transactions, wallet)
           == HandlerOutcome(old(transactions), old(wallet), TransferRequest(id, tokens), peer, view)
    {
      var error, tx := FindTransaction(id, peer);
      if error.Some? { return error.value; }
      if !view.verified { return NotAccepted; }
      var accepted := AcceptsTransfer(tokens, view.ticket, tx.amount);
      if !accepted { return NotAccepted; }
      for i := 0 to |tokens|
        invariant wallet == old(wallet) + tokens[..i] && transactions == old(transactions)
      {
        wallet := wallet + [tokens[i]];
        assert tokens[..i + 1] == tokens[..i] + [tokens[i]];
      }
      assert tokens[..|tokens|] == tokens;
      transactions := transactions[id := Complete(tx)];
      reply := Okay;
    }
  }

  // ----- Task by task, the steps refine the handlers -----

  /** Steps of task k alone. */
  ghost predicate Alone(evs: seq<Event>, k: nat, view: View) {
    forall i :: 0 <= i < |evs| ==> evs[i] == Advance(k, view)
  }

  lemma {:induction false} PushAlone(s: State, k: nat, view: View) returns (evs: seq<Event>)
    requires k < |s.tasks| && s.tasks[k].phase.Pushing? && s.tasks[k].req.TransferRequest?
    requires s.tasks[k].phase.pushed <= |s.tasks[k].req.tokens|
    ensures Alone(evs, k, view)
    ensures var req, tx, n, s' := s.tasks[k].req, s.tasks[k].phase.tx, s.tasks[k].phase.pushed, After(s, evs);
            && s'.wallet == s.wallet + req.tokens[n..]
            && s'.transactions == s.transactions[req.transferId := Complete(tx)]
            && |s'.tasks| == |s.tasks| && s'.tasks[k].phase == Accepted(tx)
    decreases |s.tasks[k].req.tokens| - s.tasks[k].phase.pushed
  {
    var ev := Advance(k, view);
    var s', n, tokens := Step(s, ev), s.tasks[k].phase.pushed, s.tasks[k].req.tokens;
    OneStep(s, ev);
    if n == |tokens| {
      evs := [ev];
      assert s.wallet + tokens[n..] == s.wallet;
    } else {
      var rest := PushAlone(s', k, view);
      evs := [ev] + rest;
      AfterAppend(s, [ev], rest);
      assert tokens[n..] == [tokens[n]] + tokens[n + 1..];
      assert s.wallet + [tokens[n]] + tokens[n + 1..] == s.wallet + tokens[n..];
    }
  }

  /** Task k has finished with the given outcome. */
  predicate Finished(s: State, k: nat, out: Outcome) {
    && s.transactions == out.transactions && s.wallet == out.wallet && k < |s.tasks|
    && (if out.reply.Okay? then s.tasks[k].phase.Done? || s.tasks[k].phase.Accepted? else s.tasks[k].phase.Rejected?)
  }

  lemma MatchedAlone(s: State, k: nat, tx: Transaction, view: View) returns (evs: seq<Event>)
    requires k < |s.tasks| && s.tasks[k].phase == Matched(tx) && IdOf(s.tasks[k].req).Some?
    ensures Alone(evs, k, view)
    ensures Finished(After(s, evs), k, MatchedOutcome(s.transactions, s.wallet, s.tasks[k].req, tx, view))
  {
    var ev := Advance(k, view);
    var s1 := Step(s, ev);
    OneStep(s, ev);
    evs := [ev];
    if s1.tasks[k].phase.Pushing? {
      var rest := PushAlone(s1, k, view);
      AfterAppend(s, evs, rest);
      evs := evs + rest;
      assert s1.tasks[k].req.tokens[0..] == s1.tasks[k].req.tokens;
    } else if s1.tasks[k].phase.Ready? {
      OneStep(s1, ev);
      AfterAppend(s, evs, [ev]);
      evs := evs + [ev];
    }
  }

  /** Left undisturbed, a handler's steps leave the table and the wallet as the handler does,
      and end in acceptance exactly when it answers Okay. */
  lemma Undisturbed(s: State, k: nat, view: View) returns (evs: seq<Event>)
    requires k < |s.tasks| && s.tasks[k].phase.Arrived? && !s.tasks[k].req.InitiateRequest?
    ensures Alone(evs, k, view)
    ensures Finished(After(s, evs), k,
                     HandlerOutcome(s.transactions, s.wallet, s.tasks[k].req, s.tasks[k].peer, view))
  {
    var ev := Advance(k, view);
    var s1 := Step(s, ev);
    OneStep(s, ev);
    evs := [ev];
    if s1.tasks[k].phase.Matched? {
      var rest := MatchedAlone(s1, k, s1.tasks[k].phase.tx, view);
      AfterAppend(s, evs, rest);
      evs := evs + rest;
    }
  }

  /** s' is s with the entry for tx stored under the id that was next, and its timer started. */
  predicate Opened(s: State, s': State, k: nat, tx: Transaction, view: View) {
    && s'.transactions == s.transactions[s.nextId := if view.epochDiffers then Gossip(tx) else Transact(tx)]
    && s'.nextId == s.nextId + 1 && s'.timers == s.timers[s.nextId := Reading]
    && s'.initiated == s.initiated[s.nextId := tx] && s'.wallet == s.wallet
    && k < |s'.tasks| && s'.tasks[k].phase.Done?
  }

  lemma StoredAlone(s: State, k: nat, id: nat, view: View)
    requires k < |s.tasks| && s.tasks[k].phase == Stored(id)
    ensures var s' := Step(s, Advance(k, view));
            s'.transactions == s.transactions && s'.nextId == s.nextId && s'.timers == s.timers[id := Reading]
            && s'.initiated == s.initiated && s'.wallet == s.wallet && k < |s'.tasks| && s'.tasks[k].phase.Done?
  {
  }

  lemma NumberedAlone(s: State, k: nat, tx: Transaction, id: nat, view: View)
    requires k < |s.tasks| && s.tasks[k].phase == Numbered(tx, id)
    ensures var s' := Step(s, Advance(k, view));
            s'.transactions == s.transactions[id := if view.epochDiffers then Gossip(tx) else Transact(tx)]
            && s'.nextId == s.nextId && s'.timers == s.timers && s'.initiated == s.initiated[id := tx]
            && s'.wallet == s.wallet && k < |s'.tasks| && s'.tasks[k].phase == Stored(id)
  {
  }

  lemma PricedAlone(s: State, k: nat, tx: Transaction, view: View) returns (evs: seq<Event>)
    requires k < |s.tasks| && s.tasks[k].phase == Priced(tx)
    ensures Alone(evs, k, view) && Opened(s, After(s, evs), k, tx, view)
  {
    var ev := Advance(k, view);
    var s2 := Enter(s.(nextId := s.nextId + 1), k, Numbered(tx, s.nextId));
    OneStep(s, ev);
    assert Step(s, ev) == s2;
    NumberedAlone(s2, k, tx, s.nextId, view);
    var s3 := Step(s2, ev);
    StoredAlone(s3, k, s.nextId, view);
    evs := Extend(s, [ev], s2, ev);
    evs := Extend(s, evs, s3, ev);
  }

  /** Left undisturbed, initiate's steps refuse, or price, number and store the entry and start
      its timer. */
  lemma InitiateAlone(s: State, k: nat, view: View) returns (evs: seq<Event>)
    requires k < |s.tasks| && s.tasks[k].phase.Arrived? && s.tasks[k].req.InitiateRequest?
    ensures Alone(evs, k, view)
    ensures var req, s', tx := s.tasks[k].req, After(s, evs), Transaction(s.nextAmount, s.tasks[k].peer);
            if !req.currentVersion || (req.epoch.Some? && !req.hasSignature)
            then s' == Enter(s, k, Rejected)
            else Opened(s, s', k, tx, view)
  {
    var ev := Advance(k, view);
    var s1 := Step(s, ev);
    OneStep(s, ev);
    evs := [ev];
    if s1.tasks[k].phase.Priced? {
      var rest := PricedAlone(s1, k, s1.tasks[k].phase.tx, view);
      AfterAppend(s, evs, rest);
      evs := evs + rest;
    }
  }
}
