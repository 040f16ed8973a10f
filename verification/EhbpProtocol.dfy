/**
 Senders, re-verification and the sealing channel as one state machine. No step
 spans an await or accesses the channel twice, and every task can be dropped.
 What a step does besides commutes with the steps of others: it takes or gives
 back the refresh lock, sets the refresher, which is read under that lock only,
 or sets fields of the client, to which `verify` has exclusive access.
 */
module EhbpProtocol {
  import opened Bits
  import opened Common
  import opened Ehbp

  /**
   Where a sender stands. `generation` is what it read first, `key` what its
   failed attempt was sealed to, read from channel number `at`. `mine` is the
   generation of its own rejection, `rejected` the key taken out there.
   */
  datatype Sender =
    | Seen(generation: Generation)
    | Sending(generation: Generation, key: Key, at: nat)
    | Waiting(generation: Generation, key: Key, at: nat)
    | Holding(generation: Generation, key: Key, at: nat)
    | Rejected(mine: Generation, rejected: Option<Key>)
    | Refreshing(mine: Generation, rejected: Option<Key>)
    | Refreshed(mine: Generation, rejected: Option<Key>, state: RefreshedState)
    | Retrying
    | Resending(key: Key, at: nat)
    | Finished

  /** The sender owns the refresh lock. */
  predicate Holds(p: Sender) {
    p.Holding? || InRefresh(p)
  }

  predicate InRefresh(p: Sender) {
    p.Rejected? || p.Refreshing? || p.Refreshed?
  }

  datatype Holder = Free | ByVerify | BySender(id: nat)

  datatype Verify = NotRunning | AwaitingLock | Attesting

  /**
   `history` lists the channel after each change, the present one last.
   `closedAt` marks the change by which the running or last verification took
   trust away, as long as nothing has restored it.
   */
  datatype State = State(
    history: seq<Channel>,
    lock: Holder,
    refresher: bool,
    senders: map<nat, Sender>,
    verify: Verify,
    pinned: bool,
    closedAt: Option<nat>)
  {
    function Now(): (i: nat)
      requires history != []
      ensures i < |history|
    {
      |history| - 1
    }

    function Current(): Channel
      requires history != []
    {
      history[Now()]
    }

    /** `SecureClient::is_verified`. */
    predicate IsVerified()
      requires history != []
    {
      pinned && Current().VerifiedGroundTruth().Some?
    }

    function Changed(c: Channel): State {
      this.(history := history + [c])
    }

    function Move(id: nat, p: Sender): State {
      this.(senders := senders[id := p])
    }

    /** The sender moves on and gives the refresh lock back. */
    function Leave(id: nat, p: Sender): State {
      Move(id, p).(lock := Free)
    }
  }

  datatype Move =
    | ReadClient
    | Answer(mismatch: bool)
    | TakeLock
    | TryReject
    | StartRefresh
    | EndRefresh(result: Option<Verification>)
    | Install
    | Retry
    | Complete
    | Drop

  datatype Action =
    | ReadGeneration(id: nat)
    | Do(id: nat, move: Move)
    | StartVerify
    | LockVerify
    | EndVerify(result: Option<Verification>)
    | DropVerify
    | Revoke
    | Rekey(key: Key)

  /** A verification result that a channel can be built from. */
  function Usable(usable: Key -> bool, result: Option<Verification>): Option<RefreshedState> {
    match result
    case None => None
    case Some(v) =>
      match VerifiedState(v)
      case None => None
      case Some(st) => if usable(st.hpkePublicKey) then Some(st) else None
  }

  /** Where a sender goes that neither takes the lock nor changes the channel. */
  function QuietNext(usable: Key -> bool, s: State, p: Sender, move: Move): Option<Sender>
    requires s.history != []
  {
    var client := s.Current().client;
    match (move, p)
    case (ReadClient, Seen(g)) => Some(if client.None? then Finished else Sending(g, client.value.key, s.Now()))
    case (Answer(mismatch), Sending(g, key, at)) => Some(if mismatch then Waiting(g, key, at) else Finished)
    case (StartRefresh, Rejected(mine, rejected)) => Some(if s.refresher then Refreshing(mine, rejected) else Finished)
    case (EndRefresh(result), Refreshing(mine, rejected)) =>
      (match Usable(usable, result)
       case None => Some(Finished)
       case Some(st) => Some(Refreshed(mine, rejected, st)))
    case (Retry, Retrying) => Some(if client.None? then Finished else Resending(client.value.key, s.Now()))
    case (Complete, Resending(_, _)) => Some(Finished)
    case (Drop, _) => if p.Finished? then None else Some(Finished)
    case _ => None
  }

  /** A step of sender `id`, which stands at `p`. The lock is given back when its holder goes on without it. */
  function SenderStep(usable: Key -> bool, s: State, id: nat, p: Sender, move: Move): Option<State>
    requires s.history != []
  {
    match (move, p)
    case (TakeLock, Waiting(g, key, at)) =>
      if s.lock.Free? then Some(s.Move(id, Holding(g, key, at)).(lock := BySender(id))) else None
    case (TryReject, Holding(g, key, at)) =>
      if s.Current().generation != g then Some(s.Leave(id, Retrying))
      else
        var c := s.Current().Reject();
        Some(s.Changed(c).Move(id, Rejected(c.generation, c.rejectedPublicKey)))
    case (Install, Refreshed(mine, _, st)) =>
      var (finish, c) := s.Current().FinishRefresh(mine, st);
      (match finish
       case Overtaken => Some(s.Leave(id, Retrying))
       case SameKey => Some(s.Changed(c).Leave(id, Finished))
       case Installed => Some(s.Changed(c).Leave(id, Retrying)))
    case _ =>
      match QuietNext(usable, s, p, move)
      case None => None
      case Some(q) => Some(if Holds(p) && !Holds(q) then s.Leave(id, q) else s.Move(id, q))
  }

  /** What one action makes of a state; nothing when it cannot happen there. */
  function Step(usable: Key -> bool, s: State, a: Action): Option<State>
    requires s.history != []
  {
    match a
    case ReadGeneration(id) =>
      if id in s.senders then None else Some(s.Move(id, Seen(s.Current().generation)))
    case StartVerify =>
      if s.verify.NotRunning? then Some(s.(verify := AwaitingLock)) else None
    case LockVerify =>
      if s.verify.AwaitingLock? && s.lock.Free? then
        Some(s.Changed(s.Current().Clear())
              .(lock := ByVerify, verify := Attesting, pinned := false, closedAt := Some(|s.history|)))
      else None
    case EndVerify(result) =>
      if !s.verify.Attesting? then None
      else
        (match Usable(usable, result)
         case None => Some(s.(lock := Free, verify := NotRunning))
         case Some(st) =>
           Some(s.Changed(s.Current().SetActive(st))
                 .(lock := Free, verify := NotRunning, pinned := true, refresher := true, closedAt := None)))
    case DropVerify =>
      if s.verify.AwaitingLock? then Some(s.(verify := NotRunning))
      else if s.verify.Attesting? then Some(s.(lock := Free, verify := NotRunning))
      else None
    case Revoke => Some(s.Changed(s.Current().Clear()))
    case Rekey(key) =>
      if usable(key) then Some(s.Changed(s.Current().SetActive(RefreshedState(key, None))).(closedAt := None)) else None
    case Do(id, move) => if id in s.senders then SenderStep(usable, s, id, s.senders[id], move) else None
  }

  // ---------- the invariant ----------

  predicate Initial(s: State) {
    && 0 < |s.history| <= U64_LIMIT
    && (forall i :: 0 <= i < |s.history| ==> Dated(s.history, i))
    && s.lock.Free? && s.senders == map[] && s.verify.NotRunning? && s.closedAt.None?
  }

  /** Every channel of the history is coherent and carries its number as its generation. */
  predicate Dated(history: seq<Channel>, i: nat)
    requires i < |history|
  {
    history[i].generation == i && history[i].Coherent()
  }

  predicate SealedTo(history: seq<Channel>, generation: nat, key: Key, at: nat) {
    generation <= at < |history| && history[at].client == Some(Client(key))
  }

  predicate RejectedAt(history: seq<Channel>, mine: nat, rejected: Option<Key>) {
    && 0 < mine < |history| && rejected.Some?
    && history[mine].rejectedPublicKey == rejected && history[mine - 1].publicKey == rejected
  }

  predicate SenderInv(history: seq<Channel>, p: Sender) {
    match p
    case Seen(g) => g < |history|
    case Sending(g, key, at) => SealedTo(history, g, key, at)
    case Waiting(g, key, at) => SealedTo(history, g, key, at)
    case Holding(g, key, at) => SealedTo(history, g, key, at)
    case Rejected(mine, rejected) => RejectedAt(history, mine, rejected)
    case Refreshing(mine, rejected) => RejectedAt(history, mine, rejected)
    case Refreshed(mine, rejected, st) =>
      && RejectedAt(history, mine, rejected)
      && (st.groundTruth.Some? ==> st.groundTruth.value.hpkePublicKey == Some(st.hpkePublicKey))
    case Resending(key, at) => SealedTo(history, 0, key, at)
    case _ => true
  }

  predicate LockInv(s: State) {
    && (forall id :: id in s.senders ==> (Holds(s.senders[id]) <==> s.lock == BySender(id)))
    && (s.lock.BySender? ==> s.lock.id in s.senders)
    && (s.lock.ByVerify? <==> s.verify.Attesting?)
  }

  /** Since verification took trust away, the channel is inactive and nobody is refreshing it. */
  predicate ClosedInv(s: State) {
    s.closedAt.Some? ==>
      && !s.pinned && s.closedAt.value < |s.history|
      && (forall i :: s.closedAt.value <= i < |s.history| ==> !s.history[i].Active())
      && (forall id :: id in s.senders ==> !InRefresh(s.senders[id]))
  }

  ghost predicate Inv(s: State) {
    && 0 < |s.history| <= U64_LIMIT
    && (forall i :: 0 <= i < |s.history| ==> Dated(s.history, i))
    && (forall id :: id in s.senders ==> SenderInv(s.history, s.senders[id]))
    && LockInv(s)
    && ClosedInv(s)
    && (s.verify.Attesting? ==> !s.pinned)
  }

  lemma SenderInvStable(history: seq<Channel>, c: Channel, p: Sender)
    requires SenderInv(history, p)
    ensures SenderInv(history + [c], p)
  {
  }

  /** A change of the channel keeps what the senders know of its past. */
  lemma ChangedInv(s: State, c: Channel)
    requires Inv(s) && |s.history| < U64_LIMIT && c.Coherent() && c.generation == Next(s.Current().generation)
    requires s.closedAt.Some? ==> !c.Active()
    ensures Inv(s.Changed(c))
  {
    var s' := s.Changed(c);
    assert Dated(s.history, s.Now());
    forall i | 0 <= i < |s'.history| ensures Dated(s'.history, i) {
      if i < |s.history| { assert Dated(s.history, i); }
    }
    forall id | id in s'.senders ensures SenderInv(s'.history, s'.senders[id]) {
      SenderInvStable(s.history, c, s.senders[id]);
    }
  }

  /** A sender that is neither in a refresh nor takes or keeps the lock may move freely. */
  lemma MovedInv(s: State, id: nat, p: Sender)
    requires Inv(s) && SenderInv(s.history, p)
    requires Holds(p) <==> s.lock == BySender(id)
    requires InRefresh(p) ==> s.closedAt.None?
    ensures Inv(s.Move(id, p))
  {
  }

  lemma LeftInv(s: State, id: nat, p: Sender)
    requires Inv(s) && s.lock == BySender(id) && SenderInv(s.history, p) && !Holds(p)
    ensures Inv(s.Leave(id, p))
  {
  }

  lemma LockTakenInv(s: State, id: nat, p: Sender)
    requires Inv(s) && s.lock.Free? && SenderInv(s.history, p) && p.Holding?
    ensures Inv(s.Move(id, p).(lock := BySender(id)))
  {
  }

  /**
   A rejection succeeds exactly when the channel is still the one whose
   generation the sender read first. That channel is active, and its key is the
   one the failed attempt was sealed to.
   */
  lemma RejectsWhatFailed(s: State, id: nat)
    requires Inv(s) && id in s.senders && s.senders[id].Holding?
    ensures var p := s.senders[id];
      && (s.Current().generation == p.generation <==> p.generation == s.Now())
      && (s.Current().generation == p.generation ==>
           p.at == s.Now() && s.Current().Active() && s.Current().publicKey == Some(p.key))
  {
    assert SenderInv(s.history, s.senders[id]);
    assert Dated(s.history, s.Now());
  }

  lemma RejectInv(usable: Key -> bool, s: State, id: nat, s': State)
    requires Inv(s) && |s'.history| <= U64_LIMIT && id in s.senders && s.senders[id].Holding?
    requires SenderStep(usable, s, id, s.senders[id], TryReject) == Some(s')
    ensures Inv(s')
  {
    hide QuietNext;
    RejectsWhatFailed(s, id);
    var p := s.senders[id];
    if s.Current().generation != p.generation {
      LeftInv(s, id, Retrying);
    } else {
      var c := s.Current().Reject();
      assert c.Coherent();
      ChangedInv(s, c);
      assert s.Changed(c).history[s.Now()] == s.Current();
      MovedInv(s.Changed(c), id, Rejected(c.generation, c.rejectedPublicKey));
    }
  }

  /**
   The end of a refresh: it installs only over the channel that its own
   rejection left, and never the key that it rejected.
   */
  lemma InstallsInOrder(s: State, id: nat)
    requires Inv(s) && id in s.senders && s.senders[id].Refreshed?
    ensures var p, verdict := s.senders[id], s.Current().FinishRefresh(s.senders[id].mine, s.senders[id].state).0;
      && (verdict.Overtaken? <==> p.mine != s.Now())
      && (verdict.SameKey? <==> p.mine == s.Now() && Some(p.state.hpkePublicKey) == p.rejected)
      && (verdict.Installed? <==> p.mine == s.Now() && Some(p.state.hpkePublicKey) != p.rejected)
  {
    assert SenderInv(s.history, s.senders[id]);
    assert Dated(s.history, s.Now());
  }

  lemma InstallInv(usable: Key -> bool, s: State, id: nat, s': State)
    requires Inv(s) && |s'.history| <= U64_LIMIT && id in s.senders && s.senders[id].Refreshed?
    requires SenderStep(usable, s, id, s.senders[id], Install) == Some(s')
    ensures Inv(s')
  {
    hide QuietNext;
    InstallsInOrder(s, id);
    var p := s.senders[id];
    var (finish, c) := s.Current().FinishRefresh(p.mine, p.state);
    if finish.Overtaken? {
      LeftInv(s, id, Retrying);
    } else {
      assert SenderInv(s.history, p);
      ChangedInv(s, c);
      LeftInv(s.Changed(c), id, if finish.SameKey? then Finished else Retrying);
    }
  }

  lemma InvGives(s: State, id: nat)
    requires Inv(s) && id in s.senders
    ensures 0 < |s.history| && SenderInv(s.history, s.senders[id])
    ensures Holds(s.senders[id]) <==> s.lock == BySender(id)
    ensures InRefresh(s.senders[id]) ==> s.closedAt.None?
    ensures Dated(s.history, s.Now())
  {
  }

  /** A move that neither takes the lock nor changes the channel. */
  lemma QuietMove(usable: Key -> bool, s: State, p: Sender, move: Move, q: Sender)
    requires s.history != [] && SenderInv(s.history, p) && QuietNext(usable, s, p, move) == Some(q)
    requires Dated(s.history, s.Now())
    ensures SenderInv(s.history, q)
    ensures (Holds(q) ==> Holds(p)) && (InRefresh(q) ==> InRefresh(p))
  {
    hide Usable;
    if move.EndRefresh? { UsableNamesKey(usable, move.result); }
  }

  lemma UsableNamesKey(usable: Key -> bool, result: Option<Verification>)
    ensures var r := Usable(usable, result);
      r.Some? ==> r.value.groundTruth.Some? && r.value.groundTruth.value.hpkePublicKey == Some(r.value.hpkePublicKey)
  {
  }

  lemma NotQuiet(usable: Key -> bool, s: State, p: Sender, move: Move)
    requires s.history != []
    ensures move.TakeLock? || move.TryReject? || move.Install? ==> QuietNext(usable, s, p, move).None?
  {
  }

  lemma SenderStepInv(usable: Key -> bool, s: State, id: nat, move: Move, s': State)
    requires Inv(s) && |s'.history| <= U64_LIMIT && id in s.senders
    requires SenderStep(usable, s, id, s.senders[id], move) == Some(s')
    ensures Inv(s')
  {
    hide QuietNext;
    InvGives(s, id);
    NotQuiet(usable, s, s.senders[id], move);
    match move
    case TryReject => RejectInv(usable, s, id, s');
    case Install => InstallInv(usable, s, id, s');
    case TakeLock =>
      hide Inv;
      LockTakenInv(s, id, s'.senders[id]);
    case _ =>
      hide Inv, SenderInv;
      var p := s.senders[id];
      var q := QuietNext(usable, s, p, move).value;
      QuietMove(usable, s, p, move, q);
      if Holds(p) && !Holds(q) { LeftInv(s, id, q); } else { MovedInv(s, id, q); }
  }

  lemma NoHolders(s: State)
    requires Inv(s) && s.lock.Free?
    ensures forall id :: id in s.senders ==> !Holds(s.senders[id])
  {
  }

  /** A verification takes the lock, and trust away. */
  lemma LockVerifyInv(s: State, c: Channel)
    requires Inv(s) && |s.history| < U64_LIMIT && s.lock.Free? && s.verify.AwaitingLock?
    requires c.Coherent() && !c.Active() && c.generation == Next(s.Current().generation)
    ensures Inv(s.Changed(c).(lock := ByVerify, verify := Attesting, pinned := false, closedAt := Some(|s.history|)))
  {
    NoHolders(s);
    ChangedInv(s, c);
  }

  /** A verification waits, ends or is dropped. */
  lemma LeaveVerifyInv(s: State, v: Verify)
    requires Inv(s) && !v.Attesting?
    ensures Inv(s.(lock := if s.verify.Attesting? then Free else s.lock, verify := v))
  {
  }

  lemma TrustedInv(s: State)
    requires Inv(s)
    ensures Inv(s.(closedAt := None))
    ensures !s.verify.Attesting? ==> Inv(s.(closedAt := None, pinned := true, refresher := true))
  {
  }

  /** A new channel after a verification or with a key that is set explicitly. */
  lemma ActivatedInv(s: State, c: Channel)
    requires Inv(s) && |s.history| < U64_LIMIT && c.Coherent() && c.generation == Next(s.Current().generation)
    ensures Inv(s.Changed(c).(closedAt := None))
  {
    hide Inv;
    TrustedInv(s);
    ChangedInv(s.(closedAt := None), c);
  }

  lemma EndVerifyInv(usable: Key -> bool, s: State, result: Option<Verification>, s': State)
    requires Inv(s) && |s'.history| <= U64_LIMIT && Step(usable, s, EndVerify(result)) == Some(s')
    ensures Inv(s')
  {
    PresentDated(s);
    hide Inv, Usable, SenderStep;
    var st := Usable(usable, result);
    if st.None? {
      LeaveVerifyInv(s, NotRunning);
    } else {
      UsableNamesKey(usable, result);
      var c := s.Current().SetActive(st.value);
      ActivatedInv(s, c);
      LeaveVerifyInv(s.Changed(c).(closedAt := None), NotRunning);
      TrustedInv(s.Changed(c).(closedAt := None, lock := Free, verify := NotRunning));
    }
  }

  lemma PresentDated(s: State)
    requires Inv(s)
    ensures s.history != [] && Dated(s.history, s.Now())
  {
  }

  lemma ReadGenerationInv(s: State, id: nat)
    requires Inv(s) && id !in s.senders
    ensures Inv(s.Move(id, Seen(s.Current().generation)))
  {
    PresentDated(s);
    MovedInv(s, id, Seen(s.Current().generation));
  }

  lemma StepInv(usable: Key -> bool, s: State, a: Action, s': State)
    requires Inv(s) && |s'.history| <= U64_LIMIT && Step(usable, s, a) == Some(s')
    ensures Inv(s')
  {
    PresentDated(s);
    hide Inv, SenderStep, Usable;
    match a
    case ReadGeneration(id) => ReadGenerationInv(s, id);
    case Do(id, move) => SenderStepInv(usable, s, id, move, s');
    case StartVerify => LeaveVerifyInv(s, AwaitingLock);
    case LockVerify => LockVerifyInv(s, s.Current().Clear());
    case EndVerify(result) => EndVerifyInv(usable, s, result, s');
    case DropVerify => LeaveVerifyInv(s, NotRunning);
    case Revoke => ChangedInv(s, s.Current().Clear());
    case Rekey(key) => ActivatedInv(s, s.Current().SetActive(RefreshedState(key, None)));
  }

  // ---------- runs ----------

  predicate Follows(usable: Key -> bool, states: seq<State>, actions: seq<Action>, i: nat)
    requires i < |actions| < |states|
  {
    states[i].history != [] && Step(usable, states[i], actions[i]) == Some(states[i + 1])
  }

  /** Each state comes from the one before it by the action between them; fewer than 2^64 changes in all. */
  predicate Run(usable: Key -> bool, states: seq<State>, actions: seq<Action>) {
    && |states| == |actions| + 1
    && Initial(states[0])
    && (forall i :: 0 <= i < |actions| ==> Follows(usable, states, actions, i))
    && |states[|actions|].history| <= U64_LIMIT
  }

  lemma SenderHistoryKept(usable: Key -> bool, s: State, id: nat, p: Sender, move: Move, s': State)
    requires s.history != [] && SenderStep(usable, s, id, p, move) == Some(s')
    ensures s.history <= s'.history
  {
    hide QuietNext, Channel.Reject;
  }

  lemma HistoryKept(usable: Key -> bool, s: State, a: Action, s': State)
    requires s.history != [] && Step(usable, s, a) == Some(s')
    ensures s.history <= s'.history
  {
    hide Usable, SenderStep;
    if a.Do? { SenderHistoryKept(usable, s, a.id, s.senders[a.id], a.move, s'); }
  }

  /** The past does not change. */
  lemma {:induction false} PastKept(usable: Key -> bool, states: seq<State>, actions: seq<Action>, i: nat, j: nat)
    requires Run(usable, states, actions) && i <= j < |states|
    ensures states[i].history <= states[j].history
    decreases j
  {
    hide Step, Initial;
    if i < j {
      PastKept(usable, states, actions, i, j - 1);
      assert Follows(usable, states, actions, j - 1);
      HistoryKept(usable, states[j - 1], actions[j - 1], states[j]);
    }
  }

  lemma RunParts(usable: Key -> bool, states: seq<State>, actions: seq<Action>, i: nat)
    requires Run(usable, states, actions) && i < |states|
    ensures |states| == |actions| + 1 && Initial(states[0]) && |states[i].history| <= U64_LIMIT
    ensures i < |actions| ==> Follows(usable, states, actions, i)
  {
    hide Step, Initial;
    PastKept(usable, states, actions, i, |actions|);
  }

  lemma InitialInv(s: State)
    requires Initial(s)
    ensures Inv(s)
  {
  }

  /** The invariant holds throughout every run. */
  lemma {:induction false} RunInv(usable: Key -> bool, states: seq<State>, actions: seq<Action>, i: nat)
    requires Run(usable, states, actions) && i < |states|
    ensures Inv(states[i])
  {
    hide Run, Step, Inv, Initial;
    RunParts(usable, states, actions, i);
    if i == 0 {
      InitialInv(states[0]);
    } else {
      RunInv(usable, states, actions, i - 1);
      RunParts(usable, states, actions, i - 1);
      StepInv(usable, states[i - 1], actions[i - 1], states[i]);
    }
  }

  /** In every reachable state the fields of the channel fit together. */
  lemma ChannelCoherent(usable: Key -> bool, states: seq<State>, actions: seq<Action>, i: nat)
    requires Run(usable, states, actions) && i < |states|
    ensures states[i].history != [] && states[i].Current().Coherent()
    ensures states[i].IsVerified() ==>
      states[i].Current().client == Some(Client(states[i].Current().groundTruth.value.hpkePublicKey.value))
  {
    hide Run;
    RunInv(usable, states, actions, i);
    assert Dated(states[i].history, states[i].Now());
  }

  /**
   Every attempt is sealed to a key that was active when its client was read:
   no earlier than the generation that the sender holds against it.
   */
  lemma AttemptsSealed(usable: Key -> bool, states: seq<State>, actions: seq<Action>, i: nat, id: nat)
    requires Run(usable, states, actions) && i < |states| && id in states[i].senders
    ensures var p, history := states[i].senders[id], states[i].history;
      && (p.Sending? || p.Waiting? || p.Holding? ==> SealedTo(history, p.generation, p.key, p.at))
      && (p.Resending? ==> SealedTo(history, 0, p.key, p.at))
  {
    hide Run;
    RunInv(usable, states, actions, i);
    InvGives(states[i], id);
  }

  /** Action number i is a successful rejection by sender `id`. */
  predicate RejectsAt(states: seq<State>, actions: seq<Action>, i: nat, id: nat) {
    && i < |actions| < |states|
    && actions[i] == Do(id, TryReject)
    && id in states[i].senders && states[i].senders[id].Holding?
    && id in states[i + 1].senders && states[i + 1].senders[id].Rejected?
  }

  lemma RejectingStep(usable: Key -> bool, s: State, id: nat, s': State)
    requires s.history != [] && Step(usable, s, Do(id, TryReject)) == Some(s')
    requires id in s'.senders && s'.senders[id].Rejected?
    ensures id in s.senders && s.senders[id].Holding? && s.Current().generation == s.senders[id].generation
    ensures s'.history == s.history + [s.Current().Reject()]
    ensures s'.senders[id].mine == s'.Current().generation && s'.senders[id].rejected == s.Current().publicKey
  {
  }

  /** Over all runs: what is rejected is what the sender's failed attempt was sealed to. */
  lemma RejectionExact(usable: Key -> bool, states: seq<State>, actions: seq<Action>, i: nat, id: nat)
    requires Run(usable, states, actions) && RejectsAt(states, actions, i, id)
    ensures states[i].history != [] && states[i].Current().Active()
    ensures states[i].Current().publicKey == Some(states[i].senders[id].key)
    ensures states[i].senders[id].generation == states[i].Now()
    ensures states[i + 1].senders[id].mine == states[i].Now() + 1 == |states[i + 1].history| - 1
  {
    hide Step;
    RunInv(usable, states, actions, i);
    RunInv(usable, states, actions, i + 1);
    assert Follows(usable, states, actions, i);
    RejectingStep(usable, states[i], id, states[i + 1]);
    RejectsWhatFailed(states[i], id);
    assert Dated(states[i + 1].history, states[i + 1].Now());
  }

  /** Of all senders that saw one generation, at most one gets to run the refresher. */
  lemma OneRefresher(usable: Key -> bool, states: seq<State>, actions: seq<Action>, i: nat, id: nat, j: nat, other: nat)
    requires Run(usable, states, actions) && i < j
    requires RejectsAt(states, actions, i, id) && RejectsAt(states, actions, j, other)
    ensures states[i].senders[id].generation < states[j].senders[other].generation
  {
    hide Run;
    RejectionExact(usable, states, actions, i, id);
    RejectionExact(usable, states, actions, j, other);
    PastKept(usable, states, actions, i + 1, j);
  }

  lemma QuietRefresh(usable: Key -> bool, s: State, p: Sender, move: Move, q: Sender)
    requires s.history != [] && QuietNext(usable, s, p, move) == Some(q)
    ensures InRefresh(q) ==> InRefresh(p) && q.mine == p.mine
  {
  }

  lemma QuietLeaves(s: State, id: nat, q: Sender)
    ensures s.Leave(id, q).senders == s.Move(id, q).senders == s.senders[id := q]
  {
  }

  lemma MoveEntersRefresh(usable: Key -> bool, s: State, id: nat, p: Sender, move: Move, s': State) returns (q: Sender)
    requires s.history != [] && SenderStep(usable, s, id, p, move) == Some(s')
    ensures s'.senders == s.senders[id := q]
    ensures InRefresh(q) ==> if InRefresh(p) then p.mine == q.mine else move.TryReject? && q.Rejected?
  {
    hide QuietNext, Channel.FinishRefresh, Channel.Reject, Holds;
    NotQuiet(usable, s, p, move);
    if move.TakeLock? {
      q := Holding(p.generation, p.key, p.at);
    } else if move.TryReject? {
      var c := s.Current();
      q := if c.generation != p.generation then Retrying else Rejected(c.Reject().generation, c.Reject().rejectedPublicKey);
    } else if move.Install? {
      q := if s.Current().FinishRefresh(p.mine, p.state).0.SameKey? then Finished else Retrying;
    } else {
      hide State.Leave, State.Move, InRefresh;
      q := QuietNext(usable, s, p, move).value;
      QuietLeaves(s, id, q);
      QuietRefresh(usable, s, p, move, q);
    }
  }

  lemma EntersRefresh(usable: Key -> bool, s: State, a: Action, s': State, id: nat)
    requires s.history != [] && Step(usable, s, a) == Some(s')
    requires id in s'.senders && InRefresh(s'.senders[id])
    ensures id in s.senders
    ensures InRefresh(s.senders[id]) ==> s.senders[id].mine == s'.senders[id].mine
    ensures !InRefresh(s.senders[id]) ==> a == Do(id, TryReject) && s'.senders[id].Rejected?
  {
    hide Usable, SenderStep;
    if a.Do? { var q := MoveEntersRefresh(usable, s, a.id, s.senders[a.id], a.move, s'); }
  }

  /** A sender in a refresh has come through its own rejection. */
  lemma {:induction false} RefreshBegan(usable: Key -> bool, states: seq<State>, actions: seq<Action>, j: nat, id: nat)
    returns (i: nat)
    requires Run(usable, states, actions) && j < |states|
    requires id in states[j].senders && InRefresh(states[j].senders[id])
    ensures i < j && RejectsAt(states, actions, i, id)
    ensures states[j].senders[id].mine == |states[i + 1].history| - 1
    decreases j
  {
    hide Step;
    if j == 0 {
      assert false;
    } else {
      assert Follows(usable, states, actions, j - 1);
      EntersRefresh(usable, states[j - 1], actions[j - 1], states[j], id);
      if InRefresh(states[j - 1].senders[id]) {
        i := RefreshBegan(usable, states, actions, j - 1, id);
      } else {
        i := j - 1;
        RejectingStep(usable, states[i], id, states[j]);
        RejectionExact(usable, states, actions, i, id);
      }
    }
  }

  /** Action number j is an installation by sender `id`. */
  predicate InstallsAt(states: seq<State>, actions: seq<Action>, j: nat, id: nat) {
    && j < |actions| < |states|
    && actions[j] == Do(id, Install)
    && states[j + 1].history != [] && states[j + 1].history != states[j].history && states[j + 1].Current().Active()
  }

  lemma InstallingStep(usable: Key -> bool, s: State, id: nat, s': State)
    requires s.history != [] && Step(usable, s, Do(id, Install)) == Some(s')
    requires s'.history != s.history && s'.Current().Active()
    ensures id in s.senders && s.senders[id].Refreshed?
    ensures var p := s.senders[id];
      && s.Current().FinishRefresh(p.mine, p.state).0.Installed?
      && s'.Current().publicKey == Some(p.state.hpkePublicKey)
  {
  }

  /**
   Over all runs: a refresh installs only if nothing has touched the channel
   since its own rejection, and never the key that it rejected.
   */
  lemma RefreshOrdered(usable: Key -> bool, states: seq<State>, actions: seq<Action>, j: nat, id: nat) returns (i: nat)
    requires Run(usable, states, actions) && InstallsAt(states, actions, j, id)
    ensures i < j && RejectsAt(states, actions, i, id)
    ensures forall k :: i < k <= j ==> states[k].history == states[i + 1].history
    ensures states[i].history != [] && states[j + 1].Current().publicKey != states[i].Current().publicKey
  {
    hide Step, Run;
    RunParts(usable, states, actions, j);
    InstallingStep(usable, states[j], id, states[j + 1]);
    i := RefreshBegan(usable, states, actions, j, id);
    RunInv(usable, states, actions, j);
    InstallsInOrder(states[j], id);
    forall k | i < k <= j ensures states[k].history == states[i + 1].history {
      PastKept(usable, states, actions, i + 1, k);
      PastKept(usable, states, actions, k, j);
    }
    RejectionExact(usable, states, actions, i, id);
    PastKept(usable, states, actions, i, j);
    assert SenderInv(states[j].history, states[j].senders[id]);
    assert states[j].history[states[i].Now()] == states[i].Current();
  }

  // ---------- failing closed ----------

  /** A step that may make the channel active: a successful verification or an explicit key. */
  predicate Restores(usable: Key -> bool, a: Action) {
    a.Rekey? || (a.EndVerify? && Usable(usable, a.result).Some?)
  }

  lemma StaysClosed(usable: Key -> bool, s: State, a: Action, s': State)
    requires s.history != [] && Step(usable, s, a) == Some(s')
    requires !Restores(usable, a) && (s.closedAt.Some? || a.LockVerify?)
    ensures s'.closedAt.Some?
  {
    hide VerifiedState;
  }

  lemma {:induction false} Closed(usable: Key -> bool, states: seq<State>, actions: seq<Action>, i: nat, k: nat)
    requires Run(usable, states, actions) && i < k < |states| && actions[i].LockVerify?
    requires forall m :: i < m < k ==> !Restores(usable, actions[m])
    ensures states[k].closedAt.Some?
    decreases k
  {
    hide Step, Restores;
    if k > i + 1 { Closed(usable, states, actions, i, k - 1); }
    RunParts(usable, states, actions, k - 1);
    assert !Restores(usable, actions[k - 1]) by { if k == i + 1 { NotRestoring(usable, actions[i]); } }
    StaysClosed(usable, states[k - 1], actions[k - 1], states[k]);
  }

  lemma NotRestoring(usable: Key -> bool, a: Action)
    requires a.LockVerify?
    ensures !Restores(usable, a)
  {
  }

  /**
   Over all runs: once a verification has taken the lock, whether it then
   fails, is dropped or is still running, the client is unverified and the
   channel inactive until a verification succeeds or a key is set explicitly.
   */
  lemma FailsClosed(usable: Key -> bool, states: seq<State>, actions: seq<Action>, i: nat, k: nat)
    requires Run(usable, states, actions) && i < k < |states| && actions[i].LockVerify?
    requires forall m :: i < m < k ==> !Restores(usable, actions[m])
    ensures states[k].history != [] && !states[k].Current().Active() && !states[k].IsVerified()
  {
    hide Run, Restores;
    Closed(usable, states, actions, i, k);
    RunInv(usable, states, actions, k);
  }

  /** While it is closed no sender gets hold of a client. */
  lemma NothingSent(usable: Key -> bool, states: seq<State>, actions: seq<Action>, i: nat, k: nat, id: nat)
    requires Run(usable, states, actions) && i < k < |actions| && actions[i].LockVerify?
    requires forall m :: i < m < k ==> !Restores(usable, actions[m])
    requires actions[k] == Do(id, ReadClient) || actions[k] == Do(id, Retry)
    ensures id in states[k + 1].senders && states[k + 1].senders[id].Finished?
  {
    FailsClosed(usable, states, actions, i, k);
    RunParts(usable, states, actions, k);
  }

  /**
   Dropping a verification takes trust away exactly when it already has the
   refresh lock; dropped while it waits for the lock, it changes nothing.
   */
  lemma DropVerifyExact(usable: Key -> bool, states: seq<State>, actions: seq<Action>, i: nat)
    requires Run(usable, states, actions) && i < |actions| && actions[i].DropVerify?
    ensures states[i].history != [] && states[i + 1].history == states[i].history
    ensures states[i].verify.Attesting? ==> !states[i + 1].IsVerified()
    ensures states[i].verify.AwaitingLock? ==> states[i + 1].IsVerified() == states[i].IsVerified()
    ensures !states[i + 1].IsVerified() <==> states[i].verify.Attesting? || !states[i].IsVerified()
  {
    RunInv(usable, states, actions, i);
    RunParts(usable, states, actions, i);
  }

  /** A verified client whose channel is bound to `key`. */
  function VerifiedClient(key: Key): State {
    var first := FRESH.SetActive(RefreshedState(key, None));
    var channel := first.SetActive(RefreshedState(key, Some(GroundTruth(Some(key), 0))));
    State([FRESH, first, channel], Free, true, map[], NotRunning, true, None)
  }

  /** `verify` dropped while it waits for a sender that holds the refresh lock: the client stays verified. */
  lemma DroppedWhileWaiting(usable: Key -> bool, key: Key)
    ensures var (states, actions) := WaitingRun(key);
      && Run(usable, states, actions) && actions[5].DropVerify?
      && states[5].verify.AwaitingLock? && states[5].lock.BySender?
      && states[6].IsVerified()
  {
    hide Follows, Initial;
    VerifiedClientInitial(key);
    forall i | 0 <= i < 6 ensures Follows(usable, WaitingRun(key).0, WaitingRun(key).1, i) {
      WaitingStep(usable, key, i);
    }
  }

  lemma VerifiedClientInitial(key: Key)
    ensures Initial(VerifiedClient(key))
  {
    forall i | 0 <= i < 3 ensures Dated(VerifiedClient(key).history, i) {}
  }

  lemma WaitingStep(usable: Key -> bool, key: Key, i: nat)
    requires i < 6
    ensures Follows(usable, WaitingRun(key).0, WaitingRun(key).1, i)
  {
    var states := WaitingRun(key).0;
    if 1 <= i <= 3 { SameMove(states[0].senders, 0, states[i].senders[0], states[i + 1].senders[0]); }
  }

  lemma SameMove(senders: map<nat, Sender>, id: nat, p: Sender, q: Sender)
    ensures senders[id := p][id := q] == senders[id := q]
  {
  }

  function WaitingRun(key: Key): (seq<State>, seq<Action>) {
    var s0 := VerifiedClient(key);
    var s1 := s0.Move(0, Seen(2));
    var s2 := s0.Move(0, Sending(2, key, 2));
    var s3 := s0.Move(0, Waiting(2, key, 2));
    var s4 := s0.Move(0, Holding(2, key, 2)).(lock := BySender(0));
    ([s0, s1, s2, s3, s4, s4.(verify := AwaitingLock), s4],
     [ReadGeneration(0), Do(0, ReadClient), Do(0, Answer(true)), Do(0, TakeLock), StartVerify, DropVerify])
  }
}
