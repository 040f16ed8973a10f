/**
 The good paths of the protocol: what a sender and a verification achieve when
 nobody gets in their way, where a sender goes that has been overtaken, and that
 nobody waits for ever.
 */
module EhbpProgress {
  import opened Bits
  import opened Common
  import opened Ehbp
  import opened EhbpProtocol

  /** One action more, when it can happen. */
  function Then(usable: Key -> bool, o: Option<State>, a: Action): Option<State> {
    match o
    case None => None
    case Some(s) => if s.history == [] then None else Step(usable, s, a)
  }

  /** The sender does these two things, one after the other. */
  function Twice(usable: Key -> bool, s: State, id: nat, first: Move, second: Move): Option<State> {
    Then(usable, Then(usable, Some(s), Do(id, first)), Do(id, second))
  }

  lemma TwiceIs(usable: Key -> bool, s: State, id: nat, first: Move, s1: State, second: Move, s2: State)
    requires s.history != [] && Step(usable, s, Do(id, first)) == Some(s1)
    requires s1.history != [] && Step(usable, s1, Do(id, second)) == Some(s2)
    ensures Twice(usable, s, id, first, second) == Some(s2)
  {
    hide Step;
  }

  // ---------- a refresh ----------

  /** Exactly the attestations of a key that the sealing library accepts and that is not all zeros can be used. */
  lemma UsableExact(usable: Key -> bool, result: Option<Verification>, st: RefreshedState)
    ensures Usable(usable, result) == Some(st) <==>
      && result.Some? && result.value.hpkePublicKey == Some(st.hpkePublicKey) && usable(st.hpkePublicKey)
      && (exists i :: 0 <= i < |st.hpkePublicKey| && st.hpkePublicKey[i] != '0')
      && st.groundTruth == Some(GroundTruth(Some(st.hpkePublicKey), result.value.rest))
  {
  }

  /** In a refresh whose channel nobody else has touched since its rejection. */
  predicate Undisturbed(s: State, id: nat, rejected: Option<Key>) {
    && 0 < |s.history| <= U64_LIMIT && id in s.senders
    && s.senders[id] == Refreshing(s.Now(), rejected)
  }

  lemma EndsWell(usable: Key -> bool, s: State, id: nat, rejected: Option<Key>, result: Option<Verification>)
    requires Undisturbed(s, id, rejected) && Usable(usable, result).Some?
    ensures Step(usable, s, Do(id, EndRefresh(result))) ==
      Some(s.Move(id, Refreshed(s.Now(), rejected, Usable(usable, result).value)))
  {
    hide Usable;
  }

  lemma InstallsWell(usable: Key -> bool, s: State, id: nat, rejected: Option<Key>, st: RefreshedState)
    requires 0 < |s.history| <= U64_LIMIT && id in s.senders && s.senders[id] == Refreshed(s.Now(), rejected, st)
    requires s.Current().generation == s.Now() && s.Current().rejectedPublicKey == rejected
    ensures Step(usable, s, Do(id, Install)) == Some(
      if Some(st.hpkePublicKey) != rejected then s.Changed(s.Current().SetActive(st)).Leave(id, Retrying)
      else s.Changed(s.Current().Clear()).Leave(id, Finished))
  {
    hide Usable;
  }

  lemma Overwritten(senders: map<nat, Sender>, id: nat, p: Sender, q: Sender)
    ensures senders[id := p][id := q] == senders[id := q]
  {
  }

  /** What the rest of a refresh does that nobody disturbs. */
  lemma RefreshEnds(usable: Key -> bool, s: State, id: nat, rejected: Option<Key>, result: Option<Verification>)
    requires Inv(s) && Undisturbed(s, id, rejected) && Usable(usable, result).Some?
    ensures var st, r := Usable(usable, result).value, Twice(usable, s, id, EndRefresh(result), Install);
      r == Some(
        if Some(st.hpkePublicKey) != rejected then s.Changed(s.Current().SetActive(st)).Leave(id, Retrying)
        else s.Changed(s.Current().Clear()).Leave(id, Finished))
  {
    PresentDated(s);
    InvGives(s, id);
    hide Inv, Usable, Step, QuietNext, Channel.SetActive, Channel.Clear;
    var st := Usable(usable, result).value;
    var s1 := s.Move(id, Refreshed(s.Now(), rejected, st));
    EndsWell(usable, s, id, rejected, result);
    InstallsWell(usable, s1, id, rejected, st);
    Overwritten(s.senders, id, Refreshed(s.Now(), rejected, st), Retrying);
    Overwritten(s.senders, id, Refreshed(s.Now(), rejected, st), Finished);
    TwiceIs(usable, s, id, EndRefresh(result), s1, Install, Step(usable, s1, Do(id, Install)).value);
  }

  /** A retry takes the present key, or fails when there is none. */
  lemma Retries(usable: Key -> bool, s: State, id: nat)
    requires s.history != [] && id in s.senders && s.senders[id].Retrying?
    ensures Step(usable, s, Do(id, Retry)) == Some(s.Move(id,
      if s.Current().client.None? then Finished else Resending(s.Current().client.value.key, s.Now())))
  {
    hide Usable;
  }

  /**
   A refresh that nobody disturbs, with a usable attestation of another key,
   installs that key and its ground truth, gives the lock back, and the request
   is retried with the new key.
   */
  lemma RefreshInstalls(usable: Key -> bool, s: State, id: nat, rejected: Option<Key>, result: Option<Verification>)
    requires Inv(s) && Undisturbed(s, id, rejected)
    requires Usable(usable, result).Some? && Some(Usable(usable, result).value.hpkePublicKey) != rejected
    ensures var st := Usable(usable, result).value;
      var r := Then(usable, Twice(usable, s, id, EndRefresh(result), Install), Do(id, Retry));
      && r.Some? && r.value.lock.Free? && r.value.history == s.history + [r.value.Current()]
      && r.value.Current().client == Some(Client(st.hpkePublicKey)) && r.value.Current().groundTruth == st.groundTruth
      && r.value.senders == s.senders[id := Resending(st.hpkePublicKey, |s.history|)]
  {
    hide Inv, Usable, Step, Undisturbed, Twice;
    RefreshEnds(usable, s, id, rejected, result);
    var st := Usable(usable, result).value;
    var s2 := s.Changed(s.Current().SetActive(st)).Leave(id, Retrying);
    Retries(usable, s2, id);
    Overwritten(s.senders, id, Retrying, Resending(st.hpkePublicKey, |s.history|));
  }

  /** The attestation names the rejected key again: the request fails, and the channel is cleared. */
  lemma RefreshSameKey(usable: Key -> bool, s: State, id: nat, rejected: Option<Key>, result: Option<Verification>)
    requires Inv(s) && Undisturbed(s, id, rejected)
    requires Usable(usable, result).Some? && Some(Usable(usable, result).value.hpkePublicKey) == rejected
    ensures var r := Twice(usable, s, id, EndRefresh(result), Install);
      && r.Some? && r.value.lock.Free? && r.value.history == s.history + [r.value.Current()]
      && !r.value.Current().Active() && r.value.Current().rejectedPublicKey.None?
      && r.value.senders == s.senders[id := Finished]
  {
    hide Inv, Usable, Step, Undisturbed, Twice;
    RefreshEnds(usable, s, id, rejected, result);
  }

  /** The refresher fails, or its attestation is of no use: the lock is free, and the channel stays rejected. */
  lemma RefreshFails(usable: Key -> bool, s: State, id: nat, rejected: Option<Key>, result: Option<Verification>)
    requires Inv(s) && Undisturbed(s, id, rejected) && Usable(usable, result).None?
    ensures Step(usable, s, Do(id, EndRefresh(result))) == Some(s.Leave(id, Finished))
    ensures !s.Current().Active() && s.Current().rejectedPublicKey == rejected
  {
    hide Usable;
    PresentDated(s);
    InvGives(s, id);
  }

  // ---------- up to the refresh ----------

  /** A new sender reads the present generation and the present key. */
  lemma RequestStarts(usable: Key -> bool, s: State, id: nat)
    requires Inv(s) && id !in s.senders
    ensures Then(usable, Then(usable, Some(s), ReadGeneration(id)), Do(id, ReadClient)) == Some(s.Move(id,
      if s.Current().client.None? then Finished else Sending(s.Now(), s.Current().client.value.key, s.Now())))
  {
    hide Usable;
    PresentDated(s);
    Overwritten(s.senders, id, Seen(s.Now()), Finished);
    if s.Current().client.Some? {
      Overwritten(s.senders, id, Seen(s.Now()), Sending(s.Now(), s.Current().client.value.key, s.Now()));
    }
  }

  /** A sender whose answer is a key mismatch waits for the lock and takes it when it is free. */
  lemma MismatchLocks(usable: Key -> bool, s: State, id: nat, g: Generation, key: Key, at: nat)
    requires s.history != [] && id in s.senders && s.senders[id] == Sending(g, key, at)
    ensures Step(usable, s, Do(id, Answer(false))) == Some(s.Move(id, Finished))
    ensures Step(usable, s, Do(id, Answer(true))) == Some(s.Move(id, Waiting(g, key, at)))
    ensures s.lock.Free? ==>
      Twice(usable, s, id, Answer(true), TakeLock) == Some(s.Move(id, Holding(g, key, at)).(lock := BySender(id)))
  {
    hide Usable;
    Overwritten(s.senders, id, Waiting(g, key, at), Holding(g, key, at));
  }

  /** The channel is still the one that was read: it is rejected, and the refresher runs, if there is one. */
  lemma RejectionRuns(usable: Key -> bool, s: State, id: nat)
    requires Inv(s) && |s.history| < U64_LIMIT && id in s.senders && s.senders[id].Holding?
    requires s.senders[id].generation == s.Current().generation
    ensures var r, key := Twice(usable, s, id, TryReject, StartRefresh), s.senders[id].key;
      && r.Some? && r.value.history == s.history + [s.Current().Reject()]
      && if s.refresher then Undisturbed(r.value, id, Some(key)) && r.value.lock == BySender(id)
         else r.value.senders == s.senders[id := Finished] && r.value.lock.Free?
  {
    RejectsWhatFailed(s, id);
    PresentDated(s);
    InvGives(s, id);
    hide Inv, Usable, Step;
    var key := s.senders[id].key;
    var p := Rejected(|s.history|, Some(key));
    var s1 := s.Changed(s.Current().Reject()).Move(id, p);
    TriesToReject(usable, s, id);
    StartsRefresh(usable, s1, id);
    Overwritten(s.senders, id, p, Finished);
    TwiceIs(usable, s, id, TryReject, s1, StartRefresh, Step(usable, s1, Do(id, StartRefresh)).value);
  }

  lemma TriesToReject(usable: Key -> bool, s: State, id: nat)
    requires s.history != [] && id in s.senders && s.senders[id].Holding?
    ensures Step(usable, s, Do(id, TryReject)) == Some(
      if s.Current().generation != s.senders[id].generation then s.Leave(id, Retrying)
      else s.Changed(s.Current().Reject()).Move(id, Rejected(Next(s.Current().generation), s.Current().publicKey)))
  {
    hide Usable;
  }

  lemma StartsRefresh(usable: Key -> bool, s: State, id: nat)
    requires s.history != [] && id in s.senders && s.senders[id].Rejected?
    ensures Step(usable, s, Do(id, StartRefresh)) == Some(
      if s.refresher then s.Move(id, Refreshing(s.senders[id].mine, s.senders[id].rejected)) else s.Leave(id, Finished))
  {
    hide Usable;
  }

  /**
   Someone else has changed the channel before the sender got the lock, or while
   it was refreshing: it leaves the channel alone, gives the lock back, and
   retries with the present key, if there is one.
   */
  lemma OvertakenRetries(usable: Key -> bool, s: State, id: nat, move: Move)
    requires Inv(s) && id in s.senders
    requires var p := s.senders[id];
      (move.TryReject? && p.Holding? && p.generation != s.Now()) || (move.Install? && p.Refreshed? && p.mine != s.Now())
    ensures var r, client := Twice(usable, s, id, move, Retry), s.Current().client;
      r == Some(s.Leave(id, if client.None? then Finished else Resending(client.value.key, s.Now())))
  {
    PresentDated(s);
    hide Inv, Usable;
    var s1 := s.Leave(id, Retrying);
    assert Step(usable, s, Do(id, move)) == Some(s1);
    hide Step;
    Retries(usable, s1, id);
    Overwritten(s.senders, id, Retrying, Finished);
    if s.Current().client.Some? { Overwritten(s.senders, id, Retrying, Resending(s.Current().client.value.key, s.Now())); }
    TwiceIs(usable, s, id, move, s1, Retry, Step(usable, s1, Do(id, Retry)).value);
  }

  // ---------- a verification ----------

  /** A verification that gets a usable attestation leaves the client verified and the channel bound to its key. */
  lemma VerifyRestores(usable: Key -> bool, s: State, result: Option<Verification>)
    requires Inv(s) && s.verify.Attesting? && Usable(usable, result).Some?
    ensures var r, st := Step(usable, s, EndVerify(result)), Usable(usable, result).value;
      && r.Some? && r.value.history == s.history + [r.value.Current()] && r.value.senders == s.senders
      && r.value.IsVerified() && r.value.Current().client == Some(Client(st.hpkePublicKey))
      && r.value.Current().VerifiedGroundTruth() == st.groundTruth
      && r.value.refresher && r.value.lock.Free? && r.value.verify.NotRunning?
  {
    UsableNamesKey(usable, result);
    hide Usable;
  }

  /** A verification can start when none is running, gets the lock when it is free, and then takes trust away. */
  lemma VerifyBegins(usable: Key -> bool, s: State)
    requires Inv(s) && s.verify.NotRunning?
    ensures var r := Step(usable, s, StartVerify);
      && r.Some? && r.value == s.(verify := AwaitingLock)
      && (s.lock.Free? ==>
           var t := Step(usable, r.value, LockVerify);
           && t.Some? && t.value.lock.ByVerify? && t.value.verify.Attesting? && t.value.senders == s.senders
           && t.value.history == s.history + [t.value.Current()] && !t.value.Current().Active() && !t.value.IsVerified())
  {
    hide Usable;
    LockOwner(s);
  }

  /** A verification that fails frees the lock and restores nothing. */
  lemma VerifyFails(usable: Key -> bool, s: State, result: Option<Verification>)
    requires Inv(s) && s.verify.Attesting? && Usable(usable, result).None?
    ensures s.history != [] && Step(usable, s, EndVerify(result)) == Some(s.(lock := Free, verify := NotRunning))
    ensures !s.IsVerified()
  {
    LockOwner(s);
  }

  // ---------- cancellation ----------

  /** A sender can be dropped wherever it waits; it gives the lock back if it has it, and leaves the channel alone. */
  lemma SenderDropped(usable: Key -> bool, s: State, id: nat)
    requires Inv(s) && id in s.senders && !s.senders[id].Finished?
    ensures s.history != []
    ensures var r := Step(usable, s, Do(id, Drop));
      && r.Some? && r.value.history == s.history && r.value.senders == s.senders[id := Finished]
      && r.value.lock == (if Holds(s.senders[id]) then Free else s.lock) && r.value.lock != BySender(id)
  {
    hide Usable;
    InvGives(s, id);
  }

  /** So can a verification, which gives the lock back if it has it. */
  lemma VerifyDropped(usable: Key -> bool, s: State)
    requires Inv(s) && !s.verify.NotRunning?
    ensures s.history != []
    ensures Step(usable, s, DropVerify) ==
      Some(s.(verify := NotRunning, lock := if s.verify.Attesting? then Free else s.lock))
  {
    hide Usable;
    LockOwner(s);
  }

  /** A key that is set explicitly makes the channel active, but not the client verified. */
  lemma RekeyActivates(usable: Key -> bool, s: State, key: Key)
    requires s.history != []
    ensures var r := Step(usable, s, Rekey(key));
      && (r.Some? <==> usable(key))
      && (r.Some? ==>
           && r.value.history == s.history + [r.value.Current()]
           && r.value.Current().client == Some(Client(key)) && !r.value.IsVerified())
  {
  }

  /** A revocation ends the trust of all, and nothing else. */
  lemma RevokeCloses(usable: Key -> bool, s: State)
    requires s.history != []
    ensures var r := Step(usable, s, Revoke);
      && r.Some? && r.value == s.Changed(r.value.Current())
      && !r.value.Current().Active() && r.value.Current().rejectedPublicKey.None? && !r.value.IsVerified()
  {
  }

  // ---------- progress ----------

  /** How many steps a sender has still to go, at most. */
  function Ahead(p: Sender): nat {
    match p
    case Seen(_) => 9
    case Sending(_, _, _) => 8
    case Waiting(_, _, _) => 7
    case Holding(_, _, _) => 6
    case Rejected(_, _) => 5
    case Refreshing(_, _) => 4
    case Refreshed(_, _, _) => 3
    case Retrying => 2
    case Resending(_, _) => 1
    case Finished => 0
  }

  /** Every step of a sender brings it nearer to its end, and no step takes another sender back. */
  lemma StepsAhead(usable: Key -> bool, s: State, id: nat, move: Move, s': State)
    requires s.history != [] && Step(usable, s, Do(id, move)) == Some(s')
    ensures id in s.senders && id in s'.senders && Ahead(s'.senders[id]) < Ahead(s.senders[id])
    ensures forall other :: other in s.senders && other != id ==>
      other in s'.senders && s'.senders[other] == s.senders[other]
  {
    hide QuietNext, Channel.FinishRefresh, Channel.Reject, Holds;
    var p := s.senders[id];
    NotQuiet(usable, s, p, move);
    if !move.TakeLock? && !move.TryReject? && !move.Install? {
      hide State.Leave, State.Move, Ahead;
      var q := QuietNext(usable, s, p, move).value;
      QuietLeaves(s, id, q);
      QuietAhead(usable, s, p, move, q);
    }
  }

  lemma QuietAhead(usable: Key -> bool, s: State, p: Sender, move: Move, q: Sender)
    requires s.history != [] && QuietNext(usable, s, p, move) == Some(q)
    ensures Ahead(q) < Ahead(p)
  {
    hide Usable;
  }

  /** A step that is no cancellation. */
  predicate Willing(a: Action) {
    !a.DropVerify? && (a.Do? ==> !a.move.Drop?)
  }

  function NextMove(p: Sender): Move {
    match p
    case Seen(_) => ReadClient
    case Sending(_, _, _) => Answer(true)
    case Waiting(_, _, _) => TakeLock
    case Holding(_, _, _) => TryReject
    case Rejected(_, _) => StartRefresh
    case Refreshing(_, _) => EndRefresh(None)
    case Refreshed(_, _, _) => Install
    case Retrying => Retry
    case Resending(_, _) => Complete
    case Finished => Drop
  }

  lemma CanMove(usable: Key -> bool, s: State, id: nat)
    requires s.history != [] && id in s.senders && !s.senders[id].Finished?
    requires s.senders[id].Waiting? ==> s.lock.Free?
    ensures Step(usable, s, Do(id, NextMove(s.senders[id]))).Some?
  {
    hide Usable, Channel.FinishRefresh, Channel.Reject;
  }

  /**
   Nobody is stuck: as long as a sender has not finished, it can go on, or else
   waits for a lock whose owner can go on.
   */
  lemma SenderNotStuck(usable: Key -> bool, s: State, id: nat) returns (a: Action)
    requires Inv(s) && id in s.senders && !s.senders[id].Finished?
    ensures s.history != [] && Willing(a) && Step(usable, s, a).Some?
    ensures s.senders[id].Waiting? && !s.lock.Free? ==>
      if s.lock.ByVerify? then a.EndVerify? else a.Do? && a.id == s.lock.id
    ensures !s.senders[id].Waiting? || s.lock.Free? ==> a.Do? && a.id == id
  {
    LockOwner(s);
    if !s.senders[id].Waiting? || s.lock.Free? {
      hide Inv, Step;
      CanMove(usable, s, id);
      a := Do(id, NextMove(s.senders[id]));
    } else if s.lock.ByVerify? {
      a := EndVerify(None);
    } else {
      hide Inv, Step;
      CanMove(usable, s, s.lock.id);
      a := Do(s.lock.id, NextMove(s.senders[s.lock.id]));
    }
  }

  lemma LockOwner(s: State)
    requires Inv(s)
    ensures s.history != []
    ensures s.lock.ByVerify? <==> s.verify.Attesting?
    ensures s.lock.BySender? ==> s.lock.id in s.senders && Holds(s.senders[s.lock.id])
  {
  }

  /** A verification can go on, or waits for a sender that can. */
  lemma VerifyNotStuck(usable: Key -> bool, s: State) returns (a: Action)
    requires Inv(s) && !s.verify.NotRunning?
    ensures s.history != [] && Willing(a) && Step(usable, s, a).Some?
    ensures s.lock.BySender? ==> a.Do? && a.id == s.lock.id
    ensures !s.lock.BySender? ==> a.LockVerify? || a.EndVerify?
  {
    LockOwner(s);
    if s.lock.BySender? {
      hide Inv, Step;
      CanMove(usable, s, s.lock.id);
      a := Do(s.lock.id, NextMove(s.senders[s.lock.id]));
    } else if s.verify.Attesting? {
      a := EndVerify(None);
    } else {
      a := LockVerify;
    }
  }
}
