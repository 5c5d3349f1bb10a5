/** What one call of `changeStatus` promises about its outcome and about the
    order of the collaborator calls it issues, for every request, every
    acting user and every way the collaborators can settle. */
module Properties {
  import opened Domain
  import opened Normalize
  import opened Validation
  import opened Protocol
  import opened StatusChanger

  /* ---------- walking the pieces of a trace ---------- */

  lemma WalkSnoc(s: Stage, t: seq<Event>, e: Event)
    ensures Walk(s, t + [e]) == (if Walk(s, t).None? then None else Next(Walk(s, t).value, e))
  {
    assert (t + [e])[..|t + [e]| - 1] == t;
  }

  /** Updates inside the transaction keep it open. */
  lemma {:induction false} WalkUpdates(tx: TxHandle, t: seq<Event>)
    requires forall i :: 0 <= i < |t| ==> t[i].Update? && t[i].tx == tx
    ensures Walk(InTransaction(tx), t) == Some(InTransaction(tx))
    decreases |t|
  {
    if |t| > 0 {
      var n := |t| - 1;
      WalkUpdates(tx, t[..n]);
      assert t[n].Update? && t[n].tx == tx;
      WalkSnoc(InTransaction(tx), t[..n], t[n]);
      assert t[..n] + [t[n]] == t;
    }
  }

  /** Authentication calls after the commit are all allowed. */
  lemma {:induction false} WalkSyncs(tx: TxHandle, t: seq<Event>)
    requires forall i :: 0 <= i < |t| ==> t[i].Enable? || t[i].Disable?
    ensures Walk(Committed(tx), t) == (if |t| == 0 then Some(Committed(tx)) else Some(Syncing))
    decreases |t|
  {
    if |t| > 0 {
      var n := |t| - 1;
      WalkSyncs(tx, t[..n]);
      var before := Walk(Committed(tx), t[..n]).value;
      assert before.Committed? || before.Syncing?;
      assert t[n].Enable? || t[n].Disable?;
      assert Next(before, t[n]) == Some(Syncing);
      WalkSnoc(Committed(tx), t[..n], t[n]);
      assert t[..n] + [t[n]] == t;
    }
  }

  lemma UpdatePrefixShape(tx: TxHandle, actor: ActingUser, users: seq<UserRecord>, target: bool, t: seq<Event>)
    requires t <= UpdateCalls(tx, actor, users, target)
    ensures forall i :: 0 <= i < |t| ==> t[i].Update? && t[i].tx == tx
  {
    forall i | 0 <= i < |t|
      ensures t[i].Update? && t[i].tx == tx
    {
      assert t[i] == UpdateCalls(tx, actor, users, target)[i];
    }
  }

  lemma SyncPrefixShape(users: seq<UserRecord>, t: seq<Event>)
    requires t <= SyncCalls(users)
    ensures forall i :: 0 <= i < |t| ==> t[i].Enable? || t[i].Disable?
  {
    forall i | 0 <= i < |t|
      ensures t[i].Enable? || t[i].Disable?
    {
      assert t[i] in SyncCalls(users);
    }
  }

  /* ---------- the protocol ---------- */

  /** Every trace `changeStatus` can produce is accepted by the protocol
      state machine, so all of its consequences (rollback is last and
      issued at most once, each milestone at most once, updates between
      load and commit, authentication calls only after a commit and never
      with a rollback) hold of it. */
  lemma ChangeStatusFollowsProtocol(env: Collaborators, currentUser: Option<ActingUser>,
                                    language: string, data: StatusRequest)
    ensures Accepted(ChangeStatus(env, currentUser, language, data).trace)
  {
    var run := ChangeStatus(env, currentUser, language, data);
    if Validate(currentUser, language, data).Returned? {
      var actor := currentUser.value;
      var target := TargetDisabled(data.disabled);
      var ids := NormalizedIds(data.ids);
      var a := TransactionPhase(env, actor, ids, target);
      TransactionPhaseWalk(env, actor, ids, target);
      if a.outcome.Failed? {
        assert run.trace == a.trace + [Rollback(a.tx)];
        WalkSnoc(Idle, a.trace, Rollback(a.tx));
      } else {
        var sync := ChangeAtAuthentication(env, a.users, 0);
        assert run.trace == a.trace + sync.trace;
        assert a.users[0..] == a.users;
        SyncPrefixShape(a.users, sync.trace);
        WalkSyncs(a.tx.value, sync.trace);
        WalkConcat(Idle, a.trace, sync.trace);
      }
    }
  }

  /** What a walk through the `try` block's trace must reach: `Committed`
      when it succeeds, a stage its rollback may leave when it fails. */
  predicate WalkFits(a: Attempt)
  {
    && Walk(Idle, a.trace).Some?
    && (a.outcome.Succeeded? ==> a.tx.Some? && Walk(Idle, a.trace) == Some(Committed(a.tx.value)))
    && (a.outcome.Failed? ==> Next(Walk(Idle, a.trace).value, Rollback(a.tx)) == Some(RolledBack))
  }

  /** The `try` block on its own follows the protocol: it ends committed
      when it succeeds, and in a stage from which its rollback is allowed
      when it fails. */
  lemma TransactionPhaseWalk(env: Collaborators, actor: ActingUser, ids: seq<Id>, target: bool)
    ensures WalkFits(TransactionPhase(env, actor, ids, target))
  {
    var a := TransactionPhase(env, actor, ids, target);
    WalkSnoc(Idle, [], CreateTx);
    assert Walk(Idle, [CreateTx]) == Some(Opened);
    match env.createTransaction
    case Threw(e) =>
      assert a.trace == [CreateTx] && a.tx == None;
      assert Next(Opened, Rollback(None)) == Some(RolledBack);
    case Returned(tx) =>
      OpenedPhaseWalk(env, actor, ids, target, tx);
  }

  /** The `try` block once the transaction is open. */
  lemma OpenedPhaseWalk(env: Collaborators, actor: ActingUser, ids: seq<Id>, target: bool, tx: TxHandle)
    requires Walk(Idle, [CreateTx]) == Some(Opened)
    requires env.createTransaction == Returned(tx)
    ensures WalkFits(TransactionPhase(env, actor, ids, target))
  {
    var a := TransactionPhase(env, actor, ids, target);
    var started := [CreateTx, Load(tx, ids, !target)];
    WalkSnoc(Idle, [CreateTx], Load(tx, ids, !target));
    assert [CreateTx] + [Load(tx, ids, !target)] == started;
    assert Walk(Idle, started) == Some(InTransaction(tx));
    match env.findAllByDisabled(ids, !target)
    case Threw(e) =>
      assert a.trace == started && a.tx == Some(tx);
      assert Next(InTransaction(tx), Rollback(Some(tx))) == Some(RolledBack);
    case Returned(users) =>
      LoadedPhaseWalk(env, actor, ids, target, tx, users);
  }

  /** The `try` block once the users are loaded. */
  lemma LoadedPhaseWalk(env: Collaborators, actor: ActingUser, ids: seq<Id>, target: bool,
                        tx: TxHandle, users: seq<UserRecord>)
    requires Walk(Idle, [CreateTx, Load(tx, ids, !target)]) == Some(InTransaction(tx))
    requires env.createTransaction == Returned(tx)
    requires env.findAllByDisabled(ids, !target) == Returned(users)
    ensures WalkFits(TransactionPhase(env, actor, ids, target))
  {
    var a := TransactionPhase(env, actor, ids, target);
    var started := [CreateTx, Load(tx, ids, !target)];
    var updates := ChangeAtDatabase(env, tx, actor, users, target, 0);
    UpdatesWalk(env, tx, actor, users, target, started);
    var inTx := started + updates.trace;
    assert Walk(Idle, inTx) == Some(InTransaction(tx));
    CommitWalk(inTx, tx);
    if updates.outcome.Failed? {
      assert a.trace == inTx && a.tx == Some(tx);
    } else {
      assert a.trace == inTx + [Commit(tx)] && a.tx == Some(tx);
    }
  }

  /** From inside the transaction, a rollback is allowed and a commit leads
      to `Committed`, from which a rollback is allowed too. */
  lemma CommitWalk(inTx: seq<Event>, tx: TxHandle)
    requires Walk(Idle, inTx) == Some(InTransaction(tx))
    ensures Next(InTransaction(tx), Rollback(Some(tx))) == Some(RolledBack)
    ensures Walk(Idle, inTx + [Commit(tx)]) == Some(Committed(tx))
    ensures Next(Committed(tx), Rollback(Some(tx))) == Some(RolledBack)
  {
    WalkSnoc(Idle, inTx, Commit(tx));
  }

  /** The updates issued after the load keep the transaction open. */
  lemma UpdatesWalk(env: Collaborators, tx: TxHandle, actor: ActingUser, users: seq<UserRecord>, target: bool,
                    started: seq<Event>)
    requires Walk(Idle, started) == Some(InTransaction(tx))
    ensures Walk(Idle, started + ChangeAtDatabase(env, tx, actor, users, target, 0).trace) == Some(InTransaction(tx))
  {
    var updates := ChangeAtDatabase(env, tx, actor, users, target, 0);
    assert UpdateCalls(tx, actor, users, target)[0..] == UpdateCalls(tx, actor, users, target);
    UpdatePrefixShape(tx, actor, users, target, updates.trace);
    WalkUpdates(tx, updates.trace);
    WalkConcat(Idle, started, updates.trace);
  }

  /* ---------- the load ---------- */

  /** Once the transaction is open, the users are loaded exactly once, right
      after it, with the normalised ids and the negation of the target
      state as the wanted current state. */
  lemma LoadUsesNormalisedRequest(env: Collaborators, currentUser: Option<ActingUser>,
                                  language: string, data: StatusRequest)
    requires Validate(currentUser, language, data).Returned?
    requires env.createTransaction.Returned?
    ensures var t := ChangeStatus(env, currentUser, language, data).trace;
      && |t| > 1 && t[0] == CreateTx
      && t[1] == Load(env.createTransaction.value, NormalizedIds(data.ids), !TargetDisabled(data.disabled))
      && forall i :: 0 <= i < |t| && t[i].Load? ==> i == 1
  {
    var t := ChangeStatus(env, currentUser, language, data).trace;
    ChangeStatusFollowsProtocol(env, currentUser, language, data);
    forall i | 0 <= i < |t| && t[i].Load?
      ensures i == 1
    {
      MilestoneAtMostOnce(t, i, 1);
    }
  }

  /** Every update is issued after the load and before the commit, whatever
      the collaborators do. */
  lemma UpdatesBetweenLoadAndCommit(env: Collaborators, currentUser: Option<ActingUser>,
                                    language: string, data: StatusRequest, i: nat)
    requires var t := ChangeStatus(env, currentUser, language, data).trace;
      i < |t| && t[i].Update?
    ensures var t := ChangeStatus(env, currentUser, language, data).trace;
      && (exists j :: 0 <= j < i && t[j].Load?)
      && (forall j :: 0 <= j < |t| && t[j].Commit? ==> i < j)
  {
    var t := ChangeStatus(env, currentUser, language, data).trace;
    ChangeStatusFollowsProtocol(env, currentUser, language, data);
    UpdateInsideTransaction(t, i);
  }

  /* ---------- success ---------- */

  /** A successful call issued exactly: create, load, one update to the
      target state per loaded user in load order, commit, then one
      authentication call per loaded user that has a uid. */
  lemma SuccessfulRunShape(env: Collaborators, currentUser: Option<ActingUser>,
                           language: string, data: StatusRequest)
    requires ChangeStatus(env, currentUser, language, data).outcome.Succeeded?
    ensures Validate(currentUser, language, data).Returned?
    ensures env.createTransaction.Returned?
    ensures env.findAllByDisabled(NormalizedIds(data.ids), !TargetDisabled(data.disabled)).Returned?
    ensures env.commitTransaction.Returned?
    ensures var tx := env.createTransaction.value;
      var target := TargetDisabled(data.disabled);
      var users := env.findAllByDisabled(NormalizedIds(data.ids), !target).value;
      ChangeStatus(env, currentUser, language, data).trace
        == [CreateTx, Load(tx, NormalizedIds(data.ids), !target)]
           + UpdateCalls(tx, currentUser.value, users, target) + [Commit(tx)] + SyncCalls(users)
  {
    var target := TargetDisabled(data.disabled);
    var a := TransactionPhase(env, currentUser.value, NormalizedIds(data.ids), target);
    var sync := ChangeAtAuthentication(env, a.users, 0);
    assert a.users[0..] == a.users;
  }

  /** The call succeeds whenever validation passes and every collaborator
      call it makes returns. */
  lemma SucceedsWhenEveryCallReturns(env: Collaborators, currentUser: Option<ActingUser>,
                                     language: string, data: StatusRequest)
    requires Validate(currentUser, language, data).Returned?
    requires env.createTransaction.Returned?
    requires env.findAllByDisabled(NormalizedIds(data.ids), !TargetDisabled(data.disabled)).Returned?
    requires var users := env.findAllByDisabled(NormalizedIds(data.ids), !TargetDisabled(data.disabled)).value;
      && (forall i :: 0 <= i < |users| ==> env.updateStatus(i, users[i].id, TargetDisabled(data.disabled)).Returned?)
      && (forall i :: 0 <= i < |users| ==> SyncReturns(env, i, users[i]))
    requires env.commitTransaction.Returned?
    ensures ChangeStatus(env, currentUser, language, data).outcome == Succeeded
  {
    var target := TargetDisabled(data.disabled);
    var users := env.findAllByDisabled(NormalizedIds(data.ids), !target).value;
    var updates := ChangeAtDatabase(env, env.createTransaction.value, currentUser.value, users, target, 0);
    assert UpdateCalls(env.createTransaction.value, currentUser.value, users, target)[0..]
      == UpdateCalls(env.createTransaction.value, currentUser.value, users, target);
  }

  /* ---------- failure inside the transaction ---------- */

  /** When the `try` block fails, the trace ends with the one and only
      rollback, of the transaction that block opened (`None` if creating it
      failed); no authentication call is made; a commit appears only if the
      commit itself threw, right before the rollback; and the error is the
      one thrown inside the block unless the rollback throws its own. */
  lemma TransactionFailureRollsBackOnce(env: Collaborators, currentUser: Option<ActingUser>,
                                        language: string, data: StatusRequest)
    requires Validate(currentUser, language, data).Returned?
    requires TransactionPhase(env, currentUser.value, NormalizedIds(data.ids), TargetDisabled(data.disabled)).outcome.Failed?
    ensures var a := TransactionPhase(env, currentUser.value, NormalizedIds(data.ids), TargetDisabled(data.disabled));
      var run := ChangeStatus(env, currentUser, language, data);
      var t := run.trace;
      && |t| > 1 && t[|t| - 1] == Rollback(a.tx)
      && (a.tx.None? <==> env.createTransaction.Threw?)
      && (forall i :: 0 <= i < |t| - 1 ==> !t[i].Rollback?)
      && (forall i :: 0 <= i < |t| ==> !t[i].Enable? && !t[i].Disable?)
      && (forall i :: 0 <= i < |t| && t[i].Commit? ==> i == |t| - 2 && env.commitTransaction.Threw?)
      && (env.rollbackTransaction.Returned? ==> run.outcome == a.outcome)
      && (env.rollbackTransaction.Threw? ==> run.outcome == Failed(env.rollbackTransaction.error))
  {
    var actor := currentUser.value;
    var target := TargetDisabled(data.disabled);
    var ids := NormalizedIds(data.ids);
    var a := TransactionPhase(env, actor, ids, target);
    var t := ChangeStatus(env, currentUser, language, data).trace;
    ChangeStatusFollowsProtocol(env, currentUser, language, data);
    assert t == a.trace + [Rollback(a.tx)];
    forall i | 0 <= i < |t| - 1
      ensures !t[i].Rollback?
    {
      if t[i].Rollback? {
        RollbackIsLast(t, i);
      }
    }
    forall i | 0 <= i < |t|
      ensures !t[i].Enable? && !t[i].Disable?
    {
      if t[i].Enable? || t[i].Disable? {
        SyncAfterCommit(t, i);
      }
    }
    forall i | 0 <= i < |t| && t[i].Commit?
      ensures i == |t| - 2 && env.commitTransaction.Threw?
    {
      CommitPosition(env, actor, ids, target, a, i);
    }
  }

  /** Inside the `try` block a commit is issued only as its last call, and
      it is part of a failed attempt only if the commit itself threw. */
  lemma CommitPosition(env: Collaborators, actor: ActingUser, ids: seq<Id>, target: bool, a: Attempt, i: nat)
    requires a == TransactionPhase(env, actor, ids, target)
    requires i < |a.trace| && a.trace[i].Commit?
    ensures i == |a.trace| - 1
    ensures a.outcome.Failed? ==> env.commitTransaction.Threw?
  {
    var tx := env.createTransaction.value;
    var users := env.findAllByDisabled(ids, !target).value;
    var updates := ChangeAtDatabase(env, tx, actor, users, target, 0);
    assert UpdateCalls(tx, actor, users, target)[0..] == UpdateCalls(tx, actor, users, target);
    UpdatePrefixShape(tx, actor, users, target, updates.trace);
    assert 2 <= i;
  }

  /** The update of the loaded user at position `j` throws after the earlier
      ones returned: the updates up to and including it were issued, then
      the transaction is rolled back; no commit, no authentication call. */
  lemma UpdateFailure(env: Collaborators, currentUser: Option<ActingUser>,
                      language: string, data: StatusRequest, j: nat)
    requires Validate(currentUser, language, data).Returned?
    requires env.createTransaction.Returned?
    requires var target := TargetDisabled(data.disabled);
      var load := env.findAllByDisabled(NormalizedIds(data.ids), !target);
      && load.Returned? && j < |load.value|
      && (forall i :: 0 <= i < j ==> env.updateStatus(i, load.value[i].id, target).Returned?)
      && env.updateStatus(j, load.value[j].id, target).Threw?
    ensures var tx := env.createTransaction.value;
      var target := TargetDisabled(data.disabled);
      var users := env.findAllByDisabled(NormalizedIds(data.ids), !target).value;
      ChangeStatus(env, currentUser, language, data)
        == Run(Failed(ErrorAfterRollback(env.rollbackTransaction, env.updateStatus(j, users[j].id, target).error)),
               [CreateTx, Load(tx, NormalizedIds(data.ids), !target)]
               + UpdateCalls(tx, currentUser.value, users, target)[..j + 1] + [Rollback(Some(tx))])
  {
    var tx := env.createTransaction.value;
    var target := TargetDisabled(data.disabled);
    var users := env.findAllByDisabled(NormalizedIds(data.ids), !target).value;
    UpdatesStopAt(env, tx, currentUser.value, users, target, 0, j);
  }

  /** Loading the users throws: the call issues create, load and a rollback
      of the open transaction, and fails with the load's error (or the
      rollback's); no update, commit or authentication call is made. */
  lemma LoadFailure(env: Collaborators, currentUser: Option<ActingUser>,
                    language: string, data: StatusRequest)
    requires Validate(currentUser, language, data).Returned?
    requires env.createTransaction.Returned?
    requires env.findAllByDisabled(NormalizedIds(data.ids), !TargetDisabled(data.disabled)).Threw?
    ensures var tx := env.createTransaction.value;
      var ids := NormalizedIds(data.ids);
      var target := TargetDisabled(data.disabled);
      ChangeStatus(env, currentUser, language, data)
        == Run(Failed(ErrorAfterRollback(env.rollbackTransaction, env.findAllByDisabled(ids, !target).error)),
               [CreateTx, Load(tx, ids, !target), Rollback(Some(tx))])
  {
  }

  /** The commit throws after every earlier call returned: all updates were
      issued, then the commit, then the rollback of that transaction; the
      call fails with the commit's error (or the rollback's) and makes no
      authentication call. */
  lemma CommitFailure(env: Collaborators, currentUser: Option<ActingUser>,
                      language: string, data: StatusRequest)
    requires Validate(currentUser, language, data).Returned?
    requires UpdatesReturn(env, NormalizedIds(data.ids), TargetDisabled(data.disabled))
    requires env.commitTransaction.Threw?
    ensures var tx := env.createTransaction.value;
      var ids := NormalizedIds(data.ids);
      var target := TargetDisabled(data.disabled);
      var users := env.findAllByDisabled(ids, !target).value;
      ChangeStatus(env, currentUser, language, data)
        == Run(Failed(ErrorAfterRollback(env.rollbackTransaction, env.commitTransaction.error)),
               [CreateTx, Load(tx, ids, !target)] + UpdateCalls(tx, currentUser.value, users, target)
               + [Commit(tx), Rollback(Some(tx))])
  {
    var tx := env.createTransaction.value;
    var ids := NormalizedIds(data.ids);
    var target := TargetDisabled(data.disabled);
    var users := env.findAllByDisabled(ids, !target).value;
    var a := TransactionPhase(env, currentUser.value, ids, target);
    assert a.trace + [Rollback(Some(tx))]
        == [CreateTx, Load(tx, ids, !target)] + UpdateCalls(tx, currentUser.value, users, target)
           + [Commit(tx), Rollback(Some(tx))];
  }

  /** `ChangeAtDatabase` stops exactly at the first update that throws. */
  lemma {:induction false} UpdatesStopAt(env: Collaborators, tx: TxHandle, actor: ActingUser,
                                         users: seq<UserRecord>, target: bool, k: nat, j: nat)
    requires k <= j < |users|
    requires forall i :: k <= i < j ==> env.updateStatus(i, users[i].id, target).Returned?
    requires env.updateStatus(j, users[j].id, target).Threw?
    ensures ChangeAtDatabase(env, tx, actor, users, target, k)
      == Run(Failed(env.updateStatus(j, users[j].id, target).error), UpdateCalls(tx, actor, users, target)[k..j + 1])
    decreases j - k
  {
    var calls := UpdateCalls(tx, actor, users, target);
    if k < j {
      UpdatesStopAt(env, tx, actor, users, target, k + 1, j);
      UpdateStepReturns(env, tx, actor, users, target, k);
      assert calls[k..j + 1] == [calls[k]] + calls[k + 1..j + 1];
    } else {
      assert calls[k..j + 1] == [Update(tx, users[k].id, target, actor)];
    }
  }

  /** An update that returns contributes its call and lets the loop go on. */
  lemma UpdateStepReturns(env: Collaborators, tx: TxHandle, actor: ActingUser,
                          users: seq<UserRecord>, target: bool, k: nat)
    requires k < |users| && env.updateStatus(k, users[k].id, target).Returned?
    ensures var rest := ChangeAtDatabase(env, tx, actor, users, target, k + 1);
      ChangeAtDatabase(env, tx, actor, users, target, k)
        == Run(rest.outcome, [UpdateCalls(tx, actor, users, target)[k]] + rest.trace)
  {
  }

  /* ---------- after the commit ---------- */

  /** Authentication calls only follow a commit that returned, and a trace
      that has them never rolls back. */
  lemma SyncOnlyAfterCommit(env: Collaborators, currentUser: Option<ActingUser>,
                            language: string, data: StatusRequest, i: nat)
    requires var t := ChangeStatus(env, currentUser, language, data).trace;
      i < |t| && (t[i].Enable? || t[i].Disable?)
    ensures var t := ChangeStatus(env, currentUser, language, data).trace;
      && env.commitTransaction.Returned?
      && (exists j :: 0 <= j < i && t[j] == Commit(env.createTransaction.value))
      && forall k :: 0 <= k < |t| ==> !t[k].Rollback?
  {
    var t := ChangeStatus(env, currentUser, language, data).trace;
    var actor := currentUser.value;
    var target := TargetDisabled(data.disabled);
    var ids := NormalizedIds(data.ids);
    var a := TransactionPhase(env, actor, ids, target);
    var sync := ChangeAtAuthentication(env, a.users, 0);
    // the shape of the trace, stated before the protocol rules out the failed branch
    assert a.outcome.Failed? ==> t[|t| - 1] == Rollback(a.tx);
    assert a.outcome.Succeeded? ==> t == a.trace + sync.trace;
    ChangeStatusFollowsProtocol(env, currentUser, language, data);
    SyncAfterCommit(t, i);
    assert a.outcome.Succeeded?;
    var tx := env.createTransaction.value;
    NoSyncInTransaction(tx, actor, a.users, target, ids, a.trace);
    assert t[i] !in a.trace;
    assert t[|a.trace| - 1] == Commit(tx);
  }

  /** An authentication call that throws after the commit ends the call
      with that error, with the database already committed and no
      rollback. */
  lemma SyncFailureNotRolledBack(env: Collaborators, currentUser: Option<ActingUser>,
                                 language: string, data: StatusRequest, j: nat)
    requires Validate(currentUser, language, data).Returned?
    requires env.createTransaction.Returned? && env.commitTransaction.Returned?
    requires var target := TargetDisabled(data.disabled);
      var load := env.findAllByDisabled(NormalizedIds(data.ids), !target);
      && load.Returned? && j < |load.value|
      && (forall i :: 0 <= i < |load.value| ==> env.updateStatus(i, load.value[i].id, target).Returned?)
      && (forall i :: 0 <= i < j ==> SyncReturns(env, i, load.value[i]))
      && SyncReply(env, j, load.value[j]).Some? && SyncReply(env, j, load.value[j]).value.Threw?
    ensures var tx := env.createTransaction.value;
      var target := TargetDisabled(data.disabled);
      var users := env.findAllByDisabled(NormalizedIds(data.ids), !target).value;
      ChangeStatus(env, currentUser, language, data)
        == Run(Failed(SyncReply(env, j, users[j]).value.error),
               [CreateTx, Load(tx, NormalizedIds(data.ids), !target)]
               + UpdateCalls(tx, currentUser.value, users, target) + [Commit(tx)]
               + SyncCalls(users[..j]) + [SyncEvent(users[j])])
  {
    var tx := env.createTransaction.value;
    var target := TargetDisabled(data.disabled);
    var ids := NormalizedIds(data.ids);
    var users := env.findAllByDisabled(ids, !target).value;
    var committed := [CreateTx, Load(tx, ids, !target)] + UpdateCalls(tx, currentUser.value, users, target) + [Commit(tx)];
    CommittedRun(env, currentUser, language, data);
    SyncStopsAt(env, users, 0, j);
    assert users[0..j] == users[..j];
    assert ChangeAtAuthentication(env, users, 0)
        == Run(Failed(SyncReply(env, j, users[j]).value.error), SyncCalls(users[..j]) + [SyncEvent(users[j])]);
    AppendAssociative(committed, SyncCalls(users[..j]), [SyncEvent(users[j])]);
  }

  lemma AppendAssociative(a: seq<Event>, b: seq<Event>, c: seq<Event>)
    ensures a + (b + c) == a + b + c
  {
  }

  /** After a commit that returned, the call continues with the
      authentication phase over the loaded users and ends with its outcome. */
  lemma CommittedRun(env: Collaborators, currentUser: Option<ActingUser>, language: string, data: StatusRequest)
    requires Validate(currentUser, language, data).Returned?
    requires UpdatesReturn(env, NormalizedIds(data.ids), TargetDisabled(data.disabled))
    requires env.commitTransaction.Returned?
    ensures var tx := env.createTransaction.value;
      var ids := NormalizedIds(data.ids);
      var target := TargetDisabled(data.disabled);
      var users := env.findAllByDisabled(ids, !target).value;
      var sync := ChangeAtAuthentication(env, users, 0);
      ChangeStatus(env, currentUser, language, data)
        == Run(sync.outcome, [CreateTx, Load(tx, ids, !target)] + UpdateCalls(tx, currentUser.value, users, target)
                             + [Commit(tx)] + sync.trace)
  {
  }

  /** `ChangeAtAuthentication` stops exactly at the first call that throws. */
  lemma {:induction false} SyncStopsAt(env: Collaborators, users: seq<UserRecord>, k: nat, j: nat)
    requires k <= j < |users|
    requires forall i :: k <= i < j ==> SyncReturns(env, i, users[i])
    requires SyncReply(env, j, users[j]).Some? && SyncReply(env, j, users[j]).value.Threw?
    ensures ChangeAtAuthentication(env, users, k)
      == Run(Failed(SyncReply(env, j, users[j]).value.error), SyncCalls(users[k..j]) + [SyncEvent(users[j])])
    decreases j - k
  {
    var u := users[k];
    if k < j {
      var head, tail, last := SyncCalls([u]), SyncCalls(users[k + 1..j]), [SyncEvent(users[j])];
      assert users[k..j] == [u] + users[k + 1..j];
      SyncCallsConcat([u], users[k + 1..j]);
      assert SyncCalls(users[k..j]) + last == head + (tail + last);
      SyncStopsAt(env, users, k + 1, j);
      SyncStepReturns(env, users, k);
    } else {
      assert users[k..j] == [];
    }
  }

  /** A sync call that returns contributes its event and lets the loop go on. */
  lemma SyncStepReturns(env: Collaborators, users: seq<UserRecord>, k: nat)
    requires k < |users| && SyncReturns(env, k, users[k])
    ensures var rest := ChangeAtAuthentication(env, users, k + 1);
      ChangeAtAuthentication(env, users, k) == Run(rest.outcome, SyncCalls([users[k]]) + rest.trace)
  {
    var u := users[k];
    assert [u][1..] == [];
    assert SyncCalls([u]) == if HasUid(u) then [SyncEvent(u)] else [];
    var rest := ChangeAtAuthentication(env, users, k + 1);
    if HasUid(u) {
      assert SyncReply(env, k, u).Some? && SyncReply(env, k, u).value.Returned?;
      assert ChangeAtAuthentication(env, users, k) == Run(rest.outcome, [SyncEvent(u)] + rest.trace);
    } else {
      assert ChangeAtAuthentication(env, users, k) == rest;
      assert [] + rest.trace == rest.trace;
    }
  }

  /* ---------- direction of the authentication calls ---------- */

  /** Every loaded user is in the state opposite to `target`, as the load
      query asks for. */
  predicate LoadHonoursFilter(load: Reply<seq<UserRecord>>, target: bool)
  {
    load.Returned? ==> forall u :: u in load.value ==> u.disabled == !target
  }

  /** The authentication call is chosen from the LOADED status, so it matches
      the target state because the load only returns users whose status is
      the opposite of the target: every call is `Disable` when disabling and
      `Enable` when enabling. */
  lemma SyncDirectionMatchesTarget(env: Collaborators, currentUser: Option<ActingUser>,
                                   language: string, data: StatusRequest)
    requires LoadHonoursFilter(env.findAllByDisabled(NormalizedIds(data.ids), !TargetDisabled(data.disabled)),
                               TargetDisabled(data.disabled))
    ensures var t := ChangeStatus(env, currentUser, language, data).trace;
      forall e :: e in t && (e.Enable? || e.Disable?) ==> (e.Disable? <==> TargetDisabled(data.disabled))
  {
    var t := ChangeStatus(env, currentUser, language, data).trace;
    forall e | e in t && (e.Enable? || e.Disable?)
      ensures e.Disable? <==> TargetDisabled(data.disabled)
    {
      var i :| 0 <= i < |t| && t[i] == e;
      SyncEventOfLoadedUser(env, currentUser, language, data, i);
    }
  }

  /** Each authentication call is the call for one of the users the load
      returned. */
  lemma SyncEventOfLoadedUser(env: Collaborators, currentUser: Option<ActingUser>,
                              language: string, data: StatusRequest, i: nat)
    requires var t := ChangeStatus(env, currentUser, language, data).trace;
      i < |t| && (t[i].Enable? || t[i].Disable?)
    ensures var t := ChangeStatus(env, currentUser, language, data).trace;
      var load := env.findAllByDisabled(NormalizedIds(data.ids), !TargetDisabled(data.disabled));
      && load.Returned?
      && exists u :: u in load.value && HasUid(u) && t[i] == SyncEvent(u)
  {
    var actor := currentUser.value;
    var target := TargetDisabled(data.disabled);
    var ids := NormalizedIds(data.ids);
    var t := ChangeStatus(env, currentUser, language, data).trace;
    SyncInSyncPhase(env, currentUser, language, data, i);
    var a := TransactionPhase(env, actor, ids, target);
    assert t[i] in SyncCalls(a.users);
    SyncCallsCoverUsers(a.users);
  }

  /** An authentication call lies in the part of the trace that follows a
      successful `try` block. */
  lemma SyncInSyncPhase(env: Collaborators, currentUser: Option<ActingUser>,
                        language: string, data: StatusRequest, i: nat)
    requires var t := ChangeStatus(env, currentUser, language, data).trace;
      i < |t| && (t[i].Enable? || t[i].Disable?)
    ensures Validate(currentUser, language, data).Returned?
    ensures var t := ChangeStatus(env, currentUser, language, data).trace;
      var a := TransactionPhase(env, currentUser.value, NormalizedIds(data.ids), TargetDisabled(data.disabled));
      && a.outcome.Succeeded?
      && t[i] in SyncCalls(a.users)
  {
    var t := ChangeStatus(env, currentUser, language, data).trace;
    var actor := currentUser.value;
    var target := TargetDisabled(data.disabled);
    var ids := NormalizedIds(data.ids);
    var a := TransactionPhase(env, actor, ids, target);
    var sync := ChangeAtAuthentication(env, a.users, 0);
    assert a.outcome.Failed? ==> t[|t| - 1] == Rollback(a.tx);
    assert a.outcome.Succeeded? ==> t == a.trace + sync.trace;
    SyncOnlyAfterCommit(env, currentUser, language, data, i);
    assert a.outcome.Succeeded?;
    NoSyncInTransaction(a.tx.value, actor, a.users, target, ids, a.trace);
    SyncInSuffix(a.trace, sync.trace, i);
    assert a.users[0..] == a.users;
  }

  /** An authentication call in `p + s`, where `p` has none, lies in `s`. */
  lemma SyncInSuffix(p: seq<Event>, s: seq<Event>, i: nat)
    requires forall e :: e in p ==> !e.Enable? && !e.Disable?
    requires i < |p + s| && ((p + s)[i].Enable? || (p + s)[i].Disable?)
    ensures (p + s)[i] in s
  {
    assert forall k :: 0 <= k < |p| ==> (p + s)[k] == p[k] && p[k] in p;
    assert (p + s)[i] == s[i - |p|];
  }

  lemma NoSyncInTransaction(tx: TxHandle, actor: ActingUser, users: seq<UserRecord>, target: bool, ids: seq<Id>, t: seq<Event>)
    requires t == [CreateTx, Load(tx, ids, !target)] + UpdateCalls(tx, actor, users, target) + [Commit(tx)]
    ensures forall e :: e in t ==> !e.Enable? && !e.Disable?
  {
    forall e | e in t
      ensures !e.Enable? && !e.Disable?
    {
      var i :| 0 <= i < |t| && t[i] == e;
      assert 2 <= i < |t| - 1 ==> t[i] == UpdateCalls(tx, actor, users, target)[i - 2];
    }
  }

  /** Without the load filter the direction is wrong: a repository that
      returns a user already disabled for a disable request makes the status
      changer ENABLE that user's authentication identity. */
  lemma SyncDirectionNeedsLoadFilter()
    ensures var env := Collaborators(
        Returned(7),
        (ids: seq<Id>, wanted: bool) => Returned([UserRecord("u2", true, Some("auth-u2"))]),
        (k: nat, id: Id, v: bool) => Returned(()),
        Returned(()), Returned(()),
        (k: nat, uid: Uid) => Returned(()),
        (k: nat, uid: Uid) => Returned(()));
      var run := ChangeStatus(env, Some(ActingUser(Some("u1"), Some("a@x.com"))), "en",
                              StatusRequest(List(["u2"]), Some(true)));
      run.outcome == Succeeded && Enable("auth-u2") in run.trace
  {
    var users := [UserRecord("u2", true, Some("auth-u2"))];
    assert Dedup(["u2"]) == ["u2"] by { DedupOfDistinct(["u2"]); }
    assert SyncCalls(users) == [Enable("auth-u2")];
  }

  /* ---------- duplicate ids ---------- */

  /** Repeated ids in the request make no difference: the request behaves
      exactly as its deduplicated form (`[1, 1, 2]` as `[1, 2]`). */
  lemma DuplicateIdsAreInvisible(env: Collaborators, currentUser: Option<ActingUser>,
                                 language: string, items: seq<Id>, disabled: Option<bool>)
    ensures ChangeStatus(env, currentUser, language, StatusRequest(List(items), disabled))
         == ChangeStatus(env, currentUser, language, StatusRequest(List(Dedup(items)), disabled))
  {
    DedupIdempotent(items);
  }

  /** A single non-empty id given without an array behaves as the one-element
      array holding it. */
  lemma ScalarIdIsSingleton(env: Collaborators, currentUser: Option<ActingUser>,
                            language: string, id: Id, disabled: Option<bool>)
    requires id != ""
    ensures ChangeStatus(env, currentUser, language, StatusRequest(Scalar(id), disabled))
         == ChangeStatus(env, currentUser, language, StatusRequest(List([id]), disabled))
  {
    DedupOfDistinct([id]);
  }
}
