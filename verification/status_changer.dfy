/** The `changeStatus` workflow of the status changer as a pure function
    from the acting user, the language, the request and the collaborator
    oracle to an outcome and the trace of issued calls.  The mutable
    `this.data`, `this.transaction` and `this.users` fields become values
    threaded through the functions below. */
module StatusChanger {
  import opened Domain
  import opened Normalize
  import opened Validation

  /** The update calls for every loaded user, in load order. */
  function UpdateCalls(tx: TxHandle, actor: ActingUser, users: seq<UserRecord>, target: bool): seq<Event>
  {
    seq(|users|, i requires 0 <= i < |users| => Update(tx, users[i].id, target, actor))
  }

  /** A loaded user that has an identity at the authentication provider. */
  predicate HasUid(u: UserRecord)
  {
    Truthy(u.authenticationUid)
  }

  /** The authentication call for one user, chosen from the status the user
      was LOADED with: a user loaded as disabled is enabled, any other is
      disabled. */
  function SyncEvent(u: UserRecord): Event
    requires HasUid(u)
  {
    if u.disabled then Enable(u.authenticationUid.value) else Disable(u.authenticationUid.value)
  }

  /** How many loaded users have an authentication uid. */
  function CountWithUid(users: seq<UserRecord>): nat
  {
    if |users| == 0 then 0
    else (if HasUid(users[0]) then 1 else 0) + CountWithUid(users[1..])
  }

  /** The authentication calls a fully successful sync issues: one per user
      with a uid, none for the others, in load order. */
  function SyncCalls(users: seq<UserRecord>): (r: seq<Event>)
    ensures |r| == CountWithUid(users)
    ensures forall e :: e in r ==> e.Enable? || e.Disable?
  {
    if |users| == 0 then []
    else
      var rest := SyncCalls(users[1..]);
      if HasUid(users[0]) then [SyncEvent(users[0])] + rest else rest
  }

  /** Every loaded user with a uid gets its call, and every call belongs to
      such a user. */
  lemma {:induction false} SyncCallsCoverUsers(users: seq<UserRecord>)
    ensures forall u :: u in users && HasUid(u) ==> SyncEvent(u) in SyncCalls(users)
    ensures forall e :: e in SyncCalls(users) ==> exists u :: u in users && HasUid(u) && e == SyncEvent(u)
    decreases |users|
  {
    if |users| > 0 {
      SyncCallsCoverUsers(users[1..]);
      assert forall u :: u in users ==> u == users[0] || u in users[1..];
      assert forall u :: u in users[1..] ==> u in users;
    }
  }

  lemma {:induction false} SyncCallsConcat(a: seq<UserRecord>, b: seq<UserRecord>)
    ensures SyncCalls(a + b) == SyncCalls(a) + SyncCalls(b)
    decreases |a|
  {
    if |a| > 0 {
      assert (a + b)[1..] == a[1..] + b;
      SyncCallsConcat(a[1..], b);
    } else {
      assert a + b == b;
    }
  }

  /** What the call a failed rollback ends with: the rollback's own error
      replaces the one being rethrown. */
  function ErrorAfterRollback(rollback: Reply<()>, error: Error): Error
  {
    if rollback.Threw? then rollback.error else error
  }

  /** `_changeAtDatabase` from the user at position `k` on: one
      `updateStatus(user.id, target)` per loaded user, stopping at the first
      call that throws. */
  function ChangeAtDatabase(env: Collaborators, tx: TxHandle, actor: ActingUser,
                            users: seq<UserRecord>, target: bool, k: nat): (r: Run)
    requires k <= |users|
    ensures r.trace <= UpdateCalls(tx, actor, users, target)[k..]
    ensures r.outcome.Succeeded? <==>
      (r.trace == UpdateCalls(tx, actor, users, target)[k..]
       && forall i :: k <= i < |users| ==> env.updateStatus(i, users[i].id, target).Returned?)
    ensures r.outcome.Failed? ==>
      && |r.trace| > 0
      && env.updateStatus(k + |r.trace| - 1, users[k + |r.trace| - 1].id, target) == Threw(r.outcome.error)
      && forall i :: k <= i < k + |r.trace| - 1 ==> env.updateStatus(i, users[i].id, target).Returned?
    decreases |users| - k
  {
    if k == |users| then Run(Succeeded, [])
    else
      var call := Update(tx, users[k].id, target, actor);
      match env.updateStatus(k, users[k].id, target)
      case Threw(e) => Run(Failed(e), [call])
      case Returned(_) =>
        var rest := ChangeAtDatabase(env, tx, actor, users, target, k + 1);
        assert UpdateCalls(tx, actor, users, target)[k..] == [call] + UpdateCalls(tx, actor, users, target)[k + 1..];
        Run(rest.outcome, [call] + rest.trace)
  }

  /** The reply the authentication service gives for the user at position
      `k`, or `None` when that user has no uid and no call is made. */
  function SyncReply(env: Collaborators, k: nat, u: UserRecord): Option<Reply<()>>
  {
    if !HasUid(u) then None
    else if u.disabled then Some(env.enable(k, u.authenticationUid.value))
    else Some(env.disable(k, u.authenticationUid.value))
  }

  /** The authentication call for position `k`, if one is made, does not throw. */
  predicate SyncReturns(env: Collaborators, k: nat, u: UserRecord)
  {
    SyncReply(env, k, u).None? || SyncReply(env, k, u).value.Returned?
  }

  /** `_changeAtAuthentication` from the user at position `k` on: enable or
      disable each user with a uid, stopping at the first call that throws.
      Nothing here is inside the transaction. */
  function ChangeAtAuthentication(env: Collaborators, users: seq<UserRecord>, k: nat): (r: Run)
    requires k <= |users|
    ensures r.trace <= SyncCalls(users[k..])
    ensures r.outcome.Succeeded? <==> forall i :: k <= i < |users| ==> SyncReturns(env, i, users[i])
    ensures r.outcome.Succeeded? ==> r.trace == SyncCalls(users[k..])
    ensures r.outcome.Failed? ==>
      exists j :: k <= j < |users| && SyncReply(env, j, users[j]) == Some(Threw(r.outcome.error))
    decreases |users| - k
  {
    if k == |users| then Run(Succeeded, [])
    else
      var u := users[k];
      var rest := ChangeAtAuthentication(env, users, k + 1);
      assert users[k..] == [u] + users[k + 1..];
      match SyncReply(env, k, u)
      case None => rest
      case Some(Threw(e)) => Run(Failed(e), [SyncEvent(u)])
      case Some(Returned(_)) => Run(rest.outcome, [SyncEvent(u)] + rest.trace)
  }

  /** What leaves the `try` block: its outcome, the calls it issued, the
      transaction handle (`None` while it is still null) and the loaded users. */
  datatype Attempt = Attempt(outcome: Outcome, trace: seq<Event>, tx: Option<TxHandle>, users: seq<UserRecord>)

  /** Every call of the `try` block returns: the transaction is created,
      the users load, each update and the commit return. */
  predicate EveryTransactionCallReturns(env: Collaborators, ids: seq<Id>, target: bool)
  {
    && env.createTransaction.Returned?
    && env.findAllByDisabled(ids, !target).Returned?
    && (var users := env.findAllByDisabled(ids, !target).value;
        forall i :: 0 <= i < |users| ==> env.updateStatus(i, users[i].id, target).Returned?)
    && env.commitTransaction.Returned?
  }

  /** Every call of the `try` block before the commit returns: the
      transaction is created, the users load and each update returns. */
  predicate UpdatesReturn(env: Collaborators, ids: seq<Id>, target: bool)
  {
    && env.createTransaction.Returned?
    && env.findAllByDisabled(ids, !target).Returned?
    && (var users := env.findAllByDisabled(ids, !target).value;
        forall i :: 0 <= i < |users| ==> env.updateStatus(i, users[i].id, target).Returned?)
  }

  /** The `try` block of `changeStatus`: create the transaction, load the
      users whose status differs from the target (`_loadUsers`), update each
      of them, commit. */
  function TransactionPhase(env: Collaborators, actor: ActingUser, ids: seq<Id>, target: bool): (a: Attempt)
    ensures |a.trace| > 0 && a.trace[0] == CreateTx
    ensures a.outcome.Succeeded? <==> EveryTransactionCallReturns(env, ids, target)
    ensures env.createTransaction.Threw? ==>
      a == Attempt(Failed(env.createTransaction.error), [CreateTx], None, [])
    ensures env.createTransaction.Returned? ==>
      && a.tx == Some(env.createTransaction.value)
      && |a.trace| > 1 && a.trace[1] == Load(env.createTransaction.value, ids, !target)
    ensures a.outcome.Succeeded? ==>
      && env.createTransaction.Returned?
      && env.findAllByDisabled(ids, !target) == Returned(a.users)
      && a.trace == [CreateTx, Load(a.tx.value, ids, !target)]
                    + UpdateCalls(a.tx.value, actor, a.users, target) + [Commit(a.tx.value)]
    // the load throws: the block fails with the load's own error, after create and load
    ensures env.createTransaction.Returned? && env.findAllByDisabled(ids, !target).Threw? ==>
      a == Attempt(Failed(env.findAllByDisabled(ids, !target).error),
                   [CreateTx, Load(env.createTransaction.value, ids, !target)],
                   Some(env.createTransaction.value), [])
    // everything before the commit returned: every update was issued and the commit follows;
    // the block fails exactly when the commit throws, with the commit's own error
    ensures UpdatesReturn(env, ids, target) ==>
      && a.tx == Some(env.createTransaction.value)
      && a.users == env.findAllByDisabled(ids, !target).value
      && a.trace == [CreateTx, Load(a.tx.value, ids, !target)]
                    + UpdateCalls(a.tx.value, actor, a.users, target) + [Commit(a.tx.value)]
      && (env.commitTransaction.Threw? ==> a.outcome == Failed(env.commitTransaction.error))
  {
    match env.createTransaction
    case Threw(e) => Attempt(Failed(e), [CreateTx], None, [])
    case Returned(tx) =>
      var started := [CreateTx, Load(tx, ids, !target)];
      match env.findAllByDisabled(ids, !target)
      case Threw(e) => Attempt(Failed(e), started, Some(tx), [])
      case Returned(users) =>
        var updates := ChangeAtDatabase(env, tx, actor, users, target, 0);
        assert UpdateCalls(tx, actor, users, target)[0..] == UpdateCalls(tx, actor, users, target);
        if updates.outcome.Failed? then
          Attempt(updates.outcome, started + updates.trace, Some(tx), users)
        else
          var committed := started + updates.trace + [Commit(tx)];
          match env.commitTransaction
          case Threw(e) => Attempt(Failed(e), committed, Some(tx), users)
          case Returned(_) => Attempt(Succeeded, committed, Some(tx), users)
  }

  /** `changeStatus(data)` on a freshly constructed status changer: validate,
      run the `try` block, roll back and rethrow if it failed, otherwise
      synchronise the authentication provider. */
  function ChangeStatus(env: Collaborators, currentUser: Option<ActingUser>, language: string,
                        data: StatusRequest): (run: Run)
    // validation runs before any collaborator call, and only its failure leaves the trace empty
    ensures run.trace == [] <==> Validate(currentUser, language, data).Threw?
    ensures Validate(currentUser, language, data).Threw? ==>
      run.outcome == Failed(Validate(currentUser, language, data).error)
    // a missing acting user, user id or email, or no ids at all, is a failed assertion
    ensures (!ActorPresent(currentUser) || |NormalizedIds(data.ids)| == 0) ==>
      run.trace == [] && run.outcome.Failed? && run.outcome.error.AssertionError?
    // disabling oneself is refused without any call
    ensures (ActorPresent(currentUser) && TargetDisabled(data.disabled)
      && currentUser.value.id.value in NormalizedIds(data.ids)) ==>
      run == Run(Failed(ValidationError(language, "iam.errors.disablingHimself")), [])
    // enabling is never refused by that rule, even for oneself
    ensures ActorPresent(currentUser) && !TargetDisabled(data.disabled) && |NormalizedIds(data.ids)| > 0 ==>
      |run.trace| > 0 && run.trace[0] == CreateTx
    // creating the transaction throws: the still-null transaction is rolled back, nothing else happens
    ensures Validate(currentUser, language, data).Returned? && env.createTransaction.Threw? ==>
      run == Run(Failed(ErrorAfterRollback(env.rollbackTransaction, env.createTransaction.error)),
                 [CreateTx, Rollback(None)])
  {
    match Validate(currentUser, language, data)
    case Threw(e) => Run(Failed(e), [])
    case Returned(_) =>
      var target := TargetDisabled(data.disabled);
      var attempt := TransactionPhase(env, currentUser.value, NormalizedIds(data.ids), target);
      if attempt.outcome.Failed? then
        Run(Failed(ErrorAfterRollback(env.rollbackTransaction, attempt.outcome.error)),
            attempt.trace + [Rollback(attempt.tx)])
      else
        var sync := ChangeAtAuthentication(env, attempt.users, 0);
        Run(sync.outcome, attempt.trace + sync.trace)
  }
}
