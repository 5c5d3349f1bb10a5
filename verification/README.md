# IAM status changer — a Dafny model

This project models `IamStatusChanger` from the SQL backend. That class
enables or disables a batch of user accounts in three steps:

1. It validates the request and the acting user.
2. Inside one database transaction, it loads the users whose status differs
   from the target, updates each of them, and commits. If anything in that
   block throws, it rolls back and rethrows.
3. After the commit, it enables or disables each loaded user's identity at
   the authentication provider.

The model is pure. One invocation of `changeStatus` on a fresh instance is
the function `StatusChanger.ChangeStatus`. Its inputs are:

- the acting user (`Option<ActingUser>`, where `None` stands for a missing
  user);
- the language;
- the request, whose `ids` field is absent, a single value, or an array, and
  whose `disabled` flag is optional;
- a `Collaborators` oracle that says what each repository, transaction and
  authentication call would return or throw.

The result is an `Outcome` plus the trace of every collaborator call that
was issued, in order. A call that throws is still in the trace.

Modules:

- `Domain`: entities, replies, events.
- `Normalize`: the `_ids` and `_disabled` getters, including the
  `[...new Set(ids)]` deduplication.
- `Validation`: `_validate` and `_isDisablingHimself`.
- `StatusChanger`: `changeStatus`, `_loadUsers`, `_changeAtDatabase` and
  `_changeAtAuthentication`.
- `Protocol`: the order in which calls may be issued, as a state machine
  over traces. Its lemmas hold for any accepted trace.
- `Properties`: lemmas that connect `ChangeStatus` to the protocol, to the
  request and to the collaborators' replies.

Behaviour of `iamStatusChanger.js` worth knowing:

- **A rollback that throws.** The `catch` block awaits
  `rollbackTransaction` before `throw error` (lines 26-30). If the rollback
  itself throws, its error is what the caller sees. The error raised inside
  the `try` block reaches the caller only when the rollback returns
  (`StatusChanger.ErrorAfterRollback`,
  `Properties.TransactionFailureRollsBackOnce`).
- **A failing `createTransaction`.** This call is inside the `try` block
  too (line 19). Its failure leads to `rollbackTransaction(null)`, which the
  model records as `Rollback(None)`.
- **A failing load or commit.** Each is followed by a rollback of the open
  transaction, and the caller receives that call's own error
  (`Properties.LoadFailure`, `Properties.CommitFailure`).
- **The direction of the authentication call.** Lines 73-77 pick it from
  the status the user was loaded with: loaded as disabled means `enable`,
  anything else means `disable`. This matches the target state only because
  the load at lines 50-53 asks for users in the opposite state
  (`Properties.SyncDirectionMatchesTarget`). A repository that does not
  honour that filter reverses the call
  (`Properties.SyncDirectionNeedsLoadFilter`).

## Model

| member | source | states |
|---|---|---|
| Normalize.Dedup | backend-sql/src/services/iam/iamStatusChanger.js:40 | `[...new Set(ids)]` keeps exactly the elements of the input with no repeats, ordered by where each first occurs |
| Normalize.DedupCharacterized | backend-sql/src/services/iam/iamStatusChanger.js:40 | any list with the same elements as the input, in strict first-occurrence order, is the deduplicated list: set-then-spread is determined by the input alone |
| Normalize.DedupIdempotent | backend-sql/src/services/iam/iamStatusChanger.js:40-41 | deduplicating an already deduplicated id list changes nothing |
| Normalize.NormalizedIds | backend-sql/src/services/iam/iamStatusChanger.js:36-43 | `_ids` has no duplicates; it holds exactly the array's elements, or the single truthy value; a truthy non-array becomes a one-element list; it is empty exactly when ids are missing, the empty string, or an empty array; for an array it is the deduplicated array, so first-occurrence order is kept |
| Normalize.TargetDisabled | backend-sql/src/services/iam/iamStatusChanger.js:45-47 | `!!disabled`: a missing flag or `false` means enable, `true` means disable |
| Validation.IsDisablingHimself | backend-sql/src/services/iam/iamStatusChanger.js:82-87 | enabling is never disabling oneself; when disabling, it holds exactly when the acting user's id appears in the request as given, among the array's elements or as the non-empty single id |
| Validation.Validate | backend-sql/src/services/iam/iamStatusChanger.js:89-111 | the four asserts fire in source order with their messages, disabling oneself is a ValidationError carrying the language and key `iam.errors.disablingHimself`, and validation passes if and only if none of these holds |
| StatusChanger.ChangeAtDatabase | backend-sql/src/services/iam/iamStatusChanger.js:57-68 | one `updateStatus(user.id, target)` per loaded user, in load order; it succeeds if and only if every update returns; on failure, the last issued update threw that error and every earlier one returned |
| StatusChanger.SyncCalls | backend-sql/src/services/iam/iamStatusChanger.js:70-80 | a full sync issues exactly as many calls as there are loaded users with a truthy uid, and every call is an enable or a disable |
| StatusChanger.SyncCallsCoverUsers | backend-sql/src/services/iam/iamStatusChanger.js:71-78 | every loaded user with a truthy uid gets its call, and every call belongs to such a user |
| StatusChanger.ChangeAtAuthentication | backend-sql/src/services/iam/iamStatusChanger.js:70-80 | the calls issued are a prefix of the full sync; it succeeds if and only if every authentication call returns, and then it issues all of them; a failure is the error of one of the calls |
| StatusChanger.TransactionPhase | backend-sql/src/services/iam/iamStatusChanger.js:18-25 | the `try` block creates the transaction first, then loads with the normalised ids and `!target` in that transaction; it succeeds if and only if create, load, every update and the commit return, and then issues exactly create, load, updates, commit; a throwing create or load fails the block with that call's own error after exactly the calls made so far; once everything before the commit returned, every update was issued and a throwing commit fails the block with the commit's own error |
| StatusChanger.ChangeStatus | backend-sql/src/services/iam/iamStatusChanger.js:13-34 | validation precedes every call, and only a validation failure leaves no call issued; missing input and self-disable fail without any call; enabling oneself is not refused; a failed `createTransaction` rolls back the null transaction and nothing else |
| Properties.ChangeStatusFollowsProtocol | backend-sql/src/services/iam/iamStatusChanger.js:13-34 | every trace the workflow can produce is accepted by the call-order state machine: create, load, updates, then commit and authentication calls, or a rollback as the final call |
| Properties.LoadUsesNormalisedRequest | backend-sql/src/services/iam/iamStatusChanger.js:49-55 | once the transaction is open, the users are loaded right after it, exactly once, in that transaction, with the normalised ids and the opposite of the target state |
| Properties.UpdatesBetweenLoadAndCommit | backend-sql/src/services/iam/iamStatusChanger.js:21-23 | whatever the collaborators do, every update comes after a load and before any commit |
| Properties.SuccessfulRunShape | backend-sql/src/services/iam/iamStatusChanger.js:13-34 | a successful call means validation passed and create, load and commit returned, and the calls were exactly create, load, one update per loaded user, commit, then one authentication call per loaded user with a uid |
| Properties.SucceedsWhenEveryCallReturns | backend-sql/src/services/iam/iamStatusChanger.js:13-34 | the converse: when validation passes and every collaborator call returns, the call succeeds |
| Properties.TransactionFailureRollsBackOnce | backend-sql/src/services/iam/iamStatusChanger.js:26-31 | when the `try` block fails, the last call is the one rollback, of the handle the block opened (null exactly when create threw); there is no authentication call; a commit appears only if the commit threw; the error is the block's error unless the rollback throws its own |
| Properties.LoadFailure | backend-sql/src/services/iam/iamStatusChanger.js:18-31 | if the load throws, the call issues exactly create, load and a rollback of that transaction, and fails with the load's error (or the rollback's) |
| Properties.UpdateFailure | backend-sql/src/services/iam/iamStatusChanger.js:57-68 | if update number `j` throws after the earlier ones returned, the call issues exactly create, load, the first `j + 1` updates and a rollback of that transaction, and fails with that error (or the rollback's) |
| Properties.CommitFailure | backend-sql/src/services/iam/iamStatusChanger.js:18-31 | if the commit throws after every earlier call returned, the call issues exactly create, load, every update, the commit and a rollback of that transaction, and fails with the commit's error (or the rollback's); no authentication call is made |
| Properties.SyncOnlyAfterCommit | backend-sql/src/services/iam/iamStatusChanger.js:23-33 | an authentication call is issued only after a commit of the created transaction that returned, and a trace containing one never rolls back |
| Properties.SyncFailureNotRolledBack | backend-sql/src/services/iam/iamStatusChanger.js:33 | an authentication call that throws after the commit ends the call with its error; the trace keeps the committed transaction and the earlier authentication calls, and has no rollback |
| Properties.SyncDirectionMatchesTarget | backend-sql/src/services/iam/iamStatusChanger.js:72-77 | if the repository returns only users in the state opposite to the target, every authentication call is `disable` when disabling and `enable` when enabling |
| Properties.SyncDirectionNeedsLoadFilter | backend-sql/src/services/iam/iamStatusChanger.js:73-74 | the call direction comes from the loaded status: a user returned as already disabled for a disable request gets its identity enabled |
| Properties.DuplicateIdsAreInvisible | backend-sql/src/services/iam/iamStatusChanger.js:40 | a request with repeated ids behaves exactly like its deduplicated form |
| Properties.ScalarIdIsSingleton | backend-sql/src/services/iam/iamStatusChanger.js:37-38 | a single non-empty id given without an array behaves exactly like the one-element array |
| Protocol.RollbackIsLast | backend-sql/src/services/iam/iamStatusChanger.js:26-31 | in an accepted trace nothing follows a rollback |
| Protocol.MilestoneAtMostOnce | backend-sql/src/services/iam/iamStatusChanger.js:18-31 | in an accepted trace the transaction is created, loaded, committed and rolled back at most once each |
| Protocol.SyncAfterCommit | backend-sql/src/services/iam/iamStatusChanger.js:33 | in an accepted trace an authentication call has a commit before it, and the trace has no rollback |
| Protocol.UpdateInsideTransaction | backend-sql/src/services/iam/iamStatusChanger.js:21-23 | in an accepted trace every update follows the load and precedes any commit |

## Left out

- The user repository, its SQL queries and real transaction semantics
  (isolation, what a rollback undoes). They are not part of this model:
  `createTransaction`, `findAllByDisabled`, `updateStatus`, `commitTransaction`
  and `rollbackTransaction` are oracle replies.
- The authentication service. `enable` and `disable` are oracle replies,
  keyed by the loop position and the uid.
- Localisation. A `ValidationError` carries the language and the message key
  only.
- Asynchrony. Every `await` is modelled as a sequential call. Interleaving
  with other requests is not modelled.
- Reuse of one instance across calls. Each call is modelled on a fresh
  instance (`this.transaction` is null). A reused instance would roll back a
  stale handle when `createTransaction` throws.
- JavaScript values other than strings. Ids and uids are strings, and
  `ids` is absent, a string, or an array of strings. Falsy non-strings such
  as `0` (for which `new Set(0)` throws a `TypeError`) and non-string truthy
  ids are not modelled. `includes` on strings is plain equality.
- A missing request. `changeStatus(undefined)` or `changeStatus(null)`
  passes the three acting-user asserts, then throws a `TypeError` when
  `_ids` reads `this.data.ids` (lines 37 and 101). The model always has a
  request object, so this error path is not modelled.
- The `disabled` field: only `true` counts as disabling. `!!` of other
  truthy values, such as `"yes"` or `1`, is not modelled.
- The `options` objects passed to the repository. Only the transaction
  handle and the acting user they carry are recorded in the events.
- StatusChanger.ChangeAtAuthentication: its contract states the failure
  error only up to which call produced it. The exact trace of a failed sync
  is stated in `Properties.SyncFailureNotRolledBack`.
