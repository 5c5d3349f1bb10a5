/** Data model of the bulk user enable/disable workflow.

    The status changer receives the acting user, a language tag and a request
    `{ids, disabled}`; it talks to two collaborators, the user repository and
    the authentication service, whose replies are given here by an oracle
    (`Collaborators`).  Every call the workflow issues to a collaborator is
    recorded as an `Event`, so one invocation is a pure function from its
    inputs and the oracle to an outcome and a trace.
 */
module Domain {

  /** A JavaScript value that may be `undefined`/`null`. */
  datatype Option<+T> = None | Some(value: T)

  type Id = string
  type Uid = string

  /** The handle `createTransaction` resolves with. */
  type TxHandle = nat

  /** JavaScript truthiness of an optional string: present and non-empty. */
  predicate Truthy(s: Option<string>)
  {
    s.Some? && s.value != ""
  }

  /** The authenticated user performing the change (`currentUser`). */
  datatype ActingUser = ActingUser(id: Option<Id>, email: Option<string>)

  /** The shapes `data.ids` can take: missing, a single value, or an array. */
  datatype IdsField = Absent | Scalar(value: Id) | List(items: seq<Id>)

  /** The request body `data`. */
  datatype StatusRequest = StatusRequest(ids: IdsField, disabled: Option<bool>)

  /** A user row as `findAllByDisabled` returns it. */
  datatype UserRecord = UserRecord(id: Id, disabled: bool, authenticationUid: Option<Uid>)

  /** Errors that can leave the workflow: a failed `assert`, the localised
      validation error (only its key is modelled), or whatever a collaborator
      throws. */
  datatype Error =
    | AssertionError(message: string)
    | ValidationError(language: string, messageKey: string)
    | ExternalError(detail: string)

  /** How an awaited collaborator call settles. */
  datatype Reply<+T> = Returned(value: T) | Threw(error: Error)

  /** The oracle standing for the user repository and the authentication
      service.  Calls made at most once per invocation are constants; the
      per-user calls also receive the position of the user in the loaded
      list, so each call of a loop can settle differently. */
  datatype Collaborators = Collaborators(
    createTransaction: Reply<TxHandle>,
    findAllByDisabled: (seq<Id>, bool) -> Reply<seq<UserRecord>>,
    updateStatus: (nat, Id, bool) -> Reply<()>,
    commitTransaction: Reply<()>,
    rollbackTransaction: Reply<()>,
    enable: (nat, Uid) -> Reply<()>,
    disable: (nat, Uid) -> Reply<()>)

  /** One issued collaborator call.  A call that throws is still recorded.
      `Rollback(None)` is a rollback of the still-null transaction. */
  datatype Event =
    | CreateTx
    | Load(tx: TxHandle, ids: seq<Id>, wantedDisabled: bool)
    | Update(tx: TxHandle, id: Id, disabled: bool, actor: ActingUser)
    | Commit(tx: TxHandle)
    | Rollback(handle: Option<TxHandle>)
    | Enable(uid: Uid)
    | Disable(uid: Uid)

  datatype Outcome = Succeeded | Failed(error: Error)

  /** The result of one invocation: how it settled and the calls it issued. */
  datatype Run = Run(outcome: Outcome, trace: seq<Event>)
}
