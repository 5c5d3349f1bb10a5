/** The checks `changeStatus` runs before it touches the repository. */
module Validation {
  import opened Domain
  import opened Normalize

  /** Message key of the one business-rule violation. */
  const SelfDisableKey := "iam.errors.disablingHimself"

  /** The acting user carries the fields the asserts demand. */
  predicate ActorPresent(currentUser: Option<ActingUser>)
  {
    currentUser.Some? && Truthy(currentUser.value.id) && Truthy(currentUser.value.email)
  }

  /** `_isDisablingHimself`: the target state is "disabled" and the acting
      user's own id is one of the normalised ids. */
  function IsDisablingHimself(user: ActingUser, data: StatusRequest): (r: bool)
    // enabling is never self-harm
    ensures !TargetDisabled(data.disabled) ==> !r
    // when disabling: the acting user's id appears in the request as given,
    // among the array's elements or as the non-empty single id
    ensures TargetDisabled(data.disabled) ==>
      (r <==>
        (&& user.id.Some?
         && ((data.ids.List? && user.id.value in data.ids.items)
             || (data.ids.Scalar? && data.ids.value != "" && data.ids.value == user.id.value))))
  {
    TargetDisabled(data.disabled) && user.id.Some? && user.id.value in NormalizedIds(data.ids)
  }

  /** `_validate`: the three acting-user asserts, the non-empty id list
      assert, then the self-disable rule, in that order.  The first check
      that fails decides the error. */
  function Validate(currentUser: Option<ActingUser>, language: string, data: StatusRequest): (r: Reply<()>)
    ensures currentUser.None? ==> r == Threw(AssertionError("currentUser is required"))
    ensures currentUser.Some? && !Truthy(currentUser.value.id) ==>
      r == Threw(AssertionError("currentUser.id is required"))
    ensures currentUser.Some? && Truthy(currentUser.value.id) && !Truthy(currentUser.value.email) ==>
      r == Threw(AssertionError("currentUser.email is required"))
    ensures ActorPresent(currentUser) && |NormalizedIds(data.ids)| == 0 ==>
      r == Threw(AssertionError("ids is required"))
    ensures (ActorPresent(currentUser) && TargetDisabled(data.disabled)
      && currentUser.value.id.value in NormalizedIds(data.ids)) ==>
      r == Threw(ValidationError(language, SelfDisableKey))
    ensures r.Returned? <==>
      && ActorPresent(currentUser)
      && |NormalizedIds(data.ids)| > 0
      && !(TargetDisabled(data.disabled) && currentUser.value.id.value in NormalizedIds(data.ids))
  {
    if currentUser.None? then Threw(AssertionError("currentUser is required"))
    else if !Truthy(currentUser.value.id) then Threw(AssertionError("currentUser.id is required"))
    else if !Truthy(currentUser.value.email) then Threw(AssertionError("currentUser.email is required"))
    else if |NormalizedIds(data.ids)| == 0 then Threw(AssertionError("ids is required"))
    else if IsDisablingHimself(currentUser.value, data) then Threw(ValidationError(language, SelfDisableKey))
    else Returned(())
  }
}
