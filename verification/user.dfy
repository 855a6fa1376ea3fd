/** The `User` aggregate's lifecycle: two independent flags (email verified,
    account active), an optional inactive reason, and the queue of domain
    events the guarded transitions append to. Every transition is a pure
    function from the old aggregate to the new one. */
module Profile {
  import opened Wrappers
  import Strings

  /** The `InactiveReason` value object: non-null text. */
  datatype InactiveReason = InactiveReason(value: string)

  /** What the `InactiveReason` constructor throws for a null argument. */
  datatype ArgumentNullException = ArgumentNullException(paramName: string)

  /** `new InactiveReason(value)`, also reached through the implicit
      conversion from `string`: a null text is rejected. */
  function MakeInactiveReason(value: Option<string>): (r: Result<InactiveReason, ArgumentNullException>)
    ensures r.Success? <==> value.Some?
    ensures r.Success? ==> ReasonText(r.value) == value.value
    ensures r.Failure? ==> r.error.paramName == "value"
  {
    match value
    case None => Failure(ArgumentNullException("value"))
    case Some(text) => Success(InactiveReason(text))
  }

  /** The implicit conversion back to `string`. */
  function ReasonText(reason: InactiveReason): string {
    reason.value
  }

  /** The two conversions are inverse to each other. */
  lemma ReasonConversionsRoundTrip(reason: InactiveReason, text: string)
    ensures MakeInactiveReason(Some(ReasonText(reason))) == Success(reason)
    ensures ReasonText(MakeInactiveReason(Some(text)).value) == text
  {
  }

  /** `InactiveReasons.InvalidPassword`. */
  const InvalidPassword: InactiveReason := InactiveReason("Wrong password limit reached")

  /** `InactiveReasons.ContactSupport`. */
  const ContactSupport: InactiveReason :=
    InactiveReason("Your account has been temporarily suspended, Please contact support!")

  /** The events the aggregate raises. Only the verified event's payload
      (address and full name) is read downstream; the others are tags. */
  datatype DomainEvent =
    | UserCreated
    | UserVerified(emailAddress: string, fullName: string)
    | AccountSetInactive
    | PasswordResetRequested

  datatype User = User(
    emailAddress: string,
    firstName: string,
    middleName: Option<string>,
    lastName: string,
    emailVerified: bool,
    active: bool,
    inactiveReason: Option<InactiveReason>,
    events: seq<DomainEvent>)

  /** The outcome of a guarded transition: the new aggregate and the boolean
      the C# method returns. */
  datatype Step = Step(user: User, done: bool)

  /** `after` is `before` with nothing but `appended` added to its queue. */
  predicate Raised(before: User, after: User, appended: seq<DomainEvent>) {
    after == before.(events := before.events + appended)
  }

  /** An active account never carries an inactive reason. */
  predicate Consistent(u: User) {
    u.active ==> u.inactiveReason.None?
  }

  /** The aggregate as the parameterless constructor leaves it: the required
      name and address are set by the object initializer; the flags and the
      reason keep their default values because nothing assigns them. */
  function NewUser(emailAddress: string, firstName: string, middleName: Option<string>, lastName: string): (u: User)
    ensures !u.emailVerified && !u.active && u.inactiveReason.None?
    ensures |u.events| == 0
    ensures Consistent(u)
  {
    User(emailAddress, firstName, middleName, lastName, false, false, None, [])
  }

  /** `string.IsNullOrEmpty`. */
  predicate IsNullOrEmpty(s: Option<string>) {
    s.None? || |s.value| == 0
  }

  /** `FullName`: first and last name, with the middle name between them
      when there is one. */
  function FullName(u: User): (name: string)
    ensures name == Strings.Join(NameParts(u), ' ')
    ensures IsNullOrEmpty(u.middleName) ==> |name| == |u.firstName| + 1 + |u.lastName|
    ensures !IsNullOrEmpty(u.middleName) ==>
              |name| == |u.firstName| + 1 + |u.middleName.value| + 1 + |u.lastName|
    ensures u.firstName <= name
  {
    var parts := NameParts(u);
    if IsNullOrEmpty(u.middleName) then
      assert Strings.Join(parts[1..], ' ') == u.lastName;
      u.firstName + " " + u.lastName
    else
      assert Strings.Join(parts[2..], ' ') == u.lastName;
      assert Strings.Join(parts[1..], ' ') == u.middleName.value + [' '] + u.lastName;
      u.firstName + " " + u.middleName.value + " " + u.lastName
  }

  /** The name parts, omitting an absent or empty middle name. */
  function NameParts(u: User): (parts: seq<string>)
    ensures |parts| == (if IsNullOrEmpty(u.middleName) then 2 else 3)
    ensures parts[0] == u.firstName && parts[|parts| - 1] == u.lastName
    ensures |parts| == 3 ==> parts[1] == u.middleName.value
  {
    if IsNullOrEmpty(u.middleName) then [u.firstName, u.lastName]
    else [u.firstName, u.middleName.value, u.lastName]
  }

  /** When no name part contains a space, splitting the full name at spaces
      gives back exactly the parts it was built from. */
  lemma FullNameSplitsIntoParts(u: User)
    requires ' ' !in u.firstName && ' ' !in u.lastName
    requires u.middleName.Some? ==> ' ' !in u.middleName.value
    ensures Strings.Split(FullName(u), ' ') == NameParts(u)
  {
    var parts := NameParts(u);
    Strings.SplitJoin(parts, ' ');
  }

  /** `RaiseCreatedEvent`: an unverified user announces its registration;
      a verified one raises nothing. No state changes. */
  function RaiseCreatedEvent(u: User): (v: User)
    ensures !u.emailVerified ==> Raised(u, v, [UserCreated])
    ensures u.emailVerified ==> v == u
  {
    if u.emailVerified then u else u.(events := u.events + [UserCreated])
  }

  /** `ResendEmailVerification`: re-raises the registration event for an
      unverified user, nothing for a verified one, which is exactly what
      `RaiseCreatedEvent` does. */
  function ResendEmailVerification(u: User): (v: User)
    ensures v == RaiseCreatedEvent(u)
    ensures |v.events| == |u.events| + (if u.emailVerified then 0 else 1)
  {
    if u.emailVerified then u else u.(events := u.events + [UserCreated])
  }

  /** `VerifyUser`: a one-way switch that raises one verified event. */
  function VerifyUser(u: User): (r: Step)
    ensures r.done <==> !u.emailVerified
    ensures r.user.emailVerified
    ensures r.done ==>
              r.user.events == u.events + [UserVerified(u.emailAddress, FullName(u))]
              && r.user.(events := u.events, emailVerified := false) == u
    ensures !r.done ==> r.user == u
  {
    if u.emailVerified then Step(u, false)
    else
      var verified := u.(emailVerified := true);
      Step(verified.(events := u.events + [UserVerified(verified.emailAddress, FullName(verified))]), true)
  }

  /** `SetInActive(reason)`: deactivates an active user, storing the reason
      and raising one event. An inactive user is left alone (even for a null
      reason, since that guard runs first); on an active user a null reason
      throws before the flag changes. */
  function SetInActive(u: User, reason: Option<string>): (r: Result<Step, ArgumentNullException>)
    ensures r.Failure? <==> u.active && reason.None?
    ensures r.Success? && r.value.done ==>
              && u.active
              && !r.value.user.active
              && r.value.user.inactiveReason == Some(InactiveReason(reason.value))
              && r.value.user.events == u.events + [AccountSetInactive]
              && r.value.user.(active := true, inactiveReason := u.inactiveReason, events := u.events) == u
    ensures r.Success? && !r.value.done ==> !u.active && r.value.user == u
  {
    if !u.active then Success(Step(u, false))
    else
      var stored :- MakeInactiveReason(reason);
      Success(Step(u.(inactiveReason := Some(stored), active := false,
                      events := u.events + [AccountSetInactive]), true))
  }

  /** `SetActive`: reactivates an inactive user and clears the reason,
      silently: no event is raised. */
  function SetActive(u: User): (r: Step)
    ensures r.done <==> !u.active
    ensures r.user.active
    ensures r.done ==> r.user.inactiveReason.None?
    ensures r.user.events == u.events
    ensures r.user.emailVerified == u.emailVerified
    ensures !r.done ==> r.user == u
  {
    if u.active then Step(u, false)
    else Step(u.(inactiveReason := None, active := true), true)
  }

  /** The account is locked because of too many wrong passwords: the check
      at the start of `RequestPasswordReset`, with the stored reason compared
      to the sentinel by its text. */
  predicate LockedOutByPasswords(u: User) {
    !u.active && u.inactiveReason == Some(InvalidPassword)
  }

  /** `RequestPasswordReset(verifyAccountStatus)`: refused, with no event,
      exactly when the status check is on and the account was locked for
      wrong passwords; otherwise one reset event is raised. Neither the flags
      nor the reason ever change. */
  function RequestPasswordReset(u: User, verifyAccountStatus: bool): (r: Step)
    ensures !r.done <==> verifyAccountStatus && !u.active && u.inactiveReason == Some(InvalidPassword)
    ensures r.done ==> Raised(u, r.user, [PasswordResetRequested])
    ensures !r.done ==> r.user == u
  {
    if verifyAccountStatus && LockedOutByPasswords(u) then Step(u, false)
    else Step(u.(events := u.events + [PasswordResetRequested]), true)
  }

  // The reset guard as the C# code writes it. `InactiveReason` declares no
  // `==` of its own and neither operand is a `string`, so
  // `InActiveReason! == InactiveReasons.InvalidPassword` binds to reference
  // equality; the implicit conversions to `string` are never applied. The
  // property `InvalidPassword` is expression-bodied and builds a new object
  // on every read, and `SetInActive` stores yet another object built from
  // its text, so the two references are never the same: the comparison is
  // always false and the guard never refuses.

  /** `RequestPasswordReset` as written: whatever the flag and the account
      state, the request is accepted and one reset event is raised, exactly
      as an unchecked request is under the intended definition. */
  function RequestPasswordResetAsWritten(u: User, verifyAccountStatus: bool): (r: Step)
    ensures r.done
    ensures Raised(u, r.user, [PasswordResetRequested])
    ensures r == RequestPasswordReset(u, false)
    ensures r == RequestPasswordReset(u, verifyAccountStatus) <==> !(verifyAccountStatus && LockedOutByPasswords(u))
  {
    Step(u.(events := u.events + [PasswordResetRequested]), true)
  }

  /** The discrepancy on a concrete account: after a lockout for wrong
      passwords, the checked request is accepted as written, while the
      intended guard refuses it and raises nothing. */
  lemma LockoutResetAcceptedAsWritten(u: User)
    requires u.active
    ensures var locked := SetInActive(u, Some(ReasonText(InvalidPassword))).value.user;
            && RequestPasswordResetAsWritten(locked, true).done
            && RequestPasswordResetAsWritten(locked, true).user.events == locked.events + [PasswordResetRequested]
            && !RequestPasswordReset(locked, true).done
            && RequestPasswordReset(locked, true).user == locked
  {
  }

  /** Caller-visible operations on the aggregate, for reasoning about any
      sequence of them. */
  datatype Command =
    | RaiseCreated
    | ResendVerification
    | Verify
    | Deactivate(reason: Option<string>)
    | Activate
    | ResetPassword(verifyAccountStatus: bool)

  /** One command. A throwing `SetInActive` leaves the aggregate as it was. */
  function Apply(u: User, c: Command): (v: User)
    ensures u.events <= v.events && |v.events| <= |u.events| + 1
    ensures v.emailAddress == u.emailAddress && v.firstName == u.firstName
            && v.middleName == u.middleName && v.lastName == u.lastName
  {
    match c
    case RaiseCreated => RaiseCreatedEvent(u)
    case ResendVerification => ResendEmailVerification(u)
    case Verify => VerifyUser(u).user
    case Deactivate(reason) =>
      var r := SetInActive(u, reason);
      if r.Success? then r.value.user else u
    case Activate => SetActive(u).user
    case ResetPassword(check) => RequestPasswordReset(u, check).user
  }

  /** A sequence of commands, applied left to right. */
  function Run(u: User, cs: seq<Command>): User
    decreases |cs|
  {
    if |cs| == 0 then u else Run(Apply(u, cs[0]), cs[1..])
  }

  /** How many verified events a queue holds. */
  function CountVerified(events: seq<DomainEvent>): nat {
    if |events| == 0 then 0
    else CountVerified(events[..|events| - 1]) + (if events[|events| - 1].UserVerified? then 1 else 0)
  }

  lemma {:induction false} CountVerifiedAppend(events: seq<DomainEvent>, more: seq<DomainEvent>)
    ensures CountVerified(events + more) == CountVerified(events) + CountVerified(more)
    decreases |more|
  {
    if |more| == 0 {
      assert events + more == events;
    } else {
      CountVerifiedAppend(events, more[..|more| - 1]);
      assert (events + more)[..|events + more| - 1] == events + more[..|more| - 1];
    }
  }

  /** One command appends at most one event; a verified event only when it
      is the command that verifies the address. */
  lemma ApplyInvariants(u: User, c: Command)
    requires Consistent(u)
    ensures var v := Apply(u, c);
            var step := v.events[|u.events|..];
            && v.events == u.events + step
            && Consistent(v)
            && (u.emailVerified ==> v.emailVerified)
            && CountVerified(step) <= 1
            && (CountVerified(step) == 1 ==> !u.emailVerified && v.emailVerified)
  {
    var v := Apply(u, c);
    var step := v.events[|u.events|..];
    assert v.events == u.events + step;
    if |step| == 1 {
      assert step[..0] == [];
    }
  }

  /** Along any sequence of commands the queue only grows, a verified
      address stays verified, an active account never holds a reason, and
      the verified event is raised at most once, and never once verified. */
  lemma {:induction false} RunInvariants(u: User, cs: seq<Command>)
    requires Consistent(u)
    ensures u.events <= Run(u, cs).events
    ensures u.emailVerified ==> Run(u, cs).emailVerified
    ensures Consistent(Run(u, cs))
    ensures var added := Run(u, cs).events[|u.events|..];
            && CountVerified(added) <= 1
            && (u.emailVerified ==> CountVerified(added) == 0)
    decreases |cs|
  {
    if |cs| == 0 {
      assert Run(u, cs).events[|u.events|..] == [];
    } else {
      var v := Apply(u, cs[0]);
      var w := Run(v, cs[1..]);
      assert w == Run(u, cs);
      ApplyInvariants(u, cs[0]);
      RunInvariants(v, cs[1..]);
      var step := v.events[|u.events|..];
      var later := w.events[|v.events|..];
      assert w.events[|u.events|..] == step + later;
      CountVerifiedAppend(step, later);
    }
  }

  /** Verifying twice: the first call succeeds with one event, the second is
      refused and raises nothing. */
  lemma VerifyTwice(u: User)
    requires !u.emailVerified
    ensures var first := VerifyUser(u);
            var second := VerifyUser(first.user);
            && first.done && |first.user.events| == |u.events| + 1
            && !second.done && second.user == first.user
  {
  }

  /** Deactivating twice keeps the first reason. */
  lemma DeactivateTwice(u: User, x: string, y: string)
    requires u.active
    ensures var first := SetInActive(u, Some(x));
            var second := SetInActive(first.value.user, Some(y));
            && first.Success? && first.value.done
            && second.Success? && !second.value.done
            && second.value.user.inactiveReason == Some(InactiveReason(x))
            && |second.value.user.events| == |u.events| + 1
  {
  }

  /** After a wrong-password lockout the checked request is refused and the
      unchecked one goes through with one event. */
  lemma ResetAfterLockout(u: User)
    requires u.active
    ensures var locked := SetInActive(u, Some(ReasonText(InvalidPassword))).value.user;
            && !RequestPasswordReset(locked, true).done
            && RequestPasswordReset(locked, true).user == locked
            && RequestPasswordReset(locked, false).done
            && RequestPasswordReset(locked, false).user.events == locked.events + [PasswordResetRequested]
  {
  }

  /** Any other reason, such as `ContactSupport`, does not block the reset. */
  lemma ResetAfterOtherDeactivation(u: User)
    requires u.active
    ensures var locked := SetInActive(u, Some(ReasonText(ContactSupport))).value.user;
            RequestPasswordReset(locked, true).done
  {
  }

  /** Reactivation after deactivation clears the reason and raises nothing,
      unlike the deactivation itself. */
  lemma ActivateAfterDeactivate(u: User, reason: string)
    requires u.active
    ensures var off := SetInActive(u, Some(reason)).value.user;
            var on := SetActive(off);
            && on.done && on.user.inactiveReason.None? && on.user.active
            && on.user.events == u.events + [AccountSetInactive]
  {
  }
}
