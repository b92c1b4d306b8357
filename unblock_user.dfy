/**
 * Features/Users/UnblockUser.cs: an administrator unblocks the user with the given
 * e-mail.  The lookup compares e-mails case-insensitively, as the column's
 * collation does.
 */
module UnblockUser {
  import opened Wrappers
  import opened Results
  import opened Entities
  import opened Data
  import opened FluentRules
  import ValidationPipeline

  datatype Command = Command(email: Option<string>)

  const NotFound: string := "Пользователь не найден."

  /** `RuleFor(c => c.Email).NotEmpty().EmailAddress().WithMessage(...)`, with the default cascade. */
  function EmailChain(): Chain {
    Chain("Email", "Email", false, [Check(NotEmpty, None), Check(EmailAddress, Some(EmailFormatMessage))])
  }

  /**
   * `Validator`: no failure exactly when the e-mail is present, not blank and
   * accepted by the e-mail check; a null e-mail is reported once (`NotEmpty`),
   * since `EmailAddress` lets null through.
   */
  function Validate(cmd: Command, isEmail: string -> bool): (fs: seq<ValidationFailure>)
    ensures |fs| == 0 <==> cmd.email.Some? && !IsBlank(cmd.email.value) && isEmail(cmd.email.value)
    ensures |fs| <= 2
    ensures cmd.email.None? ==> |fs| == 1 && fs[0].errorCode == "NotEmptyValidator"
    ensures cmd.email.Some? && !IsBlank(cmd.email.value) && !isEmail(cmd.email.value) ==>
              fs == [ValidationFailure("Email", EmailFormatMessage, "EmailValidator")]
  {
    var c := EmailChain();
    var v := TextValue(cmd.email);
    assert |Evaluate(c, v, isEmail)| == 0 <==> Passes(c.checks[0].rule, v, isEmail) && Passes(c.checks[1].rule, v, isEmail);
    assert EvaluateChecks(c, c.checks[2..], v, isEmail) == [];
    assert v.Null? ==> EvaluateChecks(c, c.checks[1..], v, isEmail) == [];
    Evaluate(c, v, isEmail)
  }

  /** The change the handler makes to the row it finds. */
  function SetUnblocked(u: User): User {
    u.(isBlocked := false)
  }

  /**
   * The handler on a store value: a failure that changes nothing when no user
   * has the e-mail; otherwise that user's `IsBlocked` becomes false and
   * nothing else changes (role, e-mail, hash, resumes, other users).
   */
  function Apply(t: Tables, cmd: Command): (r: (Outcome<()>, Tables))
    requires t.Valid()
    ensures r.1.Valid()
    ensures r.0 == Ok(None) || r.0 == FailWith(NotFound)
    ensures r.0.Ok? <==> exists k :: 0 <= k < |t.users| && EmailMatches(cmd.email, t.users[k])
    ensures r.0.Fail? ==> r.1 == t
    ensures r.0.Ok? ==> cmd.email.Some? && UsersUpdated(t, r.1, HasEmail(cmd.email.value), SetUnblocked)
  {
    match t.UserByEmail(cmd.email)
    case None => (FailWith(NotFound), t)
    case Some(i) =>
      UpdateUserAt(t, i, cmd.email.value, SetUnblocked);
      (Ok(None), t.(users := t.users[i := SetUnblocked(t.users[i])]))
  }

  /** `Handler.Handle`: find the tracked user, set the flag, save. */
  method Handle(db: AppDbContext, cmd: Command) returns (r: Outcome<()>)
    requires db.Valid()
    modifies db
    ensures db.Valid()
    ensures (r, db.State()) == Apply(old(db.State()), cmd)
  {
    ghost var before := db.State();
    var found := db.State().UserByEmail(cmd.email);
    if found.None? {
      return FailWith(NotFound);
    }
    var i := found.value;
    db.users := db.users[i := db.users[i].(isBlocked := false)];
    StateValid(db, Apply(before, cmd).1);
    r := Ok(None);
  }

  /** The pipeline around the handler: the validator's failures short-circuit, otherwise the handler runs. */
  method Send(db: AppDbContext, cmd: Command, isEmail: string -> bool) returns (r: Outcome<()>)
    requires db.Valid()
    modifies db
    ensures db.Valid()
    ensures |Validate(cmd, isEmail)| > 0 ==> r == Fail(ValidationPipeline.ToErrors(Validate(cmd, isEmail))) && db.State() == old(db.State())
    ensures |Validate(cmd, isEmail)| == 0 ==> (r, db.State()) == Apply(old(db.State()), cmd)
  {
    match ValidationPipeline.ShortCircuit(Some(ValidationPipeline.ValidationResult(Validate(cmd, isEmail)))) {
      case Some(errors) => r := Fail(errors);
      case None => r := Handle(db, cmd);
    }
  }

  /** Unblocking twice is the same as unblocking once; unblocking a user who was never blocked changes nothing. */
  lemma {:induction false} UnblockIdempotent(t: Tables, cmd: Command)
    requires t.Valid()
    ensures Apply(Apply(t, cmd).1, cmd) == Apply(t, cmd)
  {
    var t1 := Apply(t, cmd).1;
    match t.UserByEmail(cmd.email)
    case None =>
    case Some(i) =>
      assert t1.users[i] == SetUnblocked(t.users[i]);
      assert t1.UserByEmail(cmd.email) == Some(i);
      assert t1.users[i := SetUnblocked(t1.users[i])] == t1.users;
  }

  /** Unblocking a user who is not blocked succeeds and leaves the store exactly as it was. */
  lemma {:induction false} UnblockNotBlocked(t: Tables, cmd: Command)
    requires t.Valid()
    requires forall k :: 0 <= k < |t.users| && EmailMatches(cmd.email, t.users[k]) ==> !t.users[k].isBlocked
    ensures Apply(t, cmd).1 == t
  {
    match t.UserByEmail(cmd.email)
    case None =>
    case Some(i) =>
      assert t.users[i := SetUnblocked(t.users[i])] == t.users;
  }
}
