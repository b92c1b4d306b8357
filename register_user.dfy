/**
 * Features/Auth/RegisterUser.cs: anyone registers with an e-mail and a
 * password.  The validator checks the e-mail's length and format and the
 * password's length, digits and special characters, each chain stopping at
 * its first failing rule; the handler refuses an e-mail that is already
 * registered (in any letter case), hashes the password and appends a user
 * with the `User` role.
 */
module RegisterUser {
  import opened Wrappers
  import opened Results
  import opened Entities
  import opened Contracts
  import opened Data
  import opened FluentRules
  import opened AuthHelper
  import Linq
  import ValidationPipeline

  datatype Command = Command(email: Option<string>, password: Option<string>)

  const AlreadyExists: string := "Пользователь с таким адресом почты уже существует."
  const PasswordTooShort: string := "Пароль должен содержать не меньше 4 символов."
  const PasswordNoDigit: string := "Пароль должен содержать цифры."
  const PasswordNoSpecial: string := "Пароль должен содержать специальные символы."

  /** The character class of the pattern `[0-9]+`. */
  const Digits: set<char> := {'0', '1', '2', '3', '4', '5', '6', '7', '8', '9'}

  /** The character class of the special-character pattern, one search for any of these. */
  const Specials: set<char> :=
    {'!', '@', '#', '$', '%', '^', '&', '*', '(', ')', '_', '+', '=', '[', '{', ']', '}',
     ';', ':', '<', '>', '|', '.', '/', '?', ',', '-'}

  /** `RuleFor(c => c.Email).Cascade(Stop).NotEmpty().Length(1, 200).EmailAddress().WithMessage(...)`. */
  function EmailChain(): Chain {
    Chain("Email", "Email", true,
          [Check(NotEmpty, None), Check(Length(1, 200), None), Check(EmailAddress, Some(EmailFormatMessage))])
  }

  /** `RuleFor(c => c.Password).Cascade(Stop).NotEmpty().MinimumLength(4).Matches(...).Matches(...)`, each with its message. */
  function PasswordChain(): Chain {
    Chain("Password", "Password", true,
          [Check(NotEmpty, None), Check(MinimumLength(4), Some(PasswordTooShort)),
           Check(Matches("[0-9]+", Digits), Some(PasswordNoDigit)),
           Check(Matches("[!@#$%^&*()_+=\\[{\\]};:<>|./?,-]", Specials), Some(PasswordNoSpecial))])
  }

  /** An e-mail the validator accepts: present, not blank, at most 200 characters, and in e-mail format. */
  predicate AcceptableEmail(e: Option<string>, isEmail: string -> bool) {
    e.Some? && !IsBlank(e.value) && 1 <= |e.value| <= 200 && isEmail(e.value)
  }

  /** A password the validator accepts: present, not blank, at least 4 characters, with a digit and a special character. */
  predicate AcceptablePassword(p: Option<string>) {
    p.Some? && !IsBlank(p.value) && 4 <= |p.value| && ContainsAny(p.value, Digits) && ContainsAny(p.value, Specials)
  }

  /** The e-mail chain: no failure exactly for an acceptable e-mail, otherwise exactly one. */
  function EmailFailures(e: Option<string>, isEmail: string -> bool): (fs: seq<ValidationFailure>)
    ensures |fs| == 0 <==> AcceptableEmail(e, isEmail)
    ensures |fs| <= 1
  {
    var c := EmailChain();
    var v := TextValue(e);
    assert |Evaluate(c, v, isEmail)| == 0 <==>
           Passes(c.checks[0].rule, v, isEmail) && Passes(c.checks[1].rule, v, isEmail) && Passes(c.checks[2].rule, v, isEmail);
    Evaluate(c, v, isEmail)
  }

  /** The password chain: no failure exactly for an acceptable password, otherwise exactly one. */
  function PasswordFailures(p: Option<string>, isEmail: string -> bool): (fs: seq<ValidationFailure>)
    ensures |fs| == 0 <==> AcceptablePassword(p)
    ensures |fs| <= 1
  {
    var c := PasswordChain();
    var v := TextValue(p);
    assert |Evaluate(c, v, isEmail)| == 0 <==>
           Passes(c.checks[0].rule, v, isEmail) && Passes(c.checks[1].rule, v, isEmail)
           && Passes(c.checks[2].rule, v, isEmail) && Passes(c.checks[3].rule, v, isEmail);
    Evaluate(c, v, isEmail)
  }

  /** `Validator`: the e-mail's failure, then the password's; at most one each. */
  function Validate(cmd: Command, isEmail: string -> bool): (fs: seq<ValidationFailure>)
    ensures |fs| == 0 <==> AcceptableEmail(cmd.email, isEmail) && AcceptablePassword(cmd.password)
    ensures |fs| <= 2
  {
    EmailFailures(cmd.email, isEmail) + PasswordFailures(cmd.password, isEmail)
  }

  /**
   * A present, non-blank password that breaks a rule is reported by the first
   * rule it breaks, with that rule's own message and nothing else.
   */
  lemma {:induction false} PasswordReportsFirstBrokenRule(p: string, isEmail: string -> bool)
    requires !IsBlank(p) && !AcceptablePassword(Some(p))
    ensures var fs := PasswordFailures(Some(p), isEmail);
            && |fs| == 1 && fs[0].propertyName == "Password"
            && fs[0].errorMessage == (if |p| < 4 then PasswordTooShort
                                      else if !ContainsAny(p, Digits) then PasswordNoDigit
                                      else PasswordNoSpecial)
  {
    var c := PasswordChain();
    var v := Text(p);
    assert Passes(c.checks[0].rule, v, isEmail);
    if |p| < 4 {
      StopReportsFirstFailing(c, c.checks, v, isEmail, 1);
    } else if !ContainsAny(p, Digits) {
      StopReportsFirstFailing(c, c.checks, v, isEmail, 2);
    } else {
      StopReportsFirstFailing(c, c.checks, v, isEmail, 3);
    }
  }

  /** The row the handler adds: the next id, the hash of the password, not blocked, role `User`. */
  function NewUser(t: Tables, email: string, password: string, h: PasswordHasher, salt: string): User {
    User(t.nextUserId, email, h.hash(password, salt), false, UserRole)
  }

  /**
   * The handler on a store value.  A registered e-mail (compared ignoring
   * case) is a failure; hashing a null password throws; a null or over-long
   * e-mail, or an over-long hash, makes the save throw.  Only a success
   * changes the store, by appending exactly the new user.
   */
  function Apply(t: Tables, cmd: Command, h: PasswordHasher, salt: string): (r: (Outcome<UserResponse>, Tables))
    requires t.Valid()
    ensures r.1.Valid()
    ensures r.0.Fail? <==> t.UserByEmail(cmd.email).Some?
    ensures r.0.Fail? ==> r.0 == FailWith(AlreadyExists)
    ensures !r.0.Ok? ==> r.1 == t
    ensures r.0.Thrown? ==> r.0.ex == if cmd.password.None? then ArgumentNull else DbUpdate
    ensures r.0.Ok? <==> t.UserByEmail(cmd.email).None? && cmd.email.Some? && cmd.password.Some?
                         && NewUser(t, cmd.email.value, cmd.password.value, h, salt).WithinBounds()
    ensures r.0.Ok? ==>
              var u := NewUser(t, cmd.email.value, cmd.password.value, h, salt);
              && r.1 == t.(users := t.users + [u], nextUserId := t.nextUserId + 1)
              && r.0 == Ok(Some(UserToResponse(u)))
  {
    match t.UserByEmail(cmd.email)
    case Some(_) => (FailWith(AlreadyExists), t)
    case None =>
      if cmd.password.None? then (Thrown(ArgumentNull), t)
      else if cmd.email.None? then (Thrown(DbUpdate), t)
      else
        var u := NewUser(t, cmd.email.value, cmd.password.value, h, salt);
        if !u.WithinBounds() then (Thrown(DbUpdate), t)
        else
          AppendUserKeepsValid(t, u);
          (Ok(Some(UserToResponse(u))), t.(users := t.users + [u], nextUserId := t.nextUserId + 1))
  }

  /** `Handler.Handle`: look the e-mail up, hash the password, add the user, save. */
  method Handle(db: AppDbContext, cmd: Command, h: PasswordHasher, salt: string) returns (r: Outcome<UserResponse>)
    requires db.Valid()
    modifies db
    ensures db.Valid()
    ensures (r, db.State()) == Apply(old(db.State()), cmd, h, salt)
  {
    ghost var before := db.State();
    var existing := db.State().UserByEmail(cmd.email);
    if existing.Some? {
      return FailWith(AlreadyExists);
    }
    if cmd.password.None? {
      return Thrown(ArgumentNull);
    }
    var hash := h.hash(cmd.password.value, salt);
    if cmd.email.None? {
      return Thrown(DbUpdate);
    }
    var u := User(db.nextUserId, cmd.email.value, hash, false, UserRole);
    if !u.WithinBounds() {
      return Thrown(DbUpdate);
    }
    db.users := db.users + [u];
    db.nextUserId := db.nextUserId + 1;
    StateValid(db, Apply(before, cmd, h, salt).1);
    r := Ok(Some(UserToResponse(u)));
  }

  /**
   * The pipeline around the handler: the validator's failures short-circuit;
   * otherwise the handler runs, and since a validated password is never null
   * the only exception left is the save's.
   */
  method Send(db: AppDbContext, cmd: Command, isEmail: string -> bool, h: PasswordHasher, salt: string)
    returns (r: Outcome<UserResponse>)
    requires db.Valid()
    modifies db
    ensures db.Valid()
    ensures |Validate(cmd, isEmail)| > 0 ==> r == Fail(ValidationPipeline.ToErrors(Validate(cmd, isEmail))) && db.State() == old(db.State())
    ensures |Validate(cmd, isEmail)| == 0 ==> (r, db.State()) == Apply(old(db.State()), cmd, h, salt)
    ensures r.Thrown? ==> r.ex == DbUpdate
  {
    match ValidationPipeline.ShortCircuit(Some(ValidationPipeline.ValidationResult(Validate(cmd, isEmail)))) {
      case Some(errors) => r := Fail(errors);
      case None => r := Handle(db, cmd, h, salt);
    }
  }

  /** Registering an e-mail a second time, in any letter case and with any password, fails and changes nothing. */
  lemma {:induction false} RegisterTwiceFails(t: Tables, cmd: Command, cmd2: Command, h: PasswordHasher, salt: string, salt2: string)
    requires t.Valid() && Apply(t, cmd, h, salt).0.Ok?
    requires cmd2.email.Some? && SameEmail(cmd.email.value, cmd2.email.value)
    ensures var t2 := Apply(t, cmd, h, salt).1;
            Apply(t2, cmd2, h, salt2) == (FailWith(AlreadyExists), t2)
  {
    var t2 := Apply(t, cmd, h, salt).1;
    assert SameEmail(t2.users[|t.users|].email, cmd2.email.value);
  }

  /**
   * The validator admits e-mails of up to 200 characters but the column holds
   * 150: a new e-mail of 151 to 200 characters passes validation and then
   * makes the save throw.
   */
  lemma OverlongEmailThrows(t: Tables, cmd: Command, isEmail: string -> bool, h: PasswordHasher, salt: string)
    requires t.Valid() && |Validate(cmd, isEmail)| == 0
    requires cmd.email.Some? && |cmd.email.value| > 150 && t.UserByEmail(cmd.email).None?
    ensures Apply(t, cmd, h, salt).0 == Thrown(DbUpdate)
  {
  }

  /** A new user owns no resume: no stored resume refers to the id the user receives. */
  lemma {:induction false} NewUserOwnsNoResumes(t: Tables, cmd: Command, h: PasswordHasher, salt: string)
    requires t.Valid() && Apply(t, cmd, h, salt).0.Ok?
    ensures Apply(t, cmd, h, salt).1.OwnedBy(t.nextUserId) == []
  {
    var t2 := Apply(t, cmd, h, salt).1;
    forall j | 0 <= j < |t2.resumes| ensures t2.resumes[j].userId != t.nextUserId {
      assert t2.resumes[j].userId in t.UserIds();
    }
    Linq.WhereNone(t2.resumes, (x: Resume) => x.userId == t.nextUserId);
  }
}
