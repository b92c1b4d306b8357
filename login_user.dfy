/**
 * Features/Auth/LoginUser.cs: a user logs in with e-mail and password.  The
 * handler looks the e-mail up ignoring case, checks the password against the
 * stored BCrypt hash and issues a token carrying the user's e-mail, id and
 * role that expires thirty minutes after the current time.  The signed JWT
 * text is not modelled: the token is its claims and its expiry.
 */
module LoginUser {
  import opened Wrappers
  import opened Results
  import opened Entities
  import opened Data
  import opened FluentRules
  import opened AuthHelper
  import ValidationPipeline
  import BlockUser
  import RegisterUser

  datatype Query = Query(email: Option<string>, password: Option<string>)

  /** A `System.Security.Claims.Claim`: its type URI and its value. */
  datatype Claim = Claim(claimType: string, value: string)

  /** What the issued JWT carries. */
  datatype Token = Token(claims: seq<Claim>, expires: DateTime)

  const InvalidCredentials: string := "Пользователь не найден или пароль указан неверно."

  /** `ClaimTypes.Name`, `ClaimTypes.NameIdentifier` and `ClaimTypes.Role`. */
  const NameClaim: string := "http://schemas.xmlsoap.org/ws/2005/05/identity/claims/name"
  const NameIdentifierClaim: string := "http://schemas.xmlsoap.org/ws/2005/05/identity/claims/nameidentifier"
  const RoleClaim: string := "http://schemas.microsoft.com/ws/2008/06/identity/claims/role"

  /** Thirty minutes, in ticks of 100 nanoseconds. */
  const TokenLifetime: int := 18_000_000_000

  /** `RuleFor(x => x.Email).Cascade(Stop).NotEmpty().EmailAddress()`. */
  function EmailChain(): Chain {
    Chain("Email", "Email", true, [Check(NotEmpty, None), Check(EmailAddress, None)])
  }

  /** `RuleFor(c => c.Password).NotEmpty()`. */
  function PasswordChain(): Chain {
    Chain("Password", "Password", false, [Check(NotEmpty, None)])
  }

  /**
   * `Validator`: no failure exactly when the e-mail is present, not blank and
   * in e-mail format and the password is present and not blank; at most one
   * failure per property.
   */
  function Validate(q: Query, isEmail: string -> bool): (fs: seq<ValidationFailure>)
    ensures |fs| == 0 <==> q.email.Some? && !IsBlank(q.email.value) && isEmail(q.email.value)
                           && q.password.Some? && !IsBlank(q.password.value)
    ensures |fs| <= 2
  {
    var e := EmailChain();
    var p := PasswordChain();
    assert |Evaluate(e, TextValue(q.email), isEmail)| == 0 <==>
           Passes(e.checks[0].rule, TextValue(q.email), isEmail) && Passes(e.checks[1].rule, TextValue(q.email), isEmail);
    assert |Evaluate(p, TextValue(q.password), isEmail)| == 0 <==> Passes(p.checks[0].rule, TextValue(q.password), isEmail);
    Evaluate(e, TextValue(q.email), isEmail) + Evaluate(p, TextValue(q.password), isEmail)
  }

  /** The claims of the token: the e-mail as the name, the id as the identifier, the role's name. */
  function ClaimsOf(u: User): seq<Claim> {
    [Claim(NameClaim, u.email), Claim(NameIdentifierClaim, IntToString(u.id)), Claim(RoleClaim, u.role.Name())]
  }

  /** `DateTime.AddMinutes(30)`, which throws when the result leaves the range of `DateTime`. */
  function Expiry(now: DateTime): (e: Option<DateTime>)
    ensures e.Some? <==> 0 <= now.ticks + TokenLifetime <= MaxTicks
    ensures e.Some? ==> e.value.ticks - now.ticks == 30 * 60 * 10_000_000
  {
    var ticks := now.ticks + TokenLifetime;
    if 0 <= ticks <= MaxTicks then Some(DateTime(ticks)) else None
  }

  /** The user the handler finds and whose password it accepts, if any. */
  predicate Authenticates(t: Tables, q: Query, h: PasswordHasher) {
    t.UserByEmail(q.email).Some? && q.password.Some?
    && h.verify(q.password.value, t.users[t.UserByEmail(q.email).value].hashPassword)
  }

  /**
   * The handler on a store value, at time `now`.  An unknown e-mail and a
   * wrong password give the same failure; checking a null password throws;
   * otherwise the token names the user found, and the store is only read.
   * The user's `IsBlocked` flag plays no part.
   */
  function Handle(t: Tables, q: Query, h: PasswordHasher, now: DateTime): (r: Outcome<Token>)
    ensures r.Fail? <==> t.UserByEmail(q.email).None? || (q.password.Some? && !Authenticates(t, q, h))
    ensures r.Fail? ==> r == FailWith(InvalidCredentials)
    ensures r.Thrown? ==> r.ex == if q.password.None? then ArgumentNull else ArgumentOutOfRange
    ensures r.Ok? <==> Authenticates(t, q, h) && Expiry(now).Some?
    ensures r.Ok? ==>
              var u := t.users[t.UserByEmail(q.email).value];
              r == Ok(Some(Token(ClaimsOf(u), Expiry(now).value)))
  {
    match t.UserByEmail(q.email)
    case None => FailWith(InvalidCredentials)
    case Some(i) =>
      if q.password.None? then Thrown(ArgumentNull)
      else if !AuthHelper.CheckPassword(h, t.users[i], q.password.value) then FailWith(InvalidCredentials)
      else match Expiry(now)
        case None => Thrown(ArgumentOutOfRange)
        case Some(exp) => Ok(Some(Token(ClaimsOf(t.users[i]), exp)))
  }

  /**
   * The pipeline around the handler: the validator's failures short-circuit;
   * otherwise the handler runs, and since a validated password is never null
   * checking it never throws.
   */
  function Send(t: Tables, q: Query, isEmail: string -> bool, h: PasswordHasher, now: DateTime): (r: Outcome<Token>)
    ensures |Validate(q, isEmail)| > 0 ==> r == Fail(ValidationPipeline.ToErrors(Validate(q, isEmail)))
    ensures |Validate(q, isEmail)| == 0 ==> r == Handle(t, q, h, now)
    ensures r.Thrown? ==> r.ex == ArgumentOutOfRange
  {
    ValidationPipeline.Handle(Some(ValidationPipeline.ValidationResult(Validate(q, isEmail))), () => Handle(t, q, h, now))
  }

  /** In a valid store, any row whose e-mail matches the requested one, ignoring case, is the row the lookup finds. */
  lemma LookupFindsTheMatch(t: Tables, email: string, k: nat)
    requires t.Valid() && k < |t.users| && SameEmail(t.users[k].email, email)
    ensures t.UserByEmail(Some(email)) == Some(k)
  {
    EmailIsKey(t, t.UserByEmail(Some(email)).value, email);
  }

  /** Blocking a user does not stop them logging in: the handler's answer is the same before and after. */
  lemma {:induction false} LoginIgnoresBlocking(t: Tables, cmd: BlockUser.Command, q: Query, h: PasswordHasher, now: DateTime)
    requires t.Valid()
    ensures Handle(BlockUser.Apply(t, cmd).1, q, h, now) == Handle(t, q, h, now)
  {
    var t2 := BlockUser.Apply(t, cmd).1;
    forall k | 0 <= k < |t.users|
      ensures t2.users[k].email == t.users[k].email && t2.users[k].hashPassword == t.users[k].hashPassword
      ensures ClaimsOf(t2.users[k]) == ClaimsOf(t.users[k])
    {
    }
    UserByEmailAgrees(t, t2, q.email);
  }

  /**
   * Any stored user logs in with the password whose hash is stored, before
   * `DateTime` runs out: the token names that user and expires thirty minutes
   * after `now`.
   */
  lemma LoginWithStoredPassword(t: Tables, k: nat, password: string, salt: string, h: PasswordHasher, now: DateTime)
    requires IsBCrypt(h) && t.Valid() && k < |t.users| && t.users[k].hashPassword == h.hash(password, salt)
    requires 0 <= now.ticks + TokenLifetime <= MaxTicks
    ensures Handle(t, Query(Some(t.users[k].email), Some(password)), h, now)
            == Ok(Some(Token(ClaimsOf(t.users[k]), DateTime(now.ticks + TokenLifetime))))
  {
    assert h.verify(password, h.hash(password, salt));
    LookupFindsTheMatch(t, t.users[k].email, k);
  }

  /**
   * A user who has just registered can log in with the same e-mail and
   * password, and the token names the new user with the `User` role.
   */
  lemma RegisterThenLogin(t: Tables, cmd: RegisterUser.Command, h: PasswordHasher, salt: string, now: DateTime)
    requires IsBCrypt(h) && t.Valid() && RegisterUser.Apply(t, cmd, h, salt).0.Ok?
    requires 0 <= now.ticks + TokenLifetime <= MaxTicks
    ensures var t2 := RegisterUser.Apply(t, cmd, h, salt).1;
            var r := Handle(t2, Query(cmd.email, cmd.password), h, now);
            && r.Ok? && r.value.Some?
            && r.value.value.claims
               == [Claim(NameClaim, cmd.email.value), Claim(NameIdentifierClaim, IntToString(t.nextUserId)), Claim(RoleClaim, "User")]
  {
    var t2 := RegisterUser.Apply(t, cmd, h, salt).1;
    LoginWithStoredPassword(t2, |t.users|, cmd.password.value, salt, h, now);
  }

  /** The administrator's id as the identifier claim renders it. */
  lemma AdminIdText()
    ensures IntToString(AdminId) == "228"
  {
    assert IntToString(22) == "22" by {
      assert IntToString(2) == "2";
    }
  }

  /** On the seeded store the administrator logs in with the seeded password and receives the `Admin` role. */
  lemma AdminCanLogIn(h: PasswordHasher, salt: string, now: DateTime)
    requires IsBCrypt(h) && 0 <= now.ticks + TokenLifetime <= MaxTicks
    ensures |h.hash(AdminPassword, salt)| <= 200
    ensures var r := Handle(Seed(h, salt), Query(Some(AdminEmail), Some(AdminPassword)), h, now);
            && r.Ok? && r.value.Some?
            && r.value.value.claims
               == [Claim(NameClaim, AdminEmail), Claim(NameIdentifierClaim, "228"), Claim(RoleClaim, "Admin")]
  {
    var t := Seed(h, salt);
    LoginWithStoredPassword(t, 0, AdminPassword, salt, h, now);
    AdminIdText();
  }
}
