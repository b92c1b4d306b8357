/**
 * Features/Users/DeleteUser.cs (the src copy): an administrator deletes the
 * user with the given e-mail.  The required `Resume.UserId` and
 * `ResumePhoto.ResumeId` relationships cascade, so the user's resumes and
 * their photos go too.  The endpoint is restricted to administrators by the
 * routing policy, which is outside the model.
 */
module DeleteUser {
  import opened Wrappers
  import opened Results
  import opened Entities
  import opened Data
  import opened Linq
  import opened FluentRules
  import ValidationPipeline

  datatype Command = Command(email: Option<string>)

  const NotFound: string := "Пользователь с таким адресом почты не существует."

  /**
   * `Validator`: `NotEmpty` then `EmailAddress` (with its own message), both
   * evaluated; no failure exactly when the e-mail is present, not blank and
   * accepted by the e-mail check.
   */
  function Validate(cmd: Command, isEmail: string -> bool): (fs: seq<ValidationFailure>)
    ensures |fs| == 0 <==> cmd.email.Some? && !IsBlank(cmd.email.value) && isEmail(cmd.email.value)
    ensures |fs| <= 2
  {
    var c := Chain("Email", "Email", false, [Check(NotEmpty, None), Check(EmailAddress, Some(EmailFormatMessage))]);
    var v := TextValue(cmd.email);
    assert |Evaluate(c, v, isEmail)| == 0 <==> Passes(c.checks[0].rule, v, isEmail) && Passes(c.checks[1].rule, v, isEmail);
    Evaluate(c, v, isEmail)
  }

  /** The photos whose resume is still among `rs`. */
  function PhotosOf(photos: map<int, ResumePhoto>, rs: seq<Resume>): (m: map<int, ResumePhoto>)
    ensures forall k :: k in m <==> k in photos && exists j :: 0 <= j < |rs| && rs[j].id == k
    ensures forall k :: k in m ==> m[k] == photos[k]
  {
    map k | k in photos && (exists j :: 0 <= j < |rs| && rs[j].id == k) :: photos[k]
  }

  /** The filter that keeps the resumes not owned by the user `uid`. */
  function NotOwnedBy(uid: int): Resume -> bool {
    (x: Resume) => x.userId != uid
  }

  /** The store once the user at `i` is removed, with the cascade applied. */
  function Without(t: Tables, i: nat): Tables
    requires i < |t.users|
  {
    var rs := Where(t.resumes, NotOwnedBy(t.users[i].id));
    t.(users := t.users[..i] + t.users[i + 1..], resumes := rs, photos := PhotosOf(t.photos, rs))
  }

  /** The users left once the one at `i` is removed are the others, in order. */
  lemma RemainingUsers(t: Tables, i: nat)
    requires i < |t.users|
    ensures var us := Without(t, i).users;
            |us| == |t.users| - 1 && forall j :: 0 <= j < |us| ==> us[j] == t.users[if j < i then j else j + 1]
  {
  }

  /** The user rows left behind keep distinct ids and e-mails, their bounds and the counter. */
  lemma RemainingUsersValid(t: Tables, i: nat)
    requires t.Valid() && i < |t.users|
    ensures var t2 := Without(t, i);
            t2.UniqueUserIds() && t2.UniqueEmails()
            && (forall j :: 0 <= j < |t2.users| ==> t2.users[j].WithinBounds() && t2.users[j].id < t2.nextUserId)
  {
    var us := Without(t, i).users;
    RemainingUsers(t, i);
    forall a, b | 0 <= a < b < |us| ensures us[a].id != us[b].id && !SameEmail(us[a].email, us[b].email) {
      var a', b' := if a < i then a else a + 1, if b < i then b else b + 1;
      assert us[a] == t.users[a'] && us[b] == t.users[b'] && a' < b';
      assert t.UniqueUserIds() && t.UniqueEmails();
    }
  }

  /** A user other than the removed one is still there. */
  lemma UserStays(t: Tables, i: nat, j: nat)
    requires i < |t.users| && j < |t.users| && j != i
    ensures t.users[j].id in Without(t, i).UserIds()
  {
    var us := Without(t, i).users;
    assert us[if j < i then j else j - 1] == t.users[j];
  }

  /** Every resume left behind is owned by a user left behind. */
  lemma RemainingOwnersExist(t: Tables, i: nat)
    requires t.Valid() && i < |t.users|
    ensures Without(t, i).OwnersExist()
  {
    var t2 := Without(t, i);
    var uid := t.users[i].id;
    RemainingUsers(t, i);
    forall k | 0 <= k < |t2.resumes| ensures t2.resumes[k].userId in t2.UserIds() {
      var x := t2.resumes[k];
      assert x in t.resumes && x.userId != uid;
      var j :| 0 <= j < |t.users| && t.users[j].id == x.userId;
      UserStays(t, i, j);
    }
  }

  function ResumeKey(x: Resume): int {
    x.id
  }

  /** The resume rows left behind are a subset of the old ones, so they keep their keys, bounds and photos. */
  lemma RemainingResumesValid(t: Tables, i: nat)
    requires t.Valid() && i < |t.users|
    ensures var t2 := Without(t, i);
            t2.UniqueResumeIds() && t2.PhotosKeyed()
            && (forall k :: 0 <= k < |t2.resumes| ==> t2.resumes[k].WithinBounds() && 0 < t2.resumes[k].id < t2.nextResumeId)
  {
    var t2 := Without(t, i);
    assert KeysDistinct(t.resumes, ResumeKey) by {
      forall a, b | 0 <= a < b < |t.resumes| ensures ResumeKey(t.resumes[a]) != ResumeKey(t.resumes[b]) {
        assert t.UniqueResumeIds();
      }
    }
    WhereKeepsKeysDistinct(t.resumes, NotOwnedBy(t.users[i].id), ResumeKey);
    assert t2.UniqueResumeIds() by {
      forall a, b | 0 <= a < b < |t2.resumes| ensures t2.resumes[a].id != t2.resumes[b].id {
        assert ResumeKey(t2.resumes[a]) != ResumeKey(t2.resumes[b]);
      }
    }
    forall k | k in t2.photos ensures k in t2.ResumeIds() {
      var j :| 0 <= j < |t2.resumes| && t2.resumes[j].id == k;
      assert t2.resumes[j] in t2.resumes;
    }
    forall k | 0 <= k < |t2.resumes| ensures t2.resumes[k].WithinBounds() && 0 < t2.resumes[k].id < t2.nextResumeId {
      var n :| 0 <= n < |t.resumes| && t.resumes[n] == t2.resumes[k];
    }
  }

  /** Removing a user together with its resumes and their photos keeps the store valid. */
  lemma RemoveUserKeepsValid(t: Tables, i: nat)
    requires t.Valid() && i < |t.users|
    ensures Without(t, i).Valid()
  {
    RemainingUsersValid(t, i);
    RemainingOwnersExist(t, i);
    RemainingResumesValid(t, i);
  }

  /**
   * The handler on a store value: a failure that changes nothing when no user
   * has the e-mail; otherwise exactly that user is removed (every other user
   * stays, in order, and the count drops by one), with the resumes it owned
   * and their photos.
   */
  function Apply(t: Tables, cmd: Command): (r: (Outcome<()>, Tables))
    requires t.Valid()
    ensures r.1.Valid()
    ensures r.0 == Ok(None) || r.0 == FailWith(NotFound)
    ensures r.0.Ok? <==> exists k :: 0 <= k < |t.users| && EmailMatches(cmd.email, t.users[k])
    ensures r.0.Fail? ==> r.1 == t
    ensures r.0.Ok? ==>
              var uid := t.users[t.UserByEmail(cmd.email).value].id;
              && r.1.users == Where(t.users, (u: User) => !EmailMatches(cmd.email, u))
              && |r.1.users| == |t.users| - 1
              && r.1.resumes == Where(t.resumes, NotOwnedBy(uid))
              && r.1.photos == PhotosOf(t.photos, r.1.resumes)
              && r.1.nextUserId == t.nextUserId && r.1.nextResumeId == t.nextResumeId
  {
    match t.UserByEmail(cmd.email)
    case None => (FailWith(NotFound), t)
    case Some(i) =>
      EmailIsKey(t, i, cmd.email.value);
      WhereDropsOne(t.users, (u: User) => !EmailMatches(cmd.email, u), i);
      RemoveUserKeepsValid(t, i);
      (Ok(None), Without(t, i))
  }

  /** When the lookup finds the user at `i`, the handler removes exactly that user and what it owns. */
  lemma RemovesFound(t: Tables, cmd: Command, i: nat)
    requires t.Valid() && t.UserByEmail(cmd.email) == Some(i)
    ensures Without(t, i).Valid()
    ensures Apply(t, cmd) == (Ok(None), Without(t, i))
  {
    RemoveUserKeepsValid(t, i);
  }

  /**
   * `Users.Remove(user)` followed by `SaveChangesAsync()`: the user row goes,
   * and the database's cascade takes the user's resumes and their photos.
   */
  method RemoveUser(db: AppDbContext, i: nat)
    requires db.Valid() && i < |db.users|
    modifies db
    ensures db.Valid()
    ensures db.State() == Without(old(db.State()), i)
  {
    ghost var before := db.State();
    RemoveUserKeepsValid(before, i);
    var uid := db.users[i].id;
    db.users := db.users[..i] + db.users[i + 1..];
    db.resumes := Where(db.resumes, NotOwnedBy(uid));
    db.photos := PhotosOf(db.photos, db.resumes);
    StateValid(db, Without(before, i));
  }

  /** `Handler.Handle`: find the tracked user, remove it, save. */
  method Handle(db: AppDbContext, cmd: Command) returns (r: Outcome<()>)
    requires db.Valid()
    modifies db
    ensures db.Valid()
    ensures (r, db.State()) == Apply(old(db.State()), cmd)
  {
    var found := db.State().UserByEmail(cmd.email);
    if found.None? {
      return FailWith(NotFound);
    }
    RemovesFound(db.State(), cmd, found.value);
    RemoveUser(db, found.value);
    r := Ok(None);
  }

  /** The pipeline around the handler: the validator's failures short-circuit, otherwise the handler runs. */
  method Send(db: AppDbContext, cmd: Command, isEmail: string -> bool) returns (r: Outcome<()>)
    requires db.Valid()
    modifies db
    ensures db.Valid()
    ensures |Validate(cmd, isEmail)| > 0 ==> r == Fail(ValidationPipeline.ToErrors(Validate(cmd, isEmail))) && db.State() == old(db.State())
    ensures |Validate(cmd, isEmail)| == 0 ==> (r, db.State()) == Apply(old(db.State()), cmd)
  {
    match ValidationPipeline.ShortCircuit(Some(ValidationPipeline.ValidationResult(Validate(cmd, isEmail)))) {
      case Some(errors) => r := Fail(errors);
      case None => r := Handle(db, cmd);
    }
  }

  /**
   * The cascade: after the user is deleted, no user has its e-mail (in any
   * letter case), it owns no resume, and no photo belongs to a resume it owned.
   */
  lemma {:induction false} DeleteCascades(t: Tables, cmd: Command)
    requires t.Valid() && Apply(t, cmd).0.Ok?
    ensures var uid := t.users[t.UserByEmail(cmd.email).value].id;
            var t2 := Apply(t, cmd).1;
            && t2.OwnedBy(uid) == []
            && t2.UserByEmail(cmd.email).None?
            && forall j :: 0 <= j < |t.resumes| && t.resumes[j].userId == uid ==> t.resumes[j].id !in t2.photos
  {
    var i := t.UserByEmail(cmd.email).value;
    var uid := t.users[i].id;
    var t2 := Apply(t, cmd).1;
    assert t2 == Without(t, i);
    WhereNone(t2.resumes, (x: Resume) => x.userId == uid);
    EmailIsKey(t, i, cmd.email.value);
    RemainingUsers(t, i);
    forall j | 0 <= j < |t.resumes| && t.resumes[j].userId == uid ensures t.resumes[j].id !in t2.photos {
      PhotoGoneWithResume(t, i, j);
    }
  }

  /** A resume the deleted user owned leaves no photo behind: its id is no longer among the resumes. */
  lemma PhotoGoneWithResume(t: Tables, i: nat, j: nat)
    requires t.Valid() && i < |t.users| && j < |t.resumes| && t.resumes[j].userId == t.users[i].id
    ensures t.resumes[j].id !in Without(t, i).photos
  {
    ResumeIdIsKey(t, j);
  }
}
