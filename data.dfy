/**
 * Data/AppDbContext.cs: the store.  Its tables are sequences of rows (users,
 * resumes) and the photo table keyed by resume id; the identity counters give
 * the next ids.  `Tables.Valid` gathers what the model configuration and the
 * column attributes make the database enforce: unique ids, a unique e-mail
 * under a case-insensitive collation, the column length bounds, resumes
 * owned by existing users, and one photo per resume keyed by its id.
 */
module Data {
  import opened Wrappers
  import opened Entities
  import opened Linq
  import opened AuthHelper

  /** Case folding of the `SQL_Latin1_General_CP1_CI_AS` collation, on ASCII letters. */
  function FoldChar(c: char): char {
    if 'A' <= c <= 'Z' then (c as int + 32) as char else c
  }

  /** A string as the collation compares it. */
  function Fold(s: string): (r: string)
    ensures |r| == |s|
    ensures forall i :: 0 <= i < |s| ==> r[i] == FoldChar(s[i])
  {
    if s == [] then [] else [FoldChar(s[0])] + Fold(s[1..])
  }

  /** `u.Email == email` as the database evaluates it. */
  predicate SameEmail(a: string, b: string) {
    Fold(a) == Fold(b)
  }

  /** The users an e-mail lookup can match: those whose e-mail equals the requested one, ignoring case. */
  predicate EmailMatches(email: Option<string>, u: User) {
    email.Some? && SameEmail(u.email, email.value)
  }

  /** Two e-mails that differ only in the case of ASCII letters are the same e-mail to the store. */
  lemma {:induction false} SameEmailIgnoresCase(a: string, b: string)
    requires |a| == |b|
    requires forall i :: 0 <= i < |a| ==> a[i] == b[i] || FoldChar(a[i]) == FoldChar(b[i])
    ensures SameEmail(a, b)
  {
    if a != [] {
      SameEmailIgnoresCase(a[1..], b[1..]);
      assert Fold(a) == [FoldChar(a[0])] + Fold(a[1..]);
      assert Fold(b) == [FoldChar(b[0])] + Fold(b[1..]);
    }
  }

  /** The seeded administrator of `OnModelCreating`. */
  const AdminId: int := 228
  const AdminEmail: string := "admin@gmail.com"
  const AdminPassword: string := "admin$228"

  /** The rows of all tables, and the identity counters. */
  datatype Tables = Tables(
    users: seq<User>,
    resumes: seq<Resume>,
    photos: map<int, ResumePhoto>,
    nextUserId: int,
    nextResumeId: int)
  {
    function UserIds(): set<int> {
      set u | u in users :: u.id
    }

    function ResumeIds(): set<int> {
      set r | r in resumes :: r.id
    }

    predicate UniqueUserIds() {
      forall i, j :: 0 <= i < j < |users| ==> users[i].id != users[j].id
    }

    /** `HasIndex(u => u.Email).IsUnique()` under the case-insensitive collation. */
    predicate UniqueEmails() {
      forall i, j :: 0 <= i < j < |users| ==> !SameEmail(users[i].email, users[j].email)
    }

    predicate UniqueResumeIds() {
      forall i, j :: 0 <= i < j < |resumes| ==> resumes[i].id != resumes[j].id
    }

    predicate RowsWithinBounds() {
      (forall i :: 0 <= i < |users| ==> users[i].WithinBounds())
      && (forall i :: 0 <= i < |resumes| ==> resumes[i].WithinBounds())
    }

    /** The required `UserId` foreign key of a resume. */
    predicate OwnersExist() {
      forall i :: 0 <= i < |resumes| ==> resumes[i].userId in UserIds()
    }

    /** `HasKey(r => r.ResumeId)`: a photo is stored under its resume's id, and that resume exists. */
    predicate PhotosKeyed() {
      forall k :: k in photos ==> photos[k].resumeId == k && k in ResumeIds()
    }

    /** The identity counters are past every id handed out. */
    predicate IdsBelowNext() {
      (forall i :: 0 <= i < |users| ==> users[i].id < nextUserId)
      && (forall i :: 0 <= i < |resumes| ==> 0 < resumes[i].id < nextResumeId)
      && 0 < nextResumeId
    }

    predicate Valid() {
      UniqueUserIds() && UniqueEmails() && UniqueResumeIds() && RowsWithinBounds()
      && OwnersExist() && PhotosKeyed() && IdsBelowNext()
    }

    /** `Users.FindAsync(id)`. */
    function UserById(id: int): (r: Option<nat>)
      ensures r.Some? ==> r.value < |users| && users[r.value].id == id
      ensures r.None? <==> forall j :: 0 <= j < |users| ==> users[j].id != id
    {
      FirstIndex(users, (u: User) => u.id == id)
    }

    /** `Users.FirstOrDefaultAsync(u => u.Email == email)`; a null e-mail matches no row. */
    function UserByEmail(email: Option<string>): (r: Option<nat>)
      ensures r.Some? ==> email.Some? && r.value < |users| && SameEmail(users[r.value].email, email.value)
      ensures r.None? <==> email.None? || forall j :: 0 <= j < |users| ==> !SameEmail(users[j].email, email.value)
    {
      if email.None? then None else FirstIndex(users, (u: User) => SameEmail(u.email, email.value))
    }

    /** `Resumes.FirstOrDefaultAsync(r => r.Id == id)`, and `Resumes.FindAsync(id)`. */
    function ResumeById(id: int): (r: Option<nat>)
      ensures r.Some? ==> r.value < |resumes| && resumes[r.value].id == id
      ensures r.None? <==> forall j :: 0 <= j < |resumes| ==> resumes[j].id != id
    {
      FirstIndex(resumes, (x: Resume) => x.id == id)
    }

    /** `Resumes.FirstOrDefaultAsync(r => r.Id == id && r.UserId == userId)`: the ownership-checked lookup. */
    function OwnedResume(id: int, userId: int): (r: Option<nat>)
      ensures r.Some? ==> r.value < |resumes| && resumes[r.value].id == id && resumes[r.value].userId == userId
      ensures r.None? <==> forall j :: 0 <= j < |resumes| ==> !(resumes[j].id == id && resumes[j].userId == userId)
    {
      FirstIndex(resumes, (x: Resume) => x.id == id && x.userId == userId)
    }

    /**
     * The `User.Resumes` navigation: the resumes whose `UserId` is the user's
     * id, one entry per such row (`OwnedByMultiset` counts each row).
     */
    function OwnedBy(userId: int): (rs: seq<Resume>)
      ensures forall i :: 0 <= i < |rs| ==> rs[i].userId == userId && rs[i] in resumes
      ensures forall j :: 0 <= j < |resumes| && resumes[j].userId == userId ==> resumes[j] in rs
      ensures |rs| == Count(resumes, OwnerIs(userId))
    {
      WhereCount(resumes, OwnerIs(userId));
      Where(resumes, OwnerIs(userId))
    }

    /** A user's resume list holds each of the user's rows as often as the table does, and nothing else. */
    lemma OwnedByMultiset(userId: int)
      ensures forall x :: multiset(OwnedBy(userId))[x] == if x.userId == userId then multiset(resumes)[x] else 0
    {
      WhereMultiset(resumes, OwnerIs(userId));
    }
  }

  /** The seed row of `HasData`: the administrator with the BCrypt hash of its password. */
  function Admin(h: PasswordHasher, salt: string): User {
    User(AdminId, AdminEmail, h.hash(AdminPassword, salt), false, AdminRole)
  }

  /** The store right after the migrations: the administrator alone; 228 was the last user id handed out. */
  function Seed(h: PasswordHasher, salt: string): (t: Tables)
    requires |h.hash(AdminPassword, salt)| <= 200
    ensures t.Valid()
    ensures |t.users| == 1 && t.users[0] == Admin(h, salt)
    ensures t.users[0].role == AdminRole && !t.users[0].isBlocked && t.users[0].id == 228
    ensures t.resumes == [] && t.photos == map[]
  {
    var t := Tables([Admin(h, salt)], [], map[], AdminId + 1, 1);
    SeedValid(t);
    t
  }

  /** A store holding one user within bounds, no resume and no photo, with the counters past that user, is valid. */
  lemma SeedValid(t: Tables)
    requires |t.users| == 1 && t.users[0].WithinBounds() && t.users[0].id < t.nextUserId
    requires t.resumes == [] && t.photos == map[] && 0 < t.nextResumeId
    ensures t.Valid()
  {
    assert t.UniqueUserIds() && t.UniqueEmails() && t.UniqueResumeIds();
    assert t.OwnersExist() && t.PhotosKeyed();
  }

  /**
   * `t2` is `t` with `f` applied to every resume that satisfies `p`, in place;
   * the users, the photos and the identity counters are untouched.
   */
  predicate ResumesUpdated(t: Tables, t2: Tables, p: Resume -> bool, f: Resume -> Resume) {
    t2.users == t.users && t2.photos == t.photos
    && t2.nextUserId == t.nextUserId && t2.nextResumeId == t.nextResumeId
    && |t2.resumes| == |t.resumes|
    && forall k :: 0 <= k < |t.resumes| ==> t2.resumes[k] == if p(t.resumes[k]) then f(t.resumes[k]) else t.resumes[k]
  }

  /** `t2` is `t` with `f` applied to every user that satisfies `p`, in place; nothing else changes. */
  predicate UsersUpdated(t: Tables, t2: Tables, p: User -> bool, f: User -> User) {
    t2.resumes == t.resumes && t2.photos == t.photos
    && t2.nextUserId == t.nextUserId && t2.nextResumeId == t.nextResumeId
    && |t2.users| == |t.users|
    && forall k :: 0 <= k < |t.users| ==> t2.users[k] == if p(t.users[k]) then f(t.users[k]) else t.users[k]
  }

  /** The filter `x => x.Id == id` of the lookups by resume id. */
  function HasId(id: int): Resume -> bool {
    (x: Resume) => x.id == id
  }

  /** The filter `x => x.UserId == userId` of the lookups by owner. */
  function OwnerIs(userId: int): Resume -> bool {
    (x: Resume) => x.userId == userId
  }

  /** The filter `u => u.Email == email` of the lookups by e-mail, under the case-insensitive collation. */
  function HasEmail(email: string): User -> bool {
    (u: User) => SameEmail(u.email, email)
  }

  /** In a valid store the row found by id is the only row with that id. */
  lemma ResumeIdIsKey(t: Tables, i: nat)
    requires t.Valid() && i < |t.resumes|
    ensures forall j :: 0 <= j < |t.resumes| && j != i ==> t.resumes[j].id != t.resumes[i].id
  {
    forall j | 0 <= j < |t.resumes| && j != i ensures t.resumes[j].id != t.resumes[i].id {
      if j < i { assert t.UniqueResumeIds(); } else { assert t.UniqueResumeIds(); }
    }
  }

  /** In a valid store the user found by e-mail is the only user with that e-mail, in any letter case. */
  lemma EmailIsKey(t: Tables, i: nat, email: string)
    requires t.Valid() && i < |t.users| && SameEmail(t.users[i].email, email)
    ensures forall j :: 0 <= j < |t.users| && j != i ==> !SameEmail(t.users[j].email, email)
  {
    forall j | 0 <= j < |t.users| && j != i ensures !SameEmail(t.users[j].email, email) {
      if j < i {
        assert !SameEmail(t.users[j].email, t.users[i].email);
      } else {
        assert !SameEmail(t.users[i].email, t.users[j].email);
      }
    }
  }

  /**
   * Changing the resume at `i` by `f`, which keeps its id, owner and column
   * bounds: the store stays valid, keeps its resume ids, and exactly the row
   * with that id changes.
   */
  lemma UpdateResumeAt(t: Tables, i: nat, f: Resume -> Resume)
    requires t.Valid() && i < |t.resumes|
    requires f(t.resumes[i]).id == t.resumes[i].id && f(t.resumes[i]).userId == t.resumes[i].userId
    requires f(t.resumes[i]).WithinBounds()
    ensures var t2 := t.(resumes := t.resumes[i := f(t.resumes[i])]);
            t2.Valid() && t2.ResumeIds() == t.ResumeIds() && ResumesUpdated(t, t2, HasId(t.resumes[i].id), f)
  {
    ReplaceResumeKeepsValid(t, i, f(t.resumes[i]));
    ResumeIdIsKey(t, i);
  }

  /**
   * Changing the user at `i`, whose e-mail matches `email`, by `f`, which keeps
   * its id, e-mail and bounds: the store stays valid and exactly the row with
   * that e-mail changes.
   */
  lemma UpdateUserAt(t: Tables, i: nat, email: string, f: User -> User)
    requires t.Valid() && i < |t.users| && SameEmail(t.users[i].email, email)
    requires f(t.users[i]).id == t.users[i].id && f(t.users[i]).email == t.users[i].email
    requires f(t.users[i]).WithinBounds()
    ensures var t2 := t.(users := t.users[i := f(t.users[i])]);
            t2.Valid() && UsersUpdated(t, t2, HasEmail(email), f)
  {
    ReplaceUserKeepsValid(t, i, f(t.users[i]));
    EmailIsKey(t, i, email);
  }

  /** The e-mail lookup depends only on the users' e-mails, position by position. */
  lemma UserByEmailAgrees(t: Tables, t2: Tables, email: Option<string>)
    requires |t.users| == |t2.users| && forall k :: 0 <= k < |t.users| ==> t2.users[k].email == t.users[k].email
    ensures t2.UserByEmail(email) == t.UserByEmail(email)
  {
    if email.Some? {
      var p := (u: User) => SameEmail(u.email, email.value);
      FirstIndexAgree(t2.users, t.users, p, p);
    }
  }

  /** A row replaced by one with the same key, owner and bounds keeps the store valid. */
  lemma ReplaceResumeKeepsValid(t: Tables, i: nat, r: Resume)
    requires t.Valid() && i < |t.resumes|
    requires r.id == t.resumes[i].id && r.userId == t.resumes[i].userId && r.WithinBounds()
    ensures t.(resumes := t.resumes[i := r]).Valid()
    ensures t.(resumes := t.resumes[i := r]).ResumeIds() == t.ResumeIds()
  {
    var t' := t.(resumes := t.resumes[i := r]);
    assert t'.ResumeIds() == t.ResumeIds() by {
      forall x | x in t.ResumeIds() ensures x in t'.ResumeIds() {
        var k :| 0 <= k < |t.resumes| && t.resumes[k].id == x;
        assert t'.resumes[k].id == x;
      }
      forall x | x in t'.ResumeIds() ensures x in t.ResumeIds() {
        var k :| 0 <= k < |t'.resumes| && t'.resumes[k].id == x;
        assert t.resumes[k].id == x;
      }
    }
  }

  /** Appending a row under the next identity value, owned by an existing user, keeps the store valid. */
  lemma AppendResumeKeepsValid(t: Tables, r: Resume)
    requires t.Valid() && r.id == t.nextResumeId && r.userId in t.UserIds() && r.WithinBounds()
    ensures t.(resumes := t.resumes + [r], nextResumeId := t.nextResumeId + 1).Valid()
  {
    var t2 := t.(resumes := t.resumes + [r], nextResumeId := t.nextResumeId + 1);
    assert t2.ResumeIds() == t.ResumeIds() + {r.id} by {
      forall x | x in t2.ResumeIds() ensures x in t.ResumeIds() + {r.id} {
        var k :| 0 <= k < |t2.resumes| && t2.resumes[k].id == x;
        if k < |t.resumes| { assert t.resumes[k].id == x; }
      }
    }
    assert t2.UniqueResumeIds();
  }

  /** Appending a user under the next identity value, with an e-mail no user has in any case, keeps the store valid. */
  lemma AppendUserKeepsValid(t: Tables, u: User)
    requires t.Valid() && u.id == t.nextUserId && u.WithinBounds()
    requires forall k :: 0 <= k < |t.users| ==> !SameEmail(t.users[k].email, u.email)
    ensures t.(users := t.users + [u], nextUserId := t.nextUserId + 1).Valid()
  {
    var t2 := t.(users := t.users + [u], nextUserId := t.nextUserId + 1);
    assert t.UserIds() <= t2.UserIds() by {
      forall x | x in t.UserIds() ensures x in t2.UserIds() {
        var k :| 0 <= k < |t.users| && t.users[k].id == x;
        assert t2.users[k].id == x;
      }
    }
    assert t2.UniqueEmails() by {
      forall a, b | 0 <= a < b < |t2.users| ensures !SameEmail(t2.users[a].email, t2.users[b].email) {
        if b == |t.users| {
          assert t2.users[a] == t.users[a] && t2.users[b] == u;
        } else {
          assert t.UniqueEmails();
        }
      }
    }
  }

  /** A user row replaced by one with the same id, e-mail and bounds keeps the store valid. */
  lemma ReplaceUserKeepsValid(t: Tables, i: nat, u: User)
    requires t.Valid() && i < |t.users|
    requires u.id == t.users[i].id && u.email == t.users[i].email && u.WithinBounds()
    ensures t.(users := t.users[i := u]).Valid()
  {
    var t' := t.(users := t.users[i := u]);
    assert t'.UserIds() == t.UserIds() by {
      forall x | x in t.UserIds() ensures x in t'.UserIds() {
        var k :| 0 <= k < |t.users| && t.users[k].id == x;
        assert t'.users[k].id == x;
      }
      forall x | x in t'.UserIds() ensures x in t.UserIds() {
        var k :| 0 <= k < |t'.users| && t'.users[k].id == x;
        assert t.users[k].id == x;
      }
    }
  }

  /**
   * The store class: the tables are its fields, which the handlers update in
   * place; `State` reads them out as a `Tables` value.
   */
  class AppDbContext {
    var users: seq<User>
    var resumes: seq<Resume>
    var photos: map<int, ResumePhoto>
    var nextUserId: int
    var nextResumeId: int

    function State(): Tables
      reads this
    {
      Tables(users, resumes, photos, nextUserId, nextResumeId)
    }

    predicate Valid()
      reads this
    {
      State().Valid()
    }

    /** A freshly migrated database: the seed data of `OnModelCreating`. */
    constructor (h: PasswordHasher, salt: string)
      requires IsBCrypt(h)
      ensures Valid() && State() == Seed(h, salt)
    {
      assert |h.hash(AdminPassword, salt)| == 60;
      users := [Admin(h, salt)];
      resumes := [];
      photos := map[];
      nextUserId := AdminId + 1;
      nextResumeId := 1;
      new;
      StateValid(this, Seed(h, salt));
    }
  }

  /** A context whose tables equal a valid store value is valid. */
  lemma StateValid(db: AppDbContext, t: Tables)
    requires t.Valid() && db.State() == t
    ensures db.Valid()
  {
  }
}
