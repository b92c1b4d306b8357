/**
 * Features/Resumes/PrivateResume.cs: the owner hides a resume by setting its status to
 * `Private`.  Unlike ChangeStatusResume there is no approval check.
 */
module PrivateResume {
  import opened Wrappers
  import opened Results
  import opened Entities
  import opened Data
  import ChangeStatusResume

  /** The resume id and the caller's user id. */
  datatype Command = Command(id: int, userId: int)

  const NotFound: string := "Резюме не найден."

  /** The change the handler makes to the row it finds. */
  function MakePrivate(r: Resume): Resume {
    r.(status := Private)
  }

  /**
   * The handler on a store value: a failure that changes nothing unless the
   * caller owns a resume with that id; otherwise its status becomes `Private`,
   * approved or not, and nothing else changes.
   */
  function Apply(t: Tables, cmd: Command): (r: (Outcome<()>, Tables))
    requires t.Valid()
    ensures r.1.Valid()
    ensures r.0 == Ok(None) || r.0 == FailWith(NotFound)
    ensures r.0.Ok? <==> exists k :: 0 <= k < |t.resumes| && t.resumes[k].id == cmd.id && t.resumes[k].userId == cmd.userId
    ensures r.0.Fail? ==> r.1 == t
    ensures r.0.Ok? ==> ResumesUpdated(t, r.1, HasId(cmd.id), MakePrivate)
  {
    match t.OwnedResume(cmd.id, cmd.userId)
    case None => (FailWith(NotFound), t)
    case Some(i) =>
      UpdateResumeAt(t, i, MakePrivate);
      (Ok(None), t.(resumes := t.resumes[i := MakePrivate(t.resumes[i])]))
  }

  /** `Handler.Handle`: find the caller's row, set its status, save. */
  method Handle(db: AppDbContext, cmd: Command) returns (r: Outcome<()>)
    requires db.Valid()
    modifies db
    ensures db.Valid()
    ensures (r, db.State()) == Apply(old(db.State()), cmd)
  {
    ghost var before := db.State();
    var found := db.State().OwnedResume(cmd.id, cmd.userId);
    if found.None? {
      return FailWith(NotFound);
    }
    var i := found.value;
    db.resumes := db.resumes[i := db.resumes[i].(status := Private)];
    StateValid(db, Apply(before, cmd).1);
    r := Ok(None);
  }

  /** Repeating the request is the same as making it once. */
  lemma {:induction false} PrivateIdempotent(t: Tables, cmd: Command)
    requires t.Valid()
    ensures Apply(Apply(t, cmd).1, cmd) == Apply(t, cmd)
  {
    var t1 := Apply(t, cmd).1;
    match t.OwnedResume(cmd.id, cmd.userId)
    case None =>
    case Some(i) =>
      assert t1.resumes[i] == MakePrivate(t.resumes[i]);
      assert t1.OwnedResume(cmd.id, cmd.userId) == Some(i);
      assert t1.resumes[i := MakePrivate(t1.resumes[i])] == t1.resumes;
  }

  /**
   * The approval gate is bypassed: for a resume still under review, this
   * request succeeds and sets the status, where ChangeStatusResume asking for
   * the same status fails with "still under review" and changes nothing.
   */
  lemma {:induction false} SkipsApprovalGate(t: Tables, cmd: Command, k: nat)
    requires t.Valid() && k < |t.resumes|
    requires t.resumes[k].id == cmd.id && t.resumes[k].userId == cmd.userId && !t.resumes[k].isApproved
    ensures Apply(t, cmd).0.Ok? && Apply(t, cmd).1.resumes[k].status == Private
    ensures ChangeStatusResume.Apply(t, ChangeStatusResume.Command(cmd.id, cmd.userId, Private))
            == (FailWith(ChangeStatusResume.UnderReview), t)
  {
    ResumeIdIsKey(t, k);
    var t1 := Apply(t, cmd).1;
    assert t1.resumes[k] == MakePrivate(t.resumes[k]);
  }
}
