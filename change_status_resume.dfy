/**
 * Features/Resumes/ChangeStatusResume.cs: the owner sets the visibility of an
 * approved resume to `Private` or `Public`.  The checks run in this order: the
 * caller owns the resume, the resume is approved, the requested status is
 * not `Pending`.
 */
module ChangeStatusResume {
  import opened Wrappers
  import opened Results
  import opened Entities
  import opened Data

  /** The resume id, the caller's user id and the requested status. */
  datatype Command = Command(id: int, userId: int, status: Status)

  const NotFound: string := "Резюме не найдено."
  const UnderReview: string := "Резюме все еще на проверке."
  const PendingRefused: string := "Нельзя установить статус 'в ожидании'."

  /** The caller owns a resume with the requested id. */
  predicate Owns(t: Tables, cmd: Command) {
    exists k :: 0 <= k < |t.resumes| && t.resumes[k].id == cmd.id && t.resumes[k].userId == cmd.userId
  }

  /** The change the handler makes to the row it finds. */
  function SetStatus(status: Status): Resume -> Resume {
    (x: Resume) => x.(status := status)
  }

  /**
   * The handler on a store value.  Each refusal changes nothing and carries
   * its own message; on success the resume's status becomes exactly the one
   * requested and nothing else changes.
   */
  function Apply(t: Tables, cmd: Command): (r: (Outcome<()>, Tables))
    requires t.Valid()
    ensures r.1.Valid()
    ensures !r.0.Ok? ==> r.1 == t
    ensures !Owns(t, cmd) ==> r.0 == FailWith(NotFound)
    ensures Owns(t, cmd) ==>
              var k := t.OwnedResume(cmd.id, cmd.userId).value;
              && (!t.resumes[k].isApproved ==> r.0 == FailWith(UnderReview))
              && (t.resumes[k].isApproved && cmd.status == Pending ==> r.0 == FailWith(PendingRefused))
              && (t.resumes[k].isApproved && cmd.status != Pending ==> r.0 == Ok(None))
    ensures r.0.Ok? ==> cmd.status != Pending
    ensures r.0.Ok? ==> ResumesUpdated(t, r.1, HasId(cmd.id), SetStatus(cmd.status))
  {
    match t.OwnedResume(cmd.id, cmd.userId)
    case None => (FailWith(NotFound), t)
    case Some(i) =>
      if !t.resumes[i].isApproved then (FailWith(UnderReview), t)
      else if cmd.status == Pending then (FailWith(PendingRefused), t)
      else
        UpdateResumeAt(t, i, SetStatus(cmd.status));
        (Ok(None), t.(resumes := t.resumes[i := SetStatus(cmd.status)(t.resumes[i])]))
  }

  /** `Handler.Handle`: the three guards, then the status is written to the tracked row. */
  method Handle(db: AppDbContext, cmd: Command) returns (r: Outcome<()>)
    requires db.Valid()
    modifies db
    ensures db.Valid()
    ensures (r, db.State()) == Apply(old(db.State()), cmd)
  {
    ghost var before := db.State();
    var found := db.State().OwnedResume(cmd.id, cmd.userId);
    if found.None? {
      return FailWith(NotFound);
    }
    var i := found.value;
    if !db.resumes[i].isApproved {
      return FailWith(UnderReview);
    }
    if cmd.status == Pending {
      return FailWith(PendingRefused);
    }
    db.resumes := db.resumes[i := db.resumes[i].(status := cmd.status)];
    StateValid(db, Apply(before, cmd).1);
    r := Ok(None);
  }

  /** A resume that has left `Pending` is never moved back to it by this request, whatever is asked. */
  lemma {:induction false} NeverSetsPending(t: Tables, cmd: Command, k: nat)
    requires t.Valid() && k < |t.resumes| && t.resumes[k].status != Pending
    ensures Apply(t, cmd).1.resumes[k].status != Pending
  {
    match t.OwnedResume(cmd.id, cmd.userId)
    case None =>
    case Some(i) =>
      if t.resumes[i].isApproved && cmd.status != Pending {
        ResumeIdIsKey(t, i);
        assert Apply(t, cmd).1.resumes == t.resumes[i := t.resumes[i].(status := cmd.status)];
      }
  }

  /** Repeating the same request is the same as making it once. */
  lemma {:induction false} ChangeStatusIdempotent(t: Tables, cmd: Command)
    requires t.Valid()
    ensures Apply(Apply(t, cmd).1, cmd) == Apply(t, cmd)
  {
    var t1 := Apply(t, cmd).1;
    match t.OwnedResume(cmd.id, cmd.userId)
    case None =>
    case Some(i) =>
      if t.resumes[i].isApproved && cmd.status != Pending {
        assert t1.resumes[i] == t.resumes[i].(status := cmd.status);
        assert t1.OwnedResume(cmd.id, cmd.userId) == Some(i);
        assert t1.resumes[i := t1.resumes[i].(status := cmd.status)] == t1.resumes;
      }
  }
}
