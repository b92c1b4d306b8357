/**
 * Features/Resumes/RejectResume.cs: an administrator rejects a resume.  The
 * lookup is by id alone; only `IsRejected` is written, so an approved resume
 * stays approved.
 */
module RejectResume {
  import opened Wrappers
  import opened Results
  import opened Entities
  import opened Data
  import AcceptResume

  datatype Command = Command(id: int)

  const NotFound: string := "Резюме не найден."

  /** The change the handler makes to the row it finds. */
  function MarkRejected(r: Resume): Resume {
    r.(isRejected := true)
  }

  /**
   * The handler on a store value: a failure that changes nothing when no
   * resume has the id; otherwise that resume is marked rejected, and its
   * approval flag and status are left as they were.
   */
  function Apply(t: Tables, cmd: Command): (r: (Outcome<()>, Tables))
    requires t.Valid()
    ensures r.1.Valid()
    ensures r.0 == Ok(None) || r.0 == FailWith(NotFound)
    ensures r.0.Ok? <==> cmd.id in t.ResumeIds()
    ensures r.0.Fail? ==> r.1 == t
    ensures r.0.Ok? ==> ResumesUpdated(t, r.1, HasId(cmd.id), MarkRejected)
  {
    match t.ResumeById(cmd.id)
    case None => (FailWith(NotFound), t)
    case Some(i) =>
      UpdateResumeAt(t, i, MarkRejected);
      (Ok(None), t.(resumes := t.resumes[i := MarkRejected(t.resumes[i])]))
  }

  /** `Handler.Handle`: find the tracked row, set `IsRejected`, save. */
  method Handle(db: AppDbContext, cmd: Command) returns (r: Outcome<()>)
    requires db.Valid()
    modifies db
    ensures db.Valid()
    ensures (r, db.State()) == Apply(old(db.State()), cmd)
  {
    ghost var before := db.State();
    var found := db.State().ResumeById(cmd.id);
    if found.None? {
      return FailWith(NotFound);
    }
    var i := found.value;
    db.resumes := db.resumes[i := db.resumes[i].(isRejected := true)];
    StateValid(db, Apply(before, cmd).1);
    r := Ok(None);
  }

  /** Rejecting twice is the same as rejecting once. */
  lemma {:induction false} RejectIdempotent(t: Tables, cmd: Command)
    requires t.Valid()
    ensures Apply(Apply(t, cmd).1, cmd) == Apply(t, cmd)
  {
    var t1 := Apply(t, cmd).1;
    if cmd.id in t.ResumeIds() {
      var i := t.ResumeById(cmd.id).value;
      assert t1.resumes[i] == MarkRejected(t.resumes[i]);
      assert t1.ResumeById(cmd.id) == Some(i);
      assert t1.resumes[i := MarkRejected(t1.resumes[i])] == t1.resumes;
    }
  }

  /**
   * Approving and then rejecting a resume leaves it approved AND rejected:
   * the two flags are independent and rejection does not withdraw approval.
   */
  lemma {:induction false} ApprovedThenRejected(t: Tables, id: int)
    requires t.Valid() && id in t.ResumeIds()
    ensures var t2 := Apply(AcceptResume.Apply(t, AcceptResume.Command(id)).1, Command(id)).1;
            var i := t.ResumeById(id).value;
            t2.resumes[i].isApproved && t2.resumes[i].isRejected && t2.resumes[i].status == t.resumes[i].status
  {
    var i := t.ResumeById(id).value;
    var t1 := AcceptResume.Apply(t, AcceptResume.Command(id)).1;
    assert t1.resumes[i] == AcceptResume.Approve(t.resumes[i]);
    assert t1.resumes[i].id == id;
    var t2 := Apply(t1, Command(id)).1;
    assert t2.resumes[i] == MarkRejected(t1.resumes[i]);
  }
}
