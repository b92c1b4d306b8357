/**
 * Features/Resumes/AcceptResume.cs: an administrator approves a resume.  The
 * lookup is by id alone; the endpoint is restricted to administrators by the
 * routing policy, which is outside the model.
 */
module AcceptResume {
  import opened Wrappers
  import opened Results
  import opened Entities
  import opened Data

  datatype Command = Command(id: int)

  const NotFound: string := "Резюме не найден."

  /** The change the handler makes to the row it finds. */
  function Approve(r: Resume): Resume {
    r.(isApproved := true)
  }

  /**
   * The handler on a store value: a failure that changes nothing when no
   * resume has the id; otherwise that resume is approved and nothing else
   * changes (its status and rejection flag included).
   */
  function Apply(t: Tables, cmd: Command): (r: (Outcome<()>, Tables))
    requires t.Valid()
    ensures r.1.Valid()
    ensures r.0 == Ok(None) || r.0 == FailWith(NotFound)
    ensures r.0.Ok? <==> cmd.id in t.ResumeIds()
    ensures r.0.Fail? ==> r.1 == t
    ensures r.0.Ok? ==> ResumesUpdated(t, r.1, HasId(cmd.id), Approve)
  {
    match t.ResumeById(cmd.id)
    case None => (FailWith(NotFound), t)
    case Some(i) =>
      UpdateResumeAt(t, i, Approve);
      (Ok(None), t.(resumes := t.resumes[i := Approve(t.resumes[i])]))
  }

  /** `Handler.Handle`: find the tracked row, set `IsApproved`, save. */
  method Handle(db: AppDbContext, cmd: Command) returns (r: Outcome<()>)
    requires db.Valid()
    modifies db
    ensures db.Valid()
    ensures (r, db.State()) == Apply(old(db.State()), cmd)
  {
    ghost var before := db.State();
    var found := db.State().ResumeById(cmd.id);
    if found.None? {
      return FailWith(NotFound);
    }
    var i := found.value;
    db.resumes := db.resumes[i := db.resumes[i].(isApproved := true)];
    StateValid(db, Apply(before, cmd).1);
    r := Ok(None);
  }

  /** Approving twice is the same as approving once. */
  lemma {:induction false} ApproveIdempotent(t: Tables, cmd: Command)
    requires t.Valid()
    ensures Apply(Apply(t, cmd).1, cmd) == Apply(t, cmd)
  {
    var t1 := Apply(t, cmd).1;
    if cmd.id in t.ResumeIds() {
      var i := t.ResumeById(cmd.id).value;
      assert t1.resumes[i] == Approve(t.resumes[i]);
      assert t1.ResumeById(cmd.id) == Some(i);
      assert t1.resumes[i := Approve(t1.resumes[i])] == t1.resumes;
    }
  }
}
