/** Features/Resumes/GetAllResumesOfOneUser.cs: the caller's own resumes, read without tracking. */
module GetAllResumesOfOneUser {
  import opened Wrappers
  import opened Results
  import opened Entities
  import opened Contracts
  import opened Data
  import opened Linq

  datatype Query = Query(userId: int)

  /**
   * `Handler.Handle`: never fails; every response is that of a stored resume
   * the caller owns, every resume the caller owns is in the answer, and there
   * are as many responses as the caller owns resumes.
   */
  function Handle(t: Tables, q: Query): (r: Outcome<seq<ResumeResponse>>)
    ensures r.Ok? && r.value.Some?
    ensures |r.value.value| == Count(t.resumes, OwnerIs(q.userId))
    ensures forall i :: 0 <= i < |r.value.value| ==> r.value.value[i].userId == q.userId
    ensures forall i :: 0 <= i < |r.value.value| ==> exists j :: 0 <= j < |t.resumes| && r.value.value[i] == ResumeToResponse(t.resumes[j])
    ensures forall j :: 0 <= j < |t.resumes| && t.resumes[j].userId == q.userId ==>
              ResumeToResponse(t.resumes[j]) in r.value.value
  {
    var rs := Select(t.OwnedBy(q.userId), ResumeToResponse);
    SelectWhere(t.resumes, OwnerIs(q.userId), ResumeToResponse);
    Ok(Some(rs))
  }

  /** A caller who owns no resume gets an empty list, not a failure. */
  lemma {:induction false} NoResumesEmptyList(t: Tables, q: Query)
    requires forall j :: 0 <= j < |t.resumes| ==> t.resumes[j].userId != q.userId
    ensures Handle(t, q) == Ok(Some([]))
  {
    WhereNone(t.resumes, OwnerIs(q.userId));
  }
}
