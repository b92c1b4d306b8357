/** Features/Resumes/GetAllPublicResume.cs (the src copy): the resumes whose status is `Public`; approval plays no part. The endpoint is restricted to administrators by the routing policy, which is outside the model. */
module GetAllPublicResume {
  import opened Wrappers
  import opened Results
  import opened Entities
  import opened Contracts
  import opened Data
  import opened Linq
  import PublicResume

  /** The filter of the query. */
  predicate Selected(x: Resume) {
    x.status == Public
  }

  /**
   * `Handler.Handle`: never fails; one response per selected resume: each
   * comes from a selected row, every selected row's response is present, and
   * there are as many responses as selected rows.
   */
  function Handle(t: Tables): (r: Outcome<seq<ResumeResponse>>)
    ensures r.Ok? && r.value.Some?
    ensures |r.value.value| == Count(t.resumes, Selected)
    ensures forall i :: 0 <= i < |r.value.value| ==> r.value.value[i].status == Public
    ensures forall i :: 0 <= i < |r.value.value| ==> exists j :: 0 <= j < |t.resumes| && r.value.value[i] == ResumeToResponse(t.resumes[j])
    ensures forall j :: 0 <= j < |t.resumes| && t.resumes[j].status == Public ==> ResumeToResponse(t.resumes[j]) in r.value.value
  {
    var rs := Select(Where(t.resumes, Selected), ResumeToResponse);
    SelectWhere(t.resumes, Selected, ResumeToResponse);
    WhereCount(t.resumes, Selected);
    Ok(Some(rs))
  }

  /**
   * A resume that was never approved becomes visible here once its owner
   * makes it public, because the public-status request skips the approval
   * check and this query does not look at approval.
   */
  lemma {:induction false} UnapprovedPublished(t: Tables, cmd: PublicResume.Command, k: nat)
    requires t.Valid() && k < |t.resumes| && !t.resumes[k].isApproved
    requires t.resumes[k].id == cmd.id && t.resumes[k].userId == cmd.userId
    ensures var t2 := PublicResume.Apply(t, cmd).1;
            && !t2.resumes[k].isApproved
            && ResumeToResponse(t2.resumes[k]) in Handle(t2).value.value
  {
    var t2 := PublicResume.Apply(t, cmd).1;
    assert t2.resumes[k] == PublicResume.MakePublic(t.resumes[k]);
  }
}
