/** Features/Resumes/GetApprovedResume.cs: the approved resumes; the rejection flag and the status play no part. */
module GetApprovedResume {
  import opened Wrappers
  import opened Results
  import opened Entities
  import opened Contracts
  import opened Data
  import opened Linq
  import RejectResume

  /** The filter of the query. */
  predicate Selected(x: Resume) {
    x.isApproved
  }

  /**
   * `Handler.Handle`: never fails; one response per selected resume: each
   * comes from a selected row, every selected row's response is present, and
   * there are as many responses as selected rows.
   */
  function Handle(t: Tables): (r: Outcome<seq<ResumeResponse>>)
    ensures r.Ok? && r.value.Some?
    ensures |r.value.value| == Count(t.resumes, Selected)
    ensures forall i :: 0 <= i < |r.value.value| ==> r.value.value[i].isApproved
    ensures forall i :: 0 <= i < |r.value.value| ==> exists j :: 0 <= j < |t.resumes| && r.value.value[i] == ResumeToResponse(t.resumes[j])
    ensures forall j :: 0 <= j < |t.resumes| && t.resumes[j].isApproved ==> ResumeToResponse(t.resumes[j]) in r.value.value
  {
    var rs := Select(Where(t.resumes, Selected), ResumeToResponse);
    SelectWhere(t.resumes, Selected, ResumeToResponse);
    WhereCount(t.resumes, Selected);
    Ok(Some(rs))
  }

  /**
   * Rejecting an approved resume does not withdraw it: the handler only sets
   * `IsRejected`, and this query does not look at that flag, so the resume is
   * still listed.
   */
  lemma {:induction false} RejectedStillListed(t: Tables, cmd: RejectResume.Command, k: nat)
    requires t.Valid() && k < |t.resumes| && t.resumes[k].isApproved && t.resumes[k].id == cmd.id
    ensures var t2 := RejectResume.Apply(t, cmd).1;
            && t2.resumes[k].isRejected
            && ResumeToResponse(t2.resumes[k]) in Handle(t2).value.value
  {
    var t2 := RejectResume.Apply(t, cmd).1;
    assert t2.resumes[k] == RejectResume.MarkRejected(t.resumes[k]);
  }
}
