/**
 * Features/Resumes/GetAllResume.cs: every resume of every user, read without
 * tracking.  The endpoint is restricted to administrators by the routing
 * policy, which is outside the model.
 */
module GetAllResume {
  import opened Wrappers
  import opened Results
  import opened Contracts
  import opened Data
  import opened Linq

  /** `Handler.Handle`: never fails; one response per stored resume, in table order. */
  function Handle(t: Tables): (r: Outcome<seq<ResumeResponse>>)
    ensures r.Ok? && r.value.Some?
    ensures |r.value.value| == |t.resumes|
    ensures forall i :: 0 <= i < |t.resumes| ==> r.value.value[i] == ResumeToResponse(t.resumes[i])
  {
    Ok(Some(Select(t.resumes, ResumeToResponse)))
  }
}
