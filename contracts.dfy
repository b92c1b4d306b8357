/**
 * The response records of Contract/Response and the field-by-field copies
 * (`Adapt`) that produce them from the entities.
 */
module Contracts {
  import opened Wrappers
  import opened Entities

  /** Contract/Response/ResumeResponse.cs: every resume column except `IsRejected`. */
  datatype ResumeResponse = ResumeResponse(
    id: int,
    userId: int,
    isApproved: bool,
    fullName: string,
    programmingLanguage: string,
    languageLevel: string,
    country: string,
    city: string,
    links: Option<string>,
    status: Status,
    skills: string,
    educationPeriods: seq<EducationPeriod>,
    workPeriods: seq<WorkPeriod>)

  /** Contract/Response/UserResponse.cs: no password hash. */
  datatype UserResponse = UserResponse(id: int, email: string, isBlocked: bool, role: Role)

  /**
   * Contract/Response/PhotoResumeResponse.cs.  The photo entity has no type or
   * file name, so the copy leaves both null.
   */
  datatype PhotoResumeResponse = PhotoResumeResponse(
    resumeId: int, data: seq<bv8>, contentType: Option<string>, fileName: Option<string>)

  /**
   * Contract/Response/EducationPeriodResponse.cs as the body of a request: the
   * `required` strings `Name` and `City` are still accepted as JSON null, which
   * is `None` here.  The keys are left out, as on the entity.
   */
  datatype EducationPeriodRequest = EducationPeriodRequest(
    name: Option<string>, degree: Option<string>, city: Option<string>,
    description: Option<string>, from: DateTime, to: Option<DateTime>)

  /** Contract/Response/WorkPeriodResponse.cs as the body of a request; `Position`, `Employer` and `City` may arrive as null. */
  datatype WorkPeriodRequest = WorkPeriodRequest(
    position: Option<string>, employer: Option<string>, city: Option<string>,
    description: Option<string>, from: DateTime, to: Option<DateTime>)

  /** The entity row `e` carries every field of the request `p`. */
  predicate CopiesEducation(e: EducationPeriod, p: EducationPeriodRequest) {
    Some(e.name) == p.name && e.degree == p.degree && Some(e.city) == p.city
    && e.description == p.description && e.from == p.from && e.to == p.to
  }

  /** The entity row `e` carries every field of the request `p`. */
  predicate CopiesWork(e: WorkPeriod, p: WorkPeriodRequest) {
    Some(e.position) == p.position && Some(e.employer) == p.employer && Some(e.city) == p.city
    && e.description == p.description && e.from == p.from && e.to == p.to
  }

  /**
   * `Adapt<List<EducationPeriod>>()` followed by the save: a list of rows, one
   * per request and in order, when no row has a null in a non-null column;
   * otherwise none, because the save rejects the row.
   */
  function AdaptEducationPeriods(ps: seq<EducationPeriodRequest>): (r: Option<seq<EducationPeriod>>)
    ensures r.Some? <==> forall i :: 0 <= i < |ps| ==> ps[i].name.Some? && ps[i].city.Some?
    ensures r.Some? ==> |r.value| == |ps| && forall i :: 0 <= i < |ps| ==> CopiesEducation(r.value[i], ps[i])
  {
    if forall i :: 0 <= i < |ps| ==> ps[i].name.Some? && ps[i].city.Some? then
      Some(seq(|ps|, i requires 0 <= i < |ps| =>
        EducationPeriod(ps[i].name.value, ps[i].degree, ps[i].city.value, ps[i].description, ps[i].from, ps[i].to)))
    else None
  }

  /** `Adapt<List<WorkPeriod>>()` followed by the save, as for education periods. */
  function AdaptWorkPeriods(ps: seq<WorkPeriodRequest>): (r: Option<seq<WorkPeriod>>)
    ensures r.Some? <==> forall i :: 0 <= i < |ps| ==> ps[i].position.Some? && ps[i].employer.Some? && ps[i].city.Some?
    ensures r.Some? ==> |r.value| == |ps| && forall i :: 0 <= i < |ps| ==> CopiesWork(r.value[i], ps[i])
  {
    if forall i :: 0 <= i < |ps| ==> ps[i].position.Some? && ps[i].employer.Some? && ps[i].city.Some? then
      Some(seq(|ps|, i requires 0 <= i < |ps| =>
        WorkPeriod(ps[i].position.value, ps[i].employer.value, ps[i].city.value, ps[i].description, ps[i].from, ps[i].to)))
    else None
  }

  function ResumeToResponse(r: Resume): ResumeResponse {
    ResumeResponse(r.id, r.userId, r.isApproved, r.fullName, r.programmingLanguage,
                   r.languageLevel, r.country, r.city, r.links, r.status, r.skills,
                   r.educationPeriods, r.workPeriods)
  }

  function UserToResponse(u: User): UserResponse {
    UserResponse(u.id, u.email, u.isBlocked, u.role)
  }

  function PhotoToResponse(p: ResumePhoto): PhotoResumeResponse {
    PhotoResumeResponse(p.resumeId, p.data, None, None)
  }
}
