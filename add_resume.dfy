/**
 * Features/Resumes/AddResume.cs: the caller creates a resume.  The validator
 * requires the six mandatory text fields to be present and not blank; the
 * handler looks the caller up by id and appends a pending, unapproved resume
 * to the caller's resumes.
 */
module AddResume {
  import opened Wrappers
  import opened Results
  import opened Entities
  import opened Contracts
  import opened Data
  import opened Linq
  import opened FluentRules
  import ValidationPipeline

  /** `AddResume.Command`; a required string that arrives as JSON null is `None`, here and inside the periods. */
  datatype Command = Command(
    userId: int,
    fullName: Option<string>,
    programmingLanguage: Option<string>,
    languageLevel: Option<string>,
    country: Option<string>,
    city: Option<string>,
    links: Option<string>,
    skills: Option<string>,
    educationPeriods: seq<EducationPeriodRequest>,
    workPeriods: seq<WorkPeriodRequest>)

  const NotFound: string := "Пользователь не найден."

  /** `RuleFor(property).NotNull().NotEmpty()`, with the default cascade (every rule runs). */
  function Required(propertyName: string, displayName: string): Chain {
    Chain(propertyName, displayName, false, [Check(FluentRules.NotNull, None), Check(NotEmpty, None)])
  }

  /** A mandatory text field the validator accepts: present and not blank. */
  predicate Filled(s: Option<string>) {
    s.Some? && !IsBlank(s.value)
  }

  /** One mandatory field's chain: no failure exactly when the field is filled, and at most two. */
  function CheckRequired(propertyName: string, displayName: string, s: Option<string>): (fs: seq<ValidationFailure>)
    ensures |fs| == 0 <==> Filled(s)
    ensures |fs| <= 2
  {
    var c := Required(propertyName, displayName);
    var fs := Evaluate(c, TextValue(s), AnyText);
    assert |fs| == 0 <==> Passes(c.checks[0].rule, TextValue(s), AnyText) && Passes(c.checks[1].rule, TextValue(s), AnyText);
    fs
  }

  /** `Validator`: the failures of the six chains, in declaration order. `Links` is not checked. */
  function Validate(cmd: Command): (fs: seq<ValidationFailure>)
    ensures |fs| == 0 <==>
              Filled(cmd.fullName) && Filled(cmd.programmingLanguage) && Filled(cmd.languageLevel)
              && Filled(cmd.country) && Filled(cmd.city) && Filled(cmd.skills)
    ensures |fs| <= 12
  {
    CheckRequired("FullName", "Full Name", cmd.fullName)
    + CheckRequired("ProgrammingLanguage", "Programming Language", cmd.programmingLanguage)
    + CheckRequired("LanguageLevel", "Language Level", cmd.languageLevel)
    + CheckRequired("Country", "Country", cmd.country)
    + CheckRequired("City", "City", cmd.city)
    + CheckRequired("Skills", "Skills", cmd.skills)
  }

  /** A null mandatory field is reported twice: by `NotNull` and again by `NotEmpty`. */
  lemma NullFieldReportedTwice(propertyName: string, displayName: string)
    ensures var fs := CheckRequired(propertyName, displayName, None);
            |fs| == 2 && fs[0].errorCode == "NotNullValidator" && fs[1].errorCode == "NotEmptyValidator"
  {
    var c := Required(propertyName, displayName);
    assert EvaluateChecks(c, c.checks[2..], Null, AnyText) == [];
    assert EvaluateChecks(c, c.checks[1..], Null, AnyText) == [FailureOf(c, c.checks[1], Null)];
  }

  /**
   * The row the handler builds, when every mandatory field is present and no
   * period has a null in a non-null column; otherwise the save rejects it.
   */
  function NewResume(cmd: Command, id: int): (r: Option<Resume>)
    ensures r.Some? <==> cmd.fullName.Some? && cmd.programmingLanguage.Some? && cmd.languageLevel.Some?
                         && cmd.country.Some? && cmd.city.Some? && cmd.skills.Some?
                         && (forall i :: 0 <= i < |cmd.educationPeriods| ==>
                               cmd.educationPeriods[i].name.Some? && cmd.educationPeriods[i].city.Some?)
                         && (forall i :: 0 <= i < |cmd.workPeriods| ==>
                               cmd.workPeriods[i].position.Some? && cmd.workPeriods[i].employer.Some?
                               && cmd.workPeriods[i].city.Some?)
    ensures r.Some? ==> r.value.id == id && r.value.userId == cmd.userId
                        && r.value.status == Pending && !r.value.isApproved && !r.value.isRejected
                        && Some(r.value.fullName) == cmd.fullName && Some(r.value.skills) == cmd.skills
                        && Some(r.value.programmingLanguage) == cmd.programmingLanguage
                        && Some(r.value.languageLevel) == cmd.languageLevel
                        && Some(r.value.country) == cmd.country && Some(r.value.city) == cmd.city
                        && r.value.links == cmd.links
                        && |r.value.educationPeriods| == |cmd.educationPeriods|
                        && (forall i :: 0 <= i < |cmd.educationPeriods| ==>
                              CopiesEducation(r.value.educationPeriods[i], cmd.educationPeriods[i]))
                        && |r.value.workPeriods| == |cmd.workPeriods|
                        && (forall i :: 0 <= i < |cmd.workPeriods| ==>
                              CopiesWork(r.value.workPeriods[i], cmd.workPeriods[i]))
  {
    var education := AdaptEducationPeriods(cmd.educationPeriods);
    var work := AdaptWorkPeriods(cmd.workPeriods);
    if cmd.fullName.Some? && cmd.programmingLanguage.Some? && cmd.languageLevel.Some?
       && cmd.country.Some? && cmd.city.Some? && cmd.skills.Some? && education.Some? && work.Some?
    then Some(Resume(id, cmd.userId, false, false, cmd.fullName.value, cmd.programmingLanguage.value,
                     cmd.languageLevel.value, cmd.country.value, cmd.city.value, cmd.links, Pending,
                     cmd.skills.value, education.value, work.value))
    else None
  }

  /**
   * The handler on a store value.  An unknown owner is a failure that changes
   * nothing; a missing or over-long column makes the save throw, changing
   * nothing; otherwise exactly one resume is added, with the next id, and the
   * response describes it.  The owner's `IsBlocked` flag plays no part.
   */
  function Apply(t: Tables, cmd: Command): (r: (Outcome<ResumeResponse>, Tables))
    requires t.Valid()
    ensures r.1.Valid()
    ensures r.0.Fail? <==> cmd.userId !in t.UserIds()
    ensures r.0.Fail? ==> r.0 == FailWith(NotFound)
    ensures !r.0.Ok? ==> r.1 == t
    ensures r.0.Ok? <==> cmd.userId in t.UserIds() && NewResume(cmd, t.nextResumeId).Some?
                         && NewResume(cmd, t.nextResumeId).value.WithinBounds()
    ensures r.0.Thrown? ==> r.0.ex == DbUpdate
    ensures r.0.Ok? ==>
              var nr := NewResume(cmd, t.nextResumeId).value;
              && r.1 == t.(resumes := t.resumes + [nr], nextResumeId := t.nextResumeId + 1)
              && r.0 == Ok(Some(ResumeToResponse(nr)))
  {
    match t.UserById(cmd.userId)
    case None => (FailWith(NotFound), t)
    case Some(i) =>
      match NewResume(cmd, t.nextResumeId)
      case None => (Thrown(DbUpdate), t)
      case Some(nr) =>
        if !nr.WithinBounds() then (Thrown(DbUpdate), t)
        else
          AppendResumeKeepsValid(t, nr);
          (Ok(Some(ResumeToResponse(nr))), t.(resumes := t.resumes + [nr], nextResumeId := t.nextResumeId + 1))
  }

  /**
   * A period that arrives with a null required string makes the save throw
   * once the owner is found; the store is left as it was.
   */
  lemma NullInPeriodThrows(t: Tables, cmd: Command, k: nat)
    requires t.Valid() && cmd.userId in t.UserIds()
    requires k < |cmd.workPeriods| && cmd.workPeriods[k].employer.None?
    ensures Apply(t, cmd) == (Thrown(DbUpdate), t)
  {
  }

  /** `Handler.Handle`: find the owner, build the row, append it to the owner's resumes, save. */
  method Handle(db: AppDbContext, cmd: Command) returns (r: Outcome<ResumeResponse>)
    requires db.Valid()
    modifies db
    ensures db.Valid()
    ensures (r, db.State()) == Apply(old(db.State()), cmd)
  {
    ghost var before := db.State();
    var owner := db.State().UserById(cmd.userId);
    if owner.None? {
      return FailWith(NotFound);
    }
    var row := NewResume(cmd, db.nextResumeId);
    if row.None? || !row.value.WithinBounds() {
      return Thrown(DbUpdate);
    }
    db.resumes := db.resumes + [row.value];
    db.nextResumeId := db.nextResumeId + 1;
    StateValid(db, Apply(before, cmd).1);
    r := Ok(Some(ResumeToResponse(row.value)));
  }

  /** The pipeline around the handler: the validator's failures short-circuit, otherwise the handler runs. */
  method Send(db: AppDbContext, cmd: Command) returns (r: Outcome<ResumeResponse>)
    requires db.Valid()
    modifies db
    ensures db.Valid()
    ensures |Validate(cmd)| > 0 ==> r == Fail(ValidationPipeline.ToErrors(Validate(cmd))) && db.State() == old(db.State())
    ensures |Validate(cmd)| == 0 ==> (r, db.State()) == Apply(old(db.State()), cmd)
  {
    match ValidationPipeline.ShortCircuit(Some(ValidationPipeline.ValidationResult(Validate(cmd)))) {
      case Some(errors) => r := Fail(errors);
      case None => r := Handle(db, cmd);
    }
  }

  /**
   * The caller's resume list (the `User.Resumes` navigation) grows by exactly
   * the new resume, at its end; every other user's list is unchanged.
   */
  lemma {:induction false} AppendsToOwnersList(t: Tables, cmd: Command, other: int)
    requires t.Valid() && Apply(t, cmd).0.Ok?
    ensures var t2 := Apply(t, cmd).1;
            var nr := NewResume(cmd, t.nextResumeId).value;
            && t2.OwnedBy(cmd.userId) == t.OwnedBy(cmd.userId) + [nr]
            && (other != cmd.userId ==> t2.OwnedBy(other) == t.OwnedBy(other))
  {
    var nr := NewResume(cmd, t.nextResumeId).value;
    WhereAppend(t.resumes, nr, (x: Resume) => x.userId == cmd.userId);
    WhereAppend(t.resumes, nr, (x: Resume) => x.userId == other);
  }
}
