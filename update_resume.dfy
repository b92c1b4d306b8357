/**
 * Features/Resumes/UpdateResume.cs: the owner asks to change a resume.  The
 * validator checks the `Props` payload, but the handler never reads it: it
 * finds the caller's resume, marks the row as updated with its own values and
 * saves, so no column changes.
 */
module UpdateResume {
  import opened Wrappers
  import opened Results
  import opened Entities
  import opened Contracts
  import opened Data
  import opened FluentRules
  import ValidationPipeline

  /** `UpdateResume.Props`; a property that arrives as JSON null is `None`. */
  datatype Props = Props(
    fullName: Option<string>,
    programmingLanguage: Option<string>,
    languageLevel: Option<string>,
    country: Option<string>,
    city: Option<string>,
    links: Option<string>,
    skills: Option<string>,
    educationPeriods: Option<seq<EducationPeriodRequest>>,
    workPeriods: Option<seq<WorkPeriodRequest>>)

  /** The resume id, the caller's user id and the payload. */
  datatype Command = Command(id: int, userId: int, props: Option<Props>)

  const NotFound: string := "Пользователь не найден."

  /** `RuleFor(c => c.Props.<name>).NotNull()`. */
  function NotNullChain(propertyName: string, displayName: string): Chain {
    Chain(propertyName, displayName, false, [Check(FluentRules.NotNull, None)])
  }

  /** The failures of a `NotNull` chain on one property: one when it is null, none otherwise. */
  function CheckNotNull(propertyName: string, displayName: string, v: Value): (fs: seq<ValidationFailure>)
    ensures |fs| == 0 <==> !v.Null?
    ensures |fs| <= 1
  {
    var c := NotNullChain(propertyName, displayName);
    assert |Evaluate(c, v, AnyText)| == 0 <==> Passes(c.checks[0].rule, v, AnyText);
    Evaluate(c, v, AnyText)
  }

  /** Every property of the payload that the `When` block requires is present (`Links` is not checked). */
  predicate Complete(p: Props) {
    p.fullName.Some? && p.programmingLanguage.Some? && p.languageLevel.Some? && p.country.Some?
    && p.city.Some? && p.skills.Some? && p.educationPeriods.Some? && p.workPeriods.Some?
  }

  /**
   * `Validator`: `Props` must be present (`NotNull` and `NotEmpty`, both
   * reported when it is null); when it is, the eight `NotNull` rules of the
   * `When` block run.
   */
  function Validate(cmd: Command): (fs: seq<ValidationFailure>)
    ensures |fs| == 0 <==> cmd.props.Some? && Complete(cmd.props.value)
    ensures cmd.props.None? ==> |fs| == 2
    ensures |fs| <= 8
  {
    var c := Chain("Props", "Props", false, [Check(FluentRules.NotNull, None), Check(NotEmpty, None)]);
    match cmd.props
    case None =>
      assert EvaluateChecks(c, c.checks[2..], Null, AnyText) == [];
      Evaluate(c, Null, AnyText)
    case Some(p) =>
      assert |Evaluate(c, NonNull, AnyText)| == 0 <==>
             Passes(c.checks[0].rule, NonNull, AnyText) && Passes(c.checks[1].rule, NonNull, AnyText);
      Evaluate(c, NonNull, AnyText)
      + CheckNotNull("Props.FullName", "Props Full Name", TextValue(p.fullName))
      + CheckNotNull("Props.ProgrammingLanguage", "Props Programming Language", TextValue(p.programmingLanguage))
      + CheckNotNull("Props.LanguageLevel", "Props Language Level", TextValue(p.languageLevel))
      + CheckNotNull("Props.Country", "Props Country", TextValue(p.country))
      + CheckNotNull("Props.City", "Props City", TextValue(p.city))
      + CheckNotNull("Props.Skills", "Props Skills", TextValue(p.skills))
      + CheckNotNull("Props.EducationPeriods", "Props Education Periods", ObjectValue(p.educationPeriods))
      + CheckNotNull("Props.WorkPeriods", "Props Work Periods", ObjectValue(p.workPeriods))
  }

  /** A null property under a `NotNull` chain is reported once, with the default message naming its display name. */
  lemma NullReportedByName(propertyName: string, displayName: string)
    ensures CheckNotNull(propertyName, displayName, Null)
            == [ValidationFailure(propertyName, "'" + displayName + "' must not be empty.", "NotNullValidator")]
  {
    var c := NotNullChain(propertyName, displayName);
    assert EvaluateChecks(c, c.checks[1..], Null, AnyText) == [];
  }

  /**
   * A payload whose only gap is a null `FullName` gets one failure, filed under
   * the path `Props.FullName` with the display name `Props Full Name` that
   * FluentValidation derives from that path.
   */
  lemma NullFullNameReported(cmd: Command)
    requires cmd.props.Some? && cmd.props.value.fullName.None?
    requires var p := cmd.props.value;
             p.programmingLanguage.Some? && p.languageLevel.Some? && p.country.Some? && p.city.Some?
             && p.skills.Some? && p.educationPeriods.Some? && p.workPeriods.Some?
    ensures Validate(cmd) == [ValidationFailure("Props.FullName", "'" + "Props Full Name" + "' must not be empty.", "NotNullValidator")]
  {
    var p := cmd.props.value;
    var pc := Chain("Props", "Props", false, [Check(FluentRules.NotNull, None), Check(NotEmpty, None)]);
    var head := Evaluate(pc, NonNull, AnyText);
    assert head == [] by {
      assert Passes(pc.checks[0].rule, NonNull, AnyText) && Passes(pc.checks[1].rule, NonNull, AnyText);
    }
    var full := CheckNotNull("Props.FullName", "Props Full Name", TextValue(p.fullName));
    NullReportedByName("Props.FullName", "Props Full Name");
    var l := CheckNotNull("Props.ProgrammingLanguage", "Props Programming Language", TextValue(p.programmingLanguage));
    var ll := CheckNotNull("Props.LanguageLevel", "Props Language Level", TextValue(p.languageLevel));
    var co := CheckNotNull("Props.Country", "Props Country", TextValue(p.country));
    var ci := CheckNotNull("Props.City", "Props City", TextValue(p.city));
    var sk := CheckNotNull("Props.Skills", "Props Skills", TextValue(p.skills));
    var ep := CheckNotNull("Props.EducationPeriods", "Props Education Periods", ObjectValue(p.educationPeriods));
    var wp := CheckNotNull("Props.WorkPeriods", "Props Work Periods", ObjectValue(p.workPeriods));
    assert l == [] && ll == [] && co == [] && ci == [] && sk == [] && ep == [] && wp == [];
    assert Validate(cmd) == head + full + l + ll + co + ci + sk + ep + wp;
  }

  /**
   * The handler on a store value: a failure unless the caller owns a resume
   * with that id, and in every case the store is left exactly as it was,
   * whatever the payload says.
   */
  function Apply(t: Tables, cmd: Command): (r: (Outcome<()>, Tables))
    ensures r.1 == t
    ensures r.0 == Ok(None) || r.0 == FailWith(NotFound)
    ensures r.0.Ok? <==> exists k :: 0 <= k < |t.resumes| && t.resumes[k].id == cmd.id && t.resumes[k].userId == cmd.userId
  {
    match t.OwnedResume(cmd.id, cmd.userId)
    case None => (FailWith(NotFound), t)
    case Some(_) => (Ok(None), t)
  }

  /** `Handler.Handle`: find the caller's row, `Update` it with its own values and save. */
  method Handle(db: AppDbContext, cmd: Command) returns (r: Outcome<()>)
    ensures (r, db.State()) == Apply(db.State(), cmd)
  {
    var found := db.State().OwnedResume(cmd.id, cmd.userId);
    if found.None? {
      return FailWith(NotFound);
    }
    r := Ok(None);
  }

  /** The pipeline around the handler: the validator's failures short-circuit, otherwise the handler runs. */
  method Send(db: AppDbContext, cmd: Command) returns (r: Outcome<()>)
    ensures |Validate(cmd)| > 0 ==> r == Fail(ValidationPipeline.ToErrors(Validate(cmd)))
    ensures |Validate(cmd)| == 0 ==> r == Apply(db.State(), cmd).0
  {
    match ValidationPipeline.ShortCircuit(Some(ValidationPipeline.ValidationResult(Validate(cmd)))) {
      case Some(errors) => r := Fail(errors);
      case None => r := Handle(db, cmd);
    }
  }

  /**
   * Two requests that differ only in their payloads have the same outcome:
   * the stored resume never reflects what was sent.
   */
  lemma PayloadIgnored(t: Tables, id: int, userId: int, p: Option<Props>, q: Option<Props>)
    ensures Apply(t, Command(id, userId, p)) == Apply(t, Command(id, userId, q))
  {
  }
}
