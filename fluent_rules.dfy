/**
 * The subset of FluentValidation that the validators use: a rule chain per
 * property, evaluated in declaration order, either running every rule
 * (`CascadeMode.Continue`, the default) or stopping at the first failing rule
 * (`CascadeMode.Stop`).  `EmailAddress()` is left abstract: it is the
 * predicate `isEmail` supplied by the caller.
 */
module FluentRules {
  import opened Wrappers
  import opened Linq

  /** What a rule looks at: a null, a string, or a non-null object or list. */
  datatype Value = Null | Text(s: string) | NonNull

  function TextValue(s: Option<string>): Value {
    if s.Some? then Text(s.value) else Null
  }

  function ObjectValue<T>(o: Option<T>): Value {
    if o.Some? then NonNull else Null
  }

  /** The rules that occur in the validators. `Matches` keeps its pattern and the character class it searches for. */
  datatype Rule =
    | NotNull
    | NotEmpty
    | Length(min: nat, max: nat)
    | MinimumLength(min: nat)
    | Matches(pattern: string, charClass: set<char>)
    | EmailAddress

  /** A rule with its optional `.WithMessage(...)`. */
  datatype Check = Check(rule: Rule, customMessage: Option<string>)

  /** The e-mail predicate given to validators that have no `EmailAddress` rule, where it is never consulted. */
  function AnyText(s: string): bool {
    true
  }

  /** The custom `.WithMessage` the user validators attach to `EmailAddress()`. */
  const EmailFormatMessage: string := "Почта не соответствует формату."

  /** `RuleFor(c => c.Property)` followed by its rules; `stop` is `Cascade(CascadeMode.Stop)`. */
  datatype Chain = Chain(propertyName: string, displayName: string, stop: bool, checks: seq<Check>)

  /** FluentValidation's `ValidationFailure`: property, message and error code. */
  datatype ValidationFailure = ValidationFailure(propertyName: string, errorMessage: string, errorCode: string)

  /** `char.IsWhiteSpace`: the Unicode space separators, line and paragraph separators, and U+0009–U+000D, U+0085. */
  predicate IsWhiteSpace(c: char) {
    c == ' ' || ('\t' <= c <= '\r') || c == '\U{85}' || c == '\U{A0}' || c == '\U{1680}'
    || ('\U{2000}' <= c <= '\U{200A}') || c == '\U{2028}' || c == '\U{2029}' || c == '\U{202F}'
    || c == '\U{205F}' || c == '\U{3000}'
  }

  /** `string.IsNullOrWhiteSpace` on a non-null string. */
  predicate IsBlank(s: string) {
    forall i :: 0 <= i < |s| ==> IsWhiteSpace(s[i])
  }

  /** `Regex.IsMatch(s, "[...]")`: some character of `s` is in the class (a search, not a full match). */
  predicate ContainsAny(s: string, charClass: set<char>) {
    exists i :: 0 <= i < |s| && s[i] in charClass
  }

  /**
   * Whether a rule accepts a value.  Only `NotNull` and `NotEmpty` reject null;
   * every other rule accepts it, as FluentValidation's validators do.
   */
  predicate Passes(rule: Rule, v: Value, isEmail: string -> bool) {
    match rule
    case NotNull => !v.Null?
    case NotEmpty => !v.Null? && !(v.Text? && IsBlank(v.s))
    case Length(min, max) => v.Text? ==> min <= |v.s| <= max
    case MinimumLength(min) => v.Text? ==> min <= |v.s|
    case Matches(_, cls) => v.Text? ==> ContainsAny(v.s, cls)
    case EmailAddress => v.Text? ==> isEmail(v.s)
  }

  /** The validator's error code, which is the name of its class. */
  function ErrorCode(rule: Rule): string {
    match rule
    case NotNull => "NotNullValidator"
    case NotEmpty => "NotEmptyValidator"
    case Length(_, _) => "LengthValidator"
    case MinimumLength(_) => "MinimumLengthValidator"
    case Matches(_, _) => "RegularExpressionValidator"
    case EmailAddress => "EmailValidator"
  }

  /** Decimal rendering of an integer, as `ToString()` produces it. */
  function IntToString(n: int): string
    decreases if n < 0 then -n + 1 else n
  {
    if n < 0 then "-" + IntToString(-n)
    else if n < 10 then [DigitChar(n)]
    else IntToString(n / 10) + [DigitChar(n % 10)]
  }

  function DigitChar(d: int): char
    requires 0 <= d < 10
  {
    "0123456789"[d]
  }

  /** The library's English default message for a rule, used when no `.WithMessage` is given. */
  function DefaultMessage(rule: Rule, displayName: string, v: Value): string {
    var entered := if v.Text? then IntToString(|v.s|) else "0";
    match rule
    case NotNull => "'" + displayName + "' must not be empty."
    case NotEmpty => "'" + displayName + "' must not be empty."
    case Length(min, max) =>
      "'" + displayName + "' must be between " + IntToString(min) + " and " + IntToString(max)
      + " characters. You entered " + entered + " characters."
    case MinimumLength(min) =>
      "The length of '" + displayName + "' must be at least " + IntToString(min)
      + " characters. You entered " + entered + " characters."
    case Matches(_, _) => "'" + displayName + "' is not in the correct format."
    case EmailAddress => "'" + displayName + "' is not a valid email address."
  }

  /** The failure a check reports against a value. */
  function FailureOf(chain: Chain, c: Check, v: Value): (f: ValidationFailure)
    ensures f.propertyName == chain.propertyName && f.errorCode == ErrorCode(c.rule)
    ensures c.customMessage.Some? ==> f.errorMessage == c.customMessage.value
  {
    ValidationFailure(chain.propertyName,
                      c.customMessage.GetOr(DefaultMessage(c.rule, chain.displayName, v)),
                      ErrorCode(c.rule))
  }

  /** The filter that selects the checks rejecting `v`. */
  function Rejects(v: Value, isEmail: string -> bool): Check -> bool {
    (c: Check) => !Passes(c.rule, v, isEmail)
  }

  /** The failure each check of `chain` reports against `v`. */
  function FailureFor(chain: Chain, v: Value): Check -> ValidationFailure {
    (c: Check) => FailureOf(chain, c, v)
  }

  /** Evaluates the checks from `checks` onwards, in order, under the chain's cascade mode. */
  function EvaluateChecks(chain: Chain, checks: seq<Check>, v: Value, isEmail: string -> bool): (r: seq<ValidationFailure>)
    ensures |r| == 0 <==> forall k :: 0 <= k < |checks| ==> Passes(checks[k].rule, v, isEmail)
    ensures chain.stop ==> |r| <= 1
    ensures !chain.stop ==> |r| == Count(checks, Rejects(v, isEmail))
    ensures |r| <= |checks|
    ensures forall f :: f in r ==> f.propertyName == chain.propertyName
  {
    if checks == [] then []
    else if Passes(checks[0].rule, v, isEmail) then EvaluateChecks(chain, checks[1..], v, isEmail)
    else if chain.stop then [FailureOf(chain, checks[0], v)]
    else [FailureOf(chain, checks[0], v)] + EvaluateChecks(chain, checks[1..], v, isEmail)
  }

  /** The failures of a whole rule chain against the property's value. */
  function Evaluate(chain: Chain, v: Value, isEmail: string -> bool): (r: seq<ValidationFailure>)
    ensures |r| == 0 <==> forall k :: 0 <= k < |chain.checks| ==> Passes(chain.checks[k].rule, v, isEmail)
    ensures chain.stop ==> |r| <= 1
    ensures |r| <= |chain.checks|
  {
    EvaluateChecks(chain, chain.checks, v, isEmail)
  }

  /**
   * Under `CascadeMode.Stop` the single failure, if any, belongs to the FIRST
   * rule that rejects the value: every rule before it passed.
   */
  lemma {:induction false} StopReportsFirstFailing(chain: Chain, checks: seq<Check>, v: Value, isEmail: string -> bool, k: nat)
    requires chain.stop && k < |checks| && !Passes(checks[k].rule, v, isEmail)
    requires forall j :: 0 <= j < k ==> Passes(checks[j].rule, v, isEmail)
    ensures EvaluateChecks(chain, checks, v, isEmail) == [FailureOf(chain, checks[k], v)]
  {
    if k > 0 {
      StopReportsFirstFailing(chain, checks[1..], v, isEmail, k - 1);
    }
  }

  /**
   * Under `CascadeMode.Continue` the failures are exactly one per rejecting rule,
   * in declaration order: here, the first failure is that of the first rejecting rule.
   */
  lemma {:induction false} ContinueStartsWithFirstFailing(chain: Chain, checks: seq<Check>, v: Value, isEmail: string -> bool, k: nat)
    requires !chain.stop && k < |checks| && !Passes(checks[k].rule, v, isEmail)
    requires forall j :: 0 <= j < k ==> Passes(checks[j].rule, v, isEmail)
    ensures var r := EvaluateChecks(chain, checks, v, isEmail);
            |r| >= 1 && r[0] == FailureOf(chain, checks[k], v)
  {
    if k > 0 {
      ContinueStartsWithFirstFailing(chain, checks[1..], v, isEmail, k - 1);
    }
  }

  /**
   * Under `CascadeMode.Continue` the failures are those of the rejecting rules,
   * one each and in declaration order.
   */
  lemma {:induction false} ContinueReportsEveryFailing(chain: Chain, checks: seq<Check>, v: Value, isEmail: string -> bool)
    requires !chain.stop
    ensures EvaluateChecks(chain, checks, v, isEmail) == Select(Where(checks, Rejects(v, isEmail)), FailureFor(chain, v))
  {
    if checks != [] {
      ContinueReportsEveryFailing(chain, checks[1..], v, isEmail);
      var rest := Where(checks[1..], Rejects(v, isEmail));
      if !Passes(checks[0].rule, v, isEmail) {
        assert ([checks[0]] + rest)[1..] == rest;
      }
    }
  }
}
