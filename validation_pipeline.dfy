/**
 * Shared/Behaviors/ValidationPipelineBehavior.cs: run the request's validator;
 * when it reports failures, answer with a failure built from them and never
 * call the next handler; otherwise answer with what the handler returns.
 */
module ValidationPipeline {
  import opened Wrappers
  import opened Results
  import opened FluentRules

  /** FluentValidation's `ValidationResult`: the failures in the order the rules reported them. */
  datatype ValidationResult = ValidationResult(errors: seq<ValidationFailure>)

  /** `valResult.Errors.Select(f => new Error(f.ErrorMessage, f.ErrorCode)).ToList()`. */
  function ToErrors(fs: seq<ValidationFailure>): (es: seq<Error>)
    ensures |es| == |fs|
    ensures forall i :: 0 <= i < |fs| ==> es[i].message == fs[i].errorMessage && es[i].code == fs[i].errorCode
  {
    if fs == [] then [] else [Error(fs[0].errorMessage, fs[0].errorCode)] + ToErrors(fs[1..])
  }

  /**
   * The behaviour's decision: `Some(errors)` when it short-circuits
   * (`valResult != null && valResult.Errors.Any()`), `None` when it calls `next`.
   */
  function ShortCircuit(valResult: Option<ValidationResult>): (r: Option<seq<Error>>)
    ensures r.Some? <==> valResult.Some? && |valResult.value.errors| > 0
    ensures r.Some? ==> r.value == ToErrors(valResult.value.errors) && |r.value| > 0
  {
    if valResult.Some? && |valResult.value.errors| > 0 then Some(ToErrors(valResult.value.errors)) else None
  }

  /**
   * `Handle(request, next)`: a failure carrying one error per validation
   * failure, or the handler's own answer, unchanged.
   */
  function Handle<T>(valResult: Option<ValidationResult>, next: () -> Outcome<T>): (r: Outcome<T>)
    ensures valResult.Some? && |valResult.value.errors| > 0 ==>
              r.Fail? && r.errors == ToErrors(valResult.value.errors)
    ensures (valResult.None? || valResult.value.errors == []) ==> r == next()
  {
    match ShortCircuit(valResult)
    case Some(errors) => Fail(errors)
    case None => next()
  }

  /** The errors keep the failures' order: the k-th error comes from the k-th failure. */
  lemma {:induction false} ToErrorsDistributes(a: seq<ValidationFailure>, b: seq<ValidationFailure>)
    ensures ToErrors(a + b) == ToErrors(a) + ToErrors(b)
  {
    if a != [] {
      assert (a + b)[1..] == a[1..] + b;
      ToErrorsDistributes(a[1..], b);
    }
  }
}
