/**
 * The success/failure envelope of Shared/Result.cs, Shared/GenericResult.cs and
 * Shared/Error.cs, modelled as written, plus the `Ok`/`Fail` envelope that the
 * request handlers are written against (`Result.Fail`, `Result.Ok()`,
 * `IsFailure`), which Result.cs does not define.
 */
module Results {
  import opened Wrappers

  /** Shared/Error.cs: a message and a code. */
  datatype Error = Error(message: string, code: string)

  /** The one-argument `Error(message)` constructor: the code is the empty string. */
  function MessageError(message: string): (e: Error)
    ensures e.message == message && e.code == ""
  {
    Error(message, "")
  }

  /**
   * `Result<TValue>` with its abstract base `Result`.  `IsSuccess`, `Value`,
   * `HasValue` and `Errors` are the properties; `Errors` starts as an empty list.
   */
  class Result<T> {
    var isSuccess: bool
    var value: Option<T>
    var hasValue: bool
    var errors: seq<Error>

    /** `IsError => IsSuccess != true`. */
    function IsError(): (b: bool)
      reads this
      ensures b <==> !isSuccess
    {
      isSuccess != true
    }

    /** `internal Result()`. */
    constructor Empty()
      ensures isSuccess && !IsError()
      ensures value == None && !hasValue && errors == []
    {
      isSuccess := true;
      value := None;
      hasValue := false;
      errors := [];
    }

    /** `internal Result(TValue value)`: stores the value, yet `HasValue` stays false. */
    constructor WithValue(v: T)
      ensures isSuccess && !IsError()
      ensures value == Some(v) && !hasValue && errors == []
    {
      isSuccess := true;
      value := Some(v);
      hasValue := false;
      errors := [];
    }

    /**
     * `internal Result(Error error)`: appends the error to the initially empty
     * list, but also sets `IsSuccess = true`, so the result does not report an error.
     */
    constructor WithError(e: Error)
      ensures isSuccess && !IsError()
      ensures value == None && !hasValue && errors == [e]
    {
      isSuccess := true;
      value := None;
      hasValue := false;
      errors := [];
      new;
      errors := errors + [e];
    }

    /** `internal Result(List<Error> errors)`: takes the list as it is, again with `IsSuccess = true`. */
    constructor WithErrors(es: seq<Error>)
      ensures isSuccess && !IsError()
      ensures value == None && !hasValue && errors == es
    {
      isSuccess := true;
      value := None;
      hasValue := false;
      errors := es;
    }

    /** `Deconstruct(out isSuccess, out value, out errors)`: a plain read of the three properties. */
    method Deconstruct() returns (success: bool, v: Option<T>, es: seq<Error>)
      ensures success == isSuccess && v == value && es == errors
    {
      success, v, es := isSuccess, value, errors;
    }
  }

  /** `implicit operator Result<TValue>(TValue value)`. */
  method FromValue<T>(v: T) returns (r: Result<T>)
    ensures fresh(r) && r.isSuccess && r.value == Some(v) && !r.hasValue && r.errors == []
  {
    r := new Result.WithValue(v);
  }

  /** `implicit operator Result<TValue>(Error error)`. */
  method FromError<T>(e: Error) returns (r: Result<T>)
    ensures fresh(r) && r.isSuccess && r.value == None && !r.hasValue && r.errors == [e]
  {
    r := new Result.WithError(e);
  }

  /** `implicit operator Result<TValue>(List<Error> errors)`. */
  method FromErrors<T>(es: seq<Error>) returns (r: Result<T>)
    ensures fresh(r) && r.isSuccess && r.value == None && !r.hasValue && r.errors == es
  {
    r := new Result.WithErrors(es);
  }

  /** `Result.Ok<TValue>()`: no value, no errors. */
  method Ok<T>() returns (r: Result<T>)
    ensures fresh(r) && r.isSuccess && !r.IsError()
    ensures r.value == None && !r.hasValue && r.errors == []
  {
    r := new Result.Empty();
  }

  /** `Result.Ok<TValue>(value)`: exactly that value, no errors. */
  method OkWith<T>(v: T) returns (r: Result<T>)
    ensures fresh(r) && r.isSuccess && !r.IsError()
    ensures r.value == Some(v) && !r.hasValue && r.errors == []
  {
    r := new Result.WithValue(v);
  }

  /** `Result.Bad<TValue>(message)`: one error with an empty code, and still `IsError == false`. */
  method Bad<T>(message: string) returns (r: Result<T>)
    ensures fresh(r) && r.isSuccess && !r.IsError()
    ensures r.value == None && r.errors == [Error(message, "")]
  {
    r := new Result.WithError(MessageError(message));
  }

  /** `Result.Bad<TValue>(message, code)`. */
  method BadWithCode<T>(message: string, code: string) returns (r: Result<T>)
    ensures fresh(r) && r.isSuccess && !r.IsError()
    ensures r.value == None && r.errors == [Error(message, code)]
  {
    r := new Result.WithError(Error(message, code));
  }

  /** `Result.Bad<TValue>(Error error)`. */
  method BadError<T>(e: Error) returns (r: Result<T>)
    ensures fresh(r) && r.isSuccess && !r.IsError()
    ensures r.value == None && r.errors == [e]
  {
    r := new Result.WithError(e);
  }

  /** `Result.Bad<TValue>(List<Error> errors)`: exactly the given list. */
  method BadErrors<T>(es: seq<Error>) returns (r: Result<T>)
    ensures fresh(r) && r.isSuccess && !r.IsError()
    ensures r.value == None && r.errors == es
  {
    r := new Result.WithErrors(es);
  }

  /** An exception that escapes a handler instead of a returned result. */
  datatype Exception =
    | DbUpdate     // SaveChanges rejected a row (a NOT NULL or column-length violation)
    | ArgumentNull // a library call received null
    | ArgumentOutOfRange // date arithmetic left the range of `DateTime`

  /**
   * The envelope the handlers return: `Result.Ok()` / `Result.Ok(value)` /
   * implicit conversion of a value is `Ok`, `Result.Fail(...)` is `Fail`;
   * `Thrown` records that the handler threw instead of returning.
   */
  datatype Outcome<+T> = Ok(value: Option<T>) | Fail(errors: seq<Error>) | Thrown(ex: Exception) {

    /** `IsFailure`, which the endpoints test before answering 400. */
    predicate IsFailure() {
      Fail?
    }
  }

  /** `Result.Fail(message)`: a failure with exactly one error with that message. */
  function FailWith<T>(message: string): (r: Outcome<T>)
    ensures r.IsFailure() && r.errors == [Error(message, "")]
  {
    Fail([MessageError(message)])
  }
}
