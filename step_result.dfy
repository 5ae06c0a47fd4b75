/**
 * The result records every orchestrator operation returns
 * (`StepResultBase` and `StepResult<T>`). Their properties are mutable
 * fields; the constructors set some of them and leave the others at the
 * C# defaults: 0 for `StatusCode`, false for `Success`, null (`None`) for
 * `Message`, `Exception` and `Data`. An exception object is represented by
 * its message.
 */
module Models {
  import opened Options

  class StepResultBase {
    /** Status code of the operation, if one is needed. */
    var StatusCode: int
    /** Whether the operation succeeded. */
    var Success: bool
    var Message: Option<string>
    var Exception: Option<string>

    /** `StepResultBase()`. */
    constructor ()
      ensures StatusCode == 500 && !Success && Message == None && Exception == None
    {
      StatusCode, Success, Message, Exception := 500, false, None, None;
    }

    /** `StepResultBase(string message)`. */
    constructor WithMessage(message: string)
      ensures StatusCode == 500 && !Success && Message == Some(message) && Exception == None
    {
      StatusCode, Success, Message, Exception := 500, false, Some(message), None;
    }

    /** `StepResultBase(string message, int statusCode)`. */
    constructor WithStatusCode(message: string, statusCode: int)
      ensures StatusCode == statusCode && !Success && Message == Some(message) && Exception == None
    {
      StatusCode, Success, Message, Exception := statusCode, false, Some(message), None;
    }

    /** `StepResultBase(string message, bool success)`. */
    constructor WithOutcome(message: string, success: bool)
      ensures StatusCode == 0 && Success == success && Message == Some(message) && Exception == None
    {
      StatusCode, Success, Message, Exception := 0, success, Some(message), None;
    }

    /** `StepResultBase(string message, bool success, Exception exception)`. */
    constructor WithException(message: string, success: bool, exception: Option<string>)
      ensures StatusCode == 0 && Success == success && Message == Some(message) && Exception == exception
    {
      StatusCode, Success, Message, Exception := 0, success, Some(message), exception;
    }

    /** `StepResultBase(bool success)`. */
    constructor FromSuccess(success: bool)
      ensures StatusCode == 0 && Success == success && Message == None && Exception == None
    {
      StatusCode, Success, Message, Exception := 0, success, None, None;
    }
  }

  /**
   * `StepResult<T>`: the fields of `StepResultBase` and a `Data` field. Dafny
   * classes do not inherit, so the base fields are declared again here and
   * each constructor sets them as the base constructor it chains to does.
   */
  class StepResult<T> {
    var StatusCode: int
    var Success: bool
    var Message: Option<string>
    var Exception: Option<string>
    /** The data the operation returns; `None` is `default(T)` for a reference type. */
    var Data: Option<T>

    /** `StepResult()` : `base()`. */
    constructor ()
      ensures StatusCode == 500 && !Success && Message == None && Exception == None && Data == None
    {
      StatusCode, Success, Message, Exception, Data := 500, false, None, None, None;
    }

    /** `StepResult(bool success)` : `base(success)`. */
    constructor FromSuccess(success: bool)
      ensures StatusCode == 0 && Success == success && Message == None && Exception == None && Data == None
    {
      StatusCode, Success, Message, Exception, Data := 0, success, None, None, None;
    }

    /** `StepResult(string message)` : `base(message)`. */
    constructor WithMessage(message: string)
      ensures StatusCode == 500 && !Success && Message == Some(message) && Exception == None && Data == None
    {
      StatusCode, Success, Message, Exception, Data := 500, false, Some(message), None, None;
    }

    /** `StepResult(string message, int statusCode)` : `base(message, statusCode)`. */
    constructor WithStatusCode(message: string, statusCode: int)
      ensures StatusCode == statusCode && !Success && Message == Some(message) && Exception == None && Data == None
    {
      StatusCode, Success, Message, Exception, Data := statusCode, false, Some(message), None, None;
    }

    /** `StepResult(string message, bool success)` : `base(message, success)`. */
    constructor WithOutcome(message: string, success: bool)
      ensures StatusCode == 0 && Success == success && Message == Some(message) && Exception == None && Data == None
    {
      StatusCode, Success, Message, Exception, Data := 0, success, Some(message), None, None;
    }

    /** `StepResult(bool success, T data)` : `base(success)`. */
    constructor WithData(success: bool, data: Option<T>)
      ensures StatusCode == 0 && Success == success && Message == None && Exception == None && Data == data
    {
      StatusCode, Success, Message, Exception, Data := 0, success, None, None, data;
    }

    /** `StepResult(string message, bool success, T data)` : `base(message, success)`. */
    constructor WithMessageAndData(message: string, success: bool, data: Option<T>)
      ensures StatusCode == 0 && Success == success && Message == Some(message) && Exception == None && Data == data
    {
      StatusCode, Success, Message, Exception, Data := 0, success, Some(message), None, data;
    }
  }
}
