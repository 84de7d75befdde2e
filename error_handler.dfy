/**
 * The Express error middleware: log the error's message once, then answer
 * 400 with the message for a validation failure or the duplicate-account
 * message, and 500 with a fixed text for anything else. The winston logger
 * is a sequence of logged lines that the handler appends to.
 */
module ErrorHandler {
  import opened Options
  import opened Errors
  import opened UserModel

  /** The response sent and the log after the call. */
  datatype Handled = Handled(response: Response, log: seq<string>)

  const SomethingWentWrong := Response(500, ErrorBody("Something went wrong."))

  /** `errorHandler(err, req, res, next)`. */
  function HandleError(err: Error, log: seq<string>): (out: Handled)
    ensures out.log == log + [err.message]
    ensures out.response.status == 400 <==> err.name == "ValidationError" || err.message == DuplicateMessage
    ensures out.response.status == 400 ==> out.response.body == ErrorBody(err.message)
    ensures out.response.status != 400 ==> out.response == SomethingWentWrong
  {
    var log' := log + [err.message];
    if err.name == "ValidationError" then Handled(Response(400, ErrorBody(err.message)), log')
    else if err.message == DuplicateMessage then Handled(Response(400, ErrorBody(err.message)), log')
    else Handled(SomethingWentWrong, log')
  }

  /** The same two tests in the other order: the message test first. */
  function MessageFirst(err: Error, log: seq<string>): Handled {
    var log' := log + [err.message];
    if err.message == DuplicateMessage then Handled(Response(400, ErrorBody(DuplicateMessage)), log')
    else if err.name == "ValidationError" then Handled(Response(400, ErrorBody(err.message)), log')
    else Handled(SomethingWentWrong, log')
  }

  /**
   * Testing the name before the message decides nothing: both 400 branches
   * send the error's own message, so either order gives the same answer.
   */
  lemma PrecedenceUnobservable(err: Error, log: seq<string>)
    ensures HandleError(err, log) == MessageFirst(err, log)
  {
  }

  /** Two errors that reach the last branch get the same answer, whatever their messages. */
  lemma ServerErrorHidesMessage(e1: Error, e2: Error, log: seq<string>)
    requires e1.name != "ValidationError" && e1.message != DuplicateMessage
    requires e2.name != "ValidationError" && e2.message != DuplicateMessage
    ensures HandleError(e1, log).response == HandleError(e2, log).response
    ensures HandleError(e1, log).response.body != ErrorBody(e1.message) || e1.message == "Something went wrong."
  {
  }

  /** One line is logged per call, and it comes after everything logged before. */
  lemma LogsOnceInOrder(e1: Error, e2: Error, log: seq<string>)
    ensures HandleError(e2, HandleError(e1, log).log).log == log + [e1.message, e2.message]
  {
  }

  /**
   * The duplicate key the driver reports as a `MongoError` with code 11000
   * leaves the post-save hook as the duplicate message and is answered 400
   * here, although the registration handler's own test for the code misses it.
   */
  lemma HookedDuplicateIsBadRequest(message: string, log: seq<string>)
    ensures HandleError(PostSaveHook(Error("MongoError", message, Some(DuplicateKeyCode))), log).response
         == Response(400, ErrorBody(DuplicateMessage))
  {
  }

  /** A save that fails validation is answered 400 with the validation error's message. */
  lemma ValidationFailureIsBadRequest(st: StoreState, f: Fields, nowMs: nat, fault: Option<Error>, log: seq<string>)
    requires Validate(Cast(f, nowMs), st.records) != []
    ensures SaveOutcome(st, f, nowMs, fault).0.Some?
    ensures var e := SaveOutcome(st, f, nowMs, fault).0.value;
            HandleError(e, log).response == Response(400, ErrorBody(e.message))
  {
    SaveErrorSource(st, f, nowMs, fault);
  }
}
