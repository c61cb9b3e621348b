/**
 * The `/analyze` request handler as a function of its inputs: the upload,
 * the outcome of the model call and the JSON parser.  It returns the HTTP
 * status and JSON body the handler replies with, and whether the model
 * was called at all.
 */
module Handler {
  import opened Wrappers
  import opened Text
  import opened Fences
  import opened Upload

  /** What the model call (and reading its `.text`) produced: the text, or the message of the exception it raised. */
  datatype ModelOutcome = Ok(text: string) | Fail(message: string)

  /** `{"error": ...}` or `{"result": ...}`, where `J` is whatever `json.loads` builds. */
  datatype Body<J> = ErrorBody(error: string) | ResultBody(result: J)

  datatype Reply<J> = Reply(status: nat, body: Body<J>)

  /** The reply, and whether the model call on the way was reached. */
  datatype Handled<J> = Handled(reply: Reply<J>, modelCalled: bool)

  const Success: nat := 200
  const TooManyRequests: nat := 429
  const ServerError: nat := 500

  const FormatMessage := "Gemini returned an unexpected format. Please try again."
  // The two longer messages are written in two pieces: the verifier does
  // not look inside a string literal of this length character by character.
  const KeyMessage := "Invalid Gemini API key. " + "Check your .env file."
  const RateMessage := "API rate limit hit. " + "Please wait 60 seconds and try again."
  const FailurePrefix := "Analysis failed: "

  /** `'API_KEY' in msg or ('invalid' in msg.lower() and 'key' in msg.lower())`, as Python groups it. */
  predicate IsKeyError(msg: string)
  {
    Contains(msg, "API_KEY") || (Contains(Lower(msg), "invalid") && Contains(Lower(msg), "key"))
  }

  /** `'quota' in msg.lower() or '429' in msg or 'rate' in msg.lower()`. */
  predicate IsRateError(msg: string)
  {
    Contains(Lower(msg), "quota") || Contains(msg, "429") || Contains(Lower(msg), "rate")
  }

  /** The reply to an exception raised by the model call: the key check first, then the rate check. */
  function ClassifyFailure<J>(msg: string): (r: Reply<J>)
    ensures r.status == TooManyRequests <==> !IsKeyError(msg) && IsRateError(msg)
    ensures r.status != TooManyRequests ==> r.status == ServerError
    ensures r.body == ErrorBody(KeyMessage) <==> IsKeyError(msg)
    ensures r.body == ErrorBody(RateMessage) <==> !IsKeyError(msg) && IsRateError(msg)
    ensures r.body == ErrorBody(FailurePrefix + msg) <==> !IsKeyError(msg) && !IsRateError(msg)
  {
    assert (FailurePrefix + msg)[0] == 'A' && KeyMessage[0] == 'I';
    assert (FailurePrefix + msg)[1] == 'n' && RateMessage[1] == 'P';
    if IsKeyError(msg) then Reply(ServerError, ErrorBody(KeyMessage))
    else if IsRateError(msg) then Reply(TooManyRequests, ErrorBody(RateMessage))
    else Reply(ServerError, ErrorBody(FailurePrefix + msg))
  }

  /** The reply once `json.loads` has run on the cleaned-up text. */
  function ParseReply<J>(parsed: Option<J>): Reply<J>
  {
    match parsed
    case Some(result) => Reply(Success, ResultBody(result))
    case None => Reply(ServerError, ErrorBody(FormatMessage))
  }

  /**
   * The handler: validation, then the model call, then fence clean-up and
   * `json.loads`.  A parse failure has its own `except` clause ahead of the
   * generic one, so it never reaches the key and rate checks.
   */
  function Analyze<J>(u: Upload, outcome: ModelOutcome, parse: string -> Option<J>): (h: Handled<J>)
    ensures h.modelCalled <==> Validate(u).Accept?
    ensures !h.modelCalled ==> h.reply == Reply(BadRequest, ErrorBody(Validate(u).message))
    ensures h.modelCalled && outcome.Fail? ==> h.reply == ClassifyFailure(outcome.message)
    ensures h.modelCalled && outcome.Ok? && parse(StripFences(outcome.text)).Some?
            ==> h.reply == Reply(Success, ResultBody(parse(StripFences(outcome.text)).value))
    ensures h.modelCalled && outcome.Ok? && parse(StripFences(outcome.text)).None?
            ==> h.reply == Reply(ServerError, ErrorBody(FormatMessage))
    ensures h.reply.status in {Success, BadRequest, TooManyRequests, ServerError}
    ensures h.reply.status == Success
            <==> h.modelCalled && outcome.Ok? && parse(StripFences(outcome.text)).Some?
  {
    match Validate(u)
    case Reject(status, message) => Handled(Reply(status, ErrorBody(message)), false)
    case Accept =>
      var reply :=
        match outcome
        case Fail(msg) => ClassifyFailure(msg)
        case Ok(text) => ParseReply(parse(StripFences(text)));
      Handled(reply, true)
  }

  /** Whatever the model and the parser would do, a rejected upload gets the same reply. */
  lemma RejectionIgnoresModel<J>(u: Upload, o1: ModelOutcome, p1: string -> Option<J>,
                                 o2: ModelOutcome, p2: string -> Option<J>)
    requires Validate(u).Reject?
    ensures Analyze(u, o1, p1) == Analyze(u, o2, p2)
    ensures Analyze(u, o1, p1).reply == Reply(BadRequest, ErrorBody(Validate(u).message))
  {
  }

  /** An empty upload gets a 400 and the model is never called. */
  lemma EmptyContentNeverCallsModel<J>(filename: string, outcome: ModelOutcome, parse: string -> Option<J>)
    ensures !Analyze(File(filename, 0), outcome, parse).modelCalled
    ensures Analyze(File(filename, 0), outcome, parse).reply.status == BadRequest
  {
  }

  /** The model is only called for a named `.pdf` upload with at least one byte of content. */
  lemma ModelCallNeedsAllChecks<J>(u: Upload, outcome: ModelOutcome, parse: string -> Option<J>)
    requires Analyze(u, outcome, parse).modelCalled
    ensures u.File? && u.filename != "" && IsPdfName(u.filename) && u.size >= 1
  {
  }

  /** A parse failure is reported as such, whatever the text contains (`429`, `API_KEY`, ...). */
  lemma ParseFailureIsFormatError<J>(u: Upload, text: string, parse: string -> Option<J>)
    ensures Validate(u).Accept? && parse(StripFences(text)).None?
            ==> Analyze(u, Ok(text), parse).reply == Reply(ServerError, ErrorBody(FormatMessage))
  {
  }

  /** In the handler's reply, the key check wins over the rate check. */
  lemma KeyErrorWins<J>(u: Upload, msg: string, parse: string -> Option<J>)
    requires Validate(u).Accept? && IsKeyError(msg)
    ensures Analyze(u, Fail(msg), parse).reply == Reply(ServerError, ErrorBody(KeyMessage))
  {
  }

  /**
   * A model failure that is not a key error but looks like a rate limit
   * gets the 429 reply; every other failure gets a 500.
   */
  lemma RateLimitReply<J>(u: Upload, msg: string, parse: string -> Option<J>)
    requires Validate(u).Accept?
    ensures Analyze(u, Fail(msg), parse).reply.status == TooManyRequests
            <==> !IsKeyError(msg) && IsRateError(msg)
    ensures !IsKeyError(msg) && IsRateError(msg)
            ==> Analyze(u, Fail(msg), parse).reply == Reply(TooManyRequests, ErrorBody(RateMessage))
    ensures !IsKeyError(msg) && !IsRateError(msg)
            ==> Analyze(u, Fail(msg), parse).reply == Reply(ServerError, ErrorBody(FailurePrefix + msg))
  {
  }

  /**
   * The rate check looks for `rate` anywhere in the lower-cased message, so
   * a message mentioning "generate" (as in `generate_content`) is reported as
   * a rate limit unless it is a key error.
   */
  lemma GenerateCountsAsRate<J>(msg: string)
    requires Contains(Lower(msg), "generate") && !IsKeyError(msg)
    ensures ClassifyFailure<J>(msg) == Reply(TooManyRequests, ErrorBody(RateMessage))
  {
    assert StartsAt("generate", 4, "rate");
    ContainsTransitive(Lower(msg), "generate", "rate");
  }

  /** The key check comes first: a message with both `429` and `API_KEY` is a key error, not a rate limit. */
  lemma KeyBeatsRateExample<J>()
    ensures ClassifyFailure<J>("429 RESOURCE_EXHAUSTED: API_KEY quota") == Reply(ServerError, ErrorBody(KeyMessage))
  {
    assert StartsAt("429 RESOURCE_EXHAUSTED: API_KEY quota", 24, "API_KEY");
  }

  /** `invalid` and `key` are matched case-insensitively. */
  lemma InvalidKeyExample<J>()
    ensures ClassifyFailure<J>("Invalid Key").body == ErrorBody(KeyMessage)
  {
    var low := Lower("Invalid Key");
    assert low == "invalid key";
    assert StartsAt(low, 0, "invalid") && StartsAt(low, 8, "key");
  }

  lemma RateExample<J>()
    ensures ClassifyFailure<J>("429 Too Many Requests") == Reply(TooManyRequests, ErrorBody(RateMessage))
  {
    var msg := "429 Too Many Requests";
    MissingCharNotContained(msg, "API_KEY", 'K');
    var low := Lower(msg);
    assert low == "429 too many requests";
    MissingCharNotContained(low, "invalid", 'v');
    assert StartsAt(msg, 0, "429");
  }

  /** `invalid` without `key` is not a key error; with no rate marker either, the raw message is passed on. */
  lemma PlainFailureExample<J>()
    ensures ClassifyFailure<J>("invalid input") == Reply(ServerError, ErrorBody("Analysis failed: invalid input"))
  {
    PlainMessageNotKey();
    PlainMessageNotRate();
  }

  lemma PlainMessageNotKey()
    ensures !IsKeyError("invalid input")
  {
    var msg := "invalid input";
    LowerUnchanged(msg);
    MissingCharNotContained(msg, "API_KEY", 'A');
    MissingCharNotContained(msg, "key", 'k');
  }

  lemma PlainMessageNotRate()
    ensures !IsRateError("invalid input")
  {
    var msg := "invalid input";
    LowerUnchanged(msg);
    MissingCharNotContained(msg, "quota", 'q');
    MissingCharNotContained(msg, "429", '4');
    MissingCharNotContained(msg, "rate", 'r');
  }

  /**
   * A reply to a fenced JSON text is the reply to the bare JSON text: the
   * markers and the whitespace around them make no difference.
   */
  lemma FencedReplyIsBareReply<J>(u: Upload, lead: string, json: string, trail: string, parse: string -> Option<J>)
    requires AllSpace(lead) && AllSpace(trail) && !Contains(json, Fence)
    ensures Analyze(u, Ok(lead + "```json\n" + json + "\n```" + trail), parse) == Analyze(u, Ok(json), parse)
    ensures Validate(u).Accept? ==>
      Analyze(u, Ok(lead + "```json\n" + json + "\n```" + trail), parse).reply == ParseReply(parse(Strip(json)))
  {
    StripFencesOfFencedJson(lead, json, trail);
    StripFencesWithoutFence(json);
  }
}
