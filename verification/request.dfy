/**
 * The incoming request: its HTTP method and its decoded JSON body, the
 * four-way classification the handler makes before doing any work, and
 * the normalised submission (sanitised names, defaults for optional fields).
 */
module Request {
  import opened Wrappers
  import opened Html

  /** One entry of the `wrong` array; each sub-field may be absent or null. */
  datatype WrongItem = WrongItem(nr: Option<string>, user: Option<string>, correct: Option<string>)

  /**
   * The decoded JSON object, one field per key the handler reads. `None`
   * means the key is missing or null, which is what `isset` rejects.
   * Numbers are taken after PHP's `(int)` cast.
   */
  datatype Body = Body(
    firstName: Option<string>,
    lastName: Option<string>,
    trainingDate: Option<string>,
    score: Option<int>,
    total: Option<int>,
    duration: Option<int>,
    wrong: Option<seq<WrongItem>>,
    trainingEndTime: Option<string>)

  /** The submission once validated, sanitised and defaulted. */
  datatype Submission = Submission(
    firstName: string,
    lastName: string,
    trainingDate: string,
    score: int,
    total: int,
    duration: int,
    wrong: seq<WrongItem>,
    endTime: string)

  /** What the handler decides before it builds any mail. */
  datatype Verdict =
    | Preflight
    | MethodNotAllowed
    | BadRequest
    | Accept(submission: Submission)

  /**
   * The three required fields are all set. A body that failed to decode
   * (`None`) has none of them.
   */
  predicate HasRequired(body: Option<Body>) {
    body.Some? && body.value.firstName.Some? && body.value.lastName.Some? && body.value.trainingDate.Some?
  }

  /**
   * Applies the sanitiser to the required fields and the defaults to the
   * optional ones: score 0, total 12, duration 0, no wrong answers, and
   * `now` as the end time.
   */
  function Normalise(body: Body, now: string): (s: Submission)
    requires body.firstName.Some? && body.lastName.Some? && body.trainingDate.Some?
    ensures Safe(s.firstName) && Safe(s.lastName) && Safe(s.trainingDate)
    ensures AmpersandsEncoded(s.firstName) && AmpersandsEncoded(s.lastName) && AmpersandsEncoded(s.trainingDate)
    ensures Unescape(s.firstName) == Strings.Trim(body.firstName.value)
    ensures Unescape(s.lastName) == Strings.Trim(body.lastName.value)
    ensures Unescape(s.trainingDate) == Strings.Trim(body.trainingDate.value)
    ensures s.score == (if body.score.Some? then body.score.value else 0)
    ensures s.total == (if body.total.Some? then body.total.value else 12)
    ensures s.duration == (if body.duration.Some? then body.duration.value else 0)
    ensures s.wrong == (if body.wrong.Some? then body.wrong.value else [])
    ensures s.endTime == (if body.trainingEndTime.Some? then body.trainingEndTime.value else now)
  {
    Submission(
      Sanitize(body.firstName.value),
      Sanitize(body.lastName.value),
      Sanitize(body.trainingDate.value),
      body.score.ValueOr(0),
      body.total.ValueOr(12),
      body.duration.ValueOr(0),
      body.wrong.ValueOr([]),
      body.trainingEndTime.ValueOr(now))
  }

  /**
   * OPTIONS is a preflight; any other method but POST is refused; a POST
   * without the three required fields is a bad request; the rest go ahead.
   * Method names are compared exactly, as PHP's `===` does.
   */
  function Classify(verb: string, body: Option<Body>, now: string): (v: Verdict)
    ensures v.Preflight? <==> verb == "OPTIONS"
    ensures v.MethodNotAllowed? <==> verb != "OPTIONS" && verb != "POST"
    ensures v.BadRequest? <==> verb == "POST" && !HasRequired(body)
    ensures v.Accept? <==> verb == "POST" && HasRequired(body)
    ensures v.Accept? ==> v.submission == Normalise(body.value, now)
  {
    if verb == "OPTIONS" then Preflight
    else if verb != "POST" then MethodNotAllowed
    else if !HasRequired(body) then BadRequest
    else Accept(Normalise(body.value, now))
  }
}
