/** One chat completion, retried only where trying again could answer differently. */
module ChatClient {
  import opened Options

  const MAX_ATTEMPTS_CEILING: int := 4
  const RETRYABLE_STATUS_CODES: set<int> := {408, 429, 500, 502, 503, 504}

  /** The error codes a stage wants for each family of failure. */
  datatype ErrorMap = ErrorMap(timeout: string, provider: string, configuration: string, response: string)

  const WRITER_ERRORS :=
    ErrorMap("WRITER_TIMEOUT", "WRITER_PROVIDER_ERROR", "WRITER_CONFIGURATION_ERROR", "WRITER_RESPONSE_ERROR")
  const FINALIZER_ERRORS :=
    ErrorMap("FINALIZE_TIMEOUT", "FINALIZE_PROVIDER_ERROR", "FINALIZE_CONFIGURATION_ERROR", "FINALIZE_RESPONSE_ERROR")

  predicate KnownStage(errors: ErrorMap) {
    errors == WRITER_ERRORS || errors == FINALIZER_ERRORS
  }

  /** An error's code, and the status among its details if there is one. */
  datatype PipelineError = PipelineError(code: string, status: Option<int>)

  /** What one post meets. `content` is the visible answer, where the body holds a
      usable one. */
  datatype PostOutcome = NoResponseInTime | Unreachable | Answered(status: int, content: Option<string>)

  /** Turn a status into the right kind of refusal, or let it pass. */
  function StatusRefusal(errors: ErrorMap, status: int): Option<PipelineError> {
    if 200 <= status < 300 then None
    else if status in {301, 302, 303, 307, 308} then Some(PipelineError(errors.provider, Some(status)))
    else if status in {401, 403} then Some(PipelineError(errors.configuration, Some(status)))
    else if status in RETRYABLE_STATUS_CODES then Some(PipelineError(errors.provider, Some(status)))
    else Some(PipelineError(errors.configuration, Some(status)))
  }

  function Attempt(errors: ErrorMap, outcome: PostOutcome): Result<string, PipelineError> {
    match outcome
    case NoResponseInTime => Err(PipelineError(errors.timeout, None))
    case Unreachable => Err(PipelineError(errors.provider, None))
    case Answered(status, content) =>
      match StatusRefusal(errors, status)
      case Some(e) => Err(e)
      case None => if content.Some? then Ok(content.value) else Err(PipelineError(errors.response, None))
  }

  predicate EndsWith(text: string, suffix: string) {
    |suffix| <= |text| && text[|text| - |suffix|..] == suffix
  }

  predicate IsTransportCode(code: string) {
    code == "WRITER_PROVIDER_ERROR" || code == "FINALIZE_PROVIDER_ERROR"
  }

  predicate Retryable(e: PipelineError) {
    match e.status
    case None => EndsWith(e.code, "_PROVIDER_ERROR") || IsTransportCode(e.code)
    case Some(status) => status in RETRYABLE_STATUS_CODES
  }

  /** Failures of a moment rather than of the request: no connection, or a status
      that says "later". A timeout is not one of them. */
  predicate Momentary(outcome: PostOutcome) {
    outcome.Unreachable? || (outcome.Answered? && outcome.status in {408, 429, 500, 502, 503, 504})
  }

  /** The classification by code and status retries exactly the momentary outcomes. */
  lemma RetriesExactlyMomentary(errors: ErrorMap, outcome: PostOutcome)
    requires KnownStage(errors)
    ensures Attempt(errors, outcome).Err? && Retryable(Attempt(errors, outcome).error) <==> Momentary(outcome)
  {
    hide EndsWith, IsTransportCode, KnownStage;
    CodeSuffixes(errors);
    NotTransportCodes(errors);
    if outcome.Answered? {
      AnsweredRetryable(errors, outcome);
    }
  }

  /** With a status, the status decides. */
  lemma AnsweredRetryable(errors: ErrorMap, outcome: PostOutcome)
    requires outcome.Answered?
    requires !EndsWith(errors.response, "_PROVIDER_ERROR") && !IsTransportCode(errors.response)
    ensures Attempt(errors, outcome).Err? && Retryable(Attempt(errors, outcome).error) <==> Momentary(outcome)
  {
    hide EndsWith, IsTransportCode;
    SuccessIsNotRetryable(outcome.status);
  }

  lemma SuccessIsNotRetryable(status: int)
    ensures status in RETRYABLE_STATUS_CODES ==> status >= 400 && status != 401 && status != 403
  {
  }

  lemma NotTransportCodes(errors: ErrorMap)
    requires KnownStage(errors)
    ensures IsTransportCode(errors.provider)
    ensures !IsTransportCode(errors.timeout) && !IsTransportCode(errors.response)
  {
    assert |errors.timeout| < |errors.provider| && |errors.response| == |errors.provider|;
    assert errors.response[|errors.response| - 14] == 'R';
    assert WRITER_ERRORS.provider[|WRITER_ERRORS.provider| - 14] == 'P';
    assert FINALIZER_ERRORS.provider[|FINALIZER_ERRORS.provider| - 14] == 'P';
  }

  lemma CodeSuffixes(errors: ErrorMap)
    requires KnownStage(errors)
    ensures !EndsWith(errors.timeout, "_PROVIDER_ERROR") && !EndsWith(errors.response, "_PROVIDER_ERROR")
  {
    assert errors.timeout[|errors.timeout| - 1] == 'T' && "_PROVIDER_ERROR"[14] == 'R';
    assert errors.response[|errors.response| - 14] == 'R' && "_PROVIDER_ERROR"[1] == 'P';
  }

  // ----- the loop ------------------------------------------------------------------

  function AttemptLimit(maxRetries: int): int {
    if maxRetries + 1 < MAX_ATTEMPTS_CEILING then maxRetries + 1 else MAX_ATTEMPTS_CEILING
  }

  /** Attempt after attempt from post number `k` on, with `left` attempts to go:
      the result and the number of posts made. */
  function CompleteFrom(errors: ErrorMap, outcomes: nat -> PostOutcome, k: nat, left: nat)
    : (Result<string, PipelineError>, nat)
    requires left >= 1
    decreases left
  {
    var r := Attempt(errors, outcomes(k));
    if r.Ok? || !Retryable(r.error) || left == 1 then (r, 1)
    else
      var (final, posts) := CompleteFrom(errors, outcomes, k + 1, left - 1);
      (final, posts + 1)
  }

  class Transport {
    const outcomes: nat -> PostOutcome
    var posts: nat

    constructor (outcomes: nat -> PostOutcome)
      ensures this.outcomes == outcomes && posts == 0
    {
      this.outcomes, posts := outcomes, 0;
    }

    method Post() returns (outcome: PostOutcome)
      modifies this
      ensures posts == old(posts) + 1 && outcome == outcomes(old(posts))
    {
      outcome := outcomes(posts);
      posts := posts + 1;
    }
  }

  method Complete(errors: ErrorMap, maxRetries: int, transport: Transport) returns (r: Result<string, PipelineError>)
    modifies transport
    ensures maxRetries < 0
        ==> r == Err(PipelineError(errors.provider, None)) && transport.posts == old(transport.posts)
    ensures maxRetries >= 0
        ==> (r, transport.posts - old(transport.posts))
            == CompleteFrom(errors, transport.outcomes, old(transport.posts), if maxRetries < 3 then maxRetries + 1 else 4)
  {
    hide Attempt, Retryable;
    var attempts := AttemptLimit(maxRetries);
    if attempts < 1 {
      return Err(PipelineError(errors.provider, None));
    }
    var attempt := 1;
    ghost var start := transport.posts;
    while true
      invariant 1 <= attempt <= attempts && transport.posts == start + attempt - 1
      invariant var (final, posts) := CompleteFrom(errors, transport.outcomes, transport.posts, attempts - attempt + 1);
                CompleteFrom(errors, transport.outcomes, start, attempts) == (final, posts + attempt - 1)
      decreases attempts - attempt
    {
      var outcome := transport.Post();
      r := Attempt(errors, outcome);
      if r.Ok? || !Retryable(r.error) || attempt == attempts {
        return;
      }
      attempt := attempt + 1;
    }
  }

  /** For every sequence of outcomes: between one post and the limit; the result is
      that of the last post; every earlier one was momentary; and stopping before
      the limit takes a success or a failure that is not. */
  lemma {:induction false} CompleteMeaning(errors: ErrorMap, outcomes: nat -> PostOutcome, k: nat, left: nat)
    requires KnownStage(errors) && left >= 1
    ensures var (r, posts) := CompleteFrom(errors, outcomes, k, left);
            && 1 <= posts <= left
            && r == Attempt(errors, outcomes(k + posts - 1))
            && (forall i | k <= i < k + posts - 1 :: Momentary(outcomes(i)))
            && (posts < left ==> !Momentary(outcomes(k + posts - 1)))
    decreases left
  {
    hide KnownStage, Retryable, Attempt, Momentary;
    RetriesExactlyMomentary(errors, outcomes(k));
    var r := Attempt(errors, outcomes(k));
    if r.Err? && Retryable(r.error) && left > 1 {
      CompleteMeaning(errors, outcomes, k + 1, left - 1);
    }
  }

  // ----- what comes back -------------------------------------------------------------

  /** The post was answered well, with this visible content. */
  predicate Delivers(outcome: PostOutcome, content: string) {
    outcome.Answered? && 200 <= outcome.status < 300 && outcome.content == Some(content)
  }

  /** What the outcome of a post is refused as: which family of failure, and the status
      where one came back. */
  predicate RefusedAs(errors: ErrorMap, outcome: PostOutcome, e: PipelineError) {
    match outcome
    case NoResponseInTime => e.code == errors.timeout && e.status == None
    case Unreachable => e.code == errors.provider && e.status == None
    case Answered(status, content) =>
      if 200 <= status < 300 then content == None && e.code == errors.response && e.status == None
      else
        e.status == Some(status)
        && e.code == if status in {301, 302, 303, 307, 308, 408, 429, 500, 502, 503, 504} then errors.provider
                     else errors.configuration
  }

  /** One attempt returns the content of a good answer, and refuses everything else as
      what it is. */
  lemma AttemptExactly(errors: ErrorMap, outcome: PostOutcome)
    ensures var r := Attempt(errors, outcome);
            && (forall content :: r == Ok(content) <==> Delivers(outcome, content))
            && (r.Err? <==> exists e :: RefusedAs(errors, outcome, e))
            && (r.Err? ==> RefusedAs(errors, outcome, r.error))
  {
    var r := Attempt(errors, outcome);
    if r.Err? {
      assert RefusedAs(errors, outcome, r.error);
    }
  }

  /** And so does the whole: it returns a content exactly when the last post delivers
      it, and otherwise refuses as that post is refused. */
  lemma CompleteExactly(errors: ErrorMap, outcomes: nat -> PostOutcome, k: nat, left: nat)
    requires KnownStage(errors) && left >= 1
    ensures var (r, posts) := CompleteFrom(errors, outcomes, k, left);
            && 1 <= posts <= left
            && (forall content :: r == Ok(content) <==> Delivers(outcomes(k + posts - 1), content))
            && (r.Err? ==> RefusedAs(errors, outcomes(k + posts - 1), r.error))
            && (forall i | k <= i < k + posts - 1 :: Momentary(outcomes(i)))
            && (posts < left ==> !Momentary(outcomes(k + posts - 1)))
  {
    hide Attempt, CompleteFrom, KnownStage, Delivers, RefusedAs, Momentary;
    CompleteMeaning(errors, outcomes, k, left);
    var posts := CompleteFrom(errors, outcomes, k, left).1;
    AttemptExactly(errors, outcomes(k + posts - 1));
  }
}
