/** What holds of every run of the request engine. */
module TransportProperties {
  import opened Prelude
  import opened BodyReader
  import opened Contract
  import opened Observer
  import opened Runs
  import opened Sampler
  import opened Sanitize
  import opened Transport

  // ----- environments that can occur

  ghost predicate RoundIsMonotone(round: Round) {
    && 0.0 <= round.elapsed
    && (round.fetch.Rejected? ==> round.elapsed <= round.fetch.elapsedAtCatch <= round.fetch.elapsedAtDecision)
  }

  ghost predicate ClockIsMonotone(script: Script) {
    && (forall k | 0 <= k < |script.rounds| :: RoundIsMonotone(script.rounds[k]))
    && (forall k | 1 <= k < |script.rounds| ::
          script.rounds[k - 1].fetch.Rejected? ==>
            script.rounds[k - 1].fetch.elapsedAtDecision <= script.rounds[k].elapsed)
  }

  ghost predicate FlagIsMonotone(script: Script) {
    forall s, t :: 0 <= s <= t && script.aborted(s) ==> script.aborted(t)
  }

  /** The attempt's signal is up only because the caller aborted or the timer fired, and never comes down. */
  ghost predicate SignalIsHonest(call: Call, script: Script, k: nat)
    requires k < |script.rounds|
  {
    match script.rounds[k].fetch
    case Rejected(_, _, _, _, interrupted) => interrupted ==> CallerAborted(call, script, 2 * (k + 1))
    case Responded(response, expired) =>
      && (response.abortedAfterBody ==> expired || CallerAborted(call, script, 2 * k + 2))
      && (response.abortedOnArrival ==> response.abortedAfterBody)
      && (response.body.Some? ==>
            && BodyReader.Coherent(response.body.value, response.abortedOnArrival)
            && forall i | 0 <= i < |response.body.value| ::
                 response.body.value[i].aborted ==> response.abortedAfterBody)
  }

  ghost predicate Coherent(call: Call, script: Script) {
    && ClockIsMonotone(script)
    && FlagIsMonotone(script)
    && forall k | 0 <= k < |script.rounds| :: SignalIsHonest(call, script, k)
  }

  // ----- cancellation

  lemma CancelledDispositionMeansASignal(call: Call, script: Script, k: nat)
    requires k < |script.rounds| && script.rounds[k].fetch.Responded? && SignalIsHonest(call, script, k)
    requires Disposition(call, script.rounds[k].fetch.response) == Err(Cancellation)
    ensures script.rounds[k].fetch.expired || CallerAborted(call, script, 2 * k + 2)
  {
    var response := script.rounds[k].fetch.response;
    if response.body.Some? {
      CancellationsAreHonest(response.body.value, response.abortedOnArrival);
    }
  }

  /**
  The caller's abort outranks every other outcome: a run ends in AbortError exactly when
  the caller's signal is aborted in the turn in which the run settles, which is the turn
  that the engine has reached when it returns.
   */
  lemma CancelledIffAborted(call: Call, script: Script)
    requires Sufficient(call, script) && Coherent(call, script)
    ensures var run := RunOf(Verdicts(call, script));
            run.outcome == Failed(Cancellation) <==> call.hasSignal && script.aborted(run.turn)
  {
    var j := Deciding(Verdicts(call, script), 0);
    assert Verdicts(call, script)[j] == Judge(call, script, j);
    JudgedCancelledIffAborted(call, script, j);
  }

  lemma JudgedCancelledIffAborted(call: Call, script: Script, k: nat)
    requires Sufficient(call, script) && Coherent(call, script) && k < MaximumAttempts(call.key)
    ensures match Judge(call, script, k)
      case NotStarted(failure) => failure == Cancellation <==> CallerAborted(call, script, 2 * k)
      case Settled(_, outcome, turn) => outcome == Failed(Cancellation) <==> CallerAborted(call, script, turn)
      case Retried(_, _, interrupted) => interrupted ==> CallerAborted(call, script, 2 * (k + 1))
  {
    var round := script.rounds[k];
    assert SignalIsHonest(call, script, k);
    if round.fetch.Responded? && Disposition(call, round.fetch.response) == Err(Cancellation) {
      CancelledDispositionMeansASignal(call, script, k);
    }
  }

  /** So an abort at any time up to that turn is what the caller hears of, and nothing else. */
  lemma EarlierAbortWins(call: Call, script: Script, turn: nat)
    requires Sufficient(call, script) && Coherent(call, script)
    requires turn <= RunOf(Verdicts(call, script)).turn && call.hasSignal && script.aborted(turn)
    ensures RunOf(Verdicts(call, script)).outcome == Failed(Cancellation)
  {
    CancelledIffAborted(call, script);
  }

  // ----- dispatches and budgets

  /** The operations that are retried are those with the method GET, but for `sessions.agentAuth`. */
  lemma ReadsAreGets(key: OperationKey)
    ensures key in READS <==> VerbOf(key) == GET && key != SessionsAgentAuth
  {
  }

  /**
  Whatever is not a GET is dispatched at most once, and a GET at most three times; a fetch
  follows only fetches that rejected.
   */
  lemma DispatchBound(call: Call, script: Script)
    requires Sufficient(call, script)
    ensures var vs := Verdicts(call, script);
            && Starts(vs) <= 3
            && (VerbOf(call.key) != GET || call.key == SessionsAgentAuth ==> Starts(vs) <= 1 && Retries(vs) == 0)
            && forall i | 0 <= i < Starts(vs) - 1 :: script.rounds[i].fetch.Rejected?
  {
    var vs := Verdicts(call, script);
    ReadsAreGets(call.key);
    StartedRounds(vs);
    forall i | 0 <= i < Starts(vs) - 1
      ensures script.rounds[i].fetch.Rejected?
    {
      assert Continues(Judge(call, script, i));
    }
    if call.key !in READS {
      assert !Judge(call, script, 0).Retried?;
    }
  }

  /** The limits of one attempt and of the whole call, in milliseconds. */
  lemma Limits(key: OperationKey, timeoutSecs: Option<int>)
    ensures var attempt, total := DeadlineFor(key, timeoutSecs), TotalDeadlineFor(key, timeoutSecs);
            && (VerbOf(key) == GET && key != SessionsAgentAuth ==> attempt == 10_000.0 && total == 30_000.0)
            && (key == SessionsCreate ==> attempt == total == 1_860_000.0)
            && (key == SessionsExec ==>
                  attempt == total
                  == if timeoutSecs.None? then 135_000.0 else timeoutSecs.value as real * 1_000.0 + 15_000.0)
            && ((VerbOf(key) != GET && key != SessionsCreate && key != SessionsExec) || key == SessionsAgentAuth ==>
                  attempt == total == 60_000.0)
  {
    ReadsAreGets(key);
  }

  lemma PowersOfTwo()
    ensures BackoffCap(1) == 100 && BackoffCap(2) == 200
  {
    assert PowerOfTwo(0) == 1;
  }

  lemma AttemptFits(call: Call, script: Script, k: nat)
    requires Sufficient(call, script) && ClockIsMonotone(script) && k < MaximumAttempts(call.key)
    requires !Judge(call, script, k).NotStarted?
    ensures 0.0 < Judge(call, script, k).deadline <= DeadlineFor(call.key, call.timeoutSecs)
    ensures script.rounds[k].elapsed + Judge(call, script, k).deadline <= TotalDeadlineFor(call.key, call.timeoutSecs)
    ensures var deadline, total := Judge(call, script, k).deadline, TotalDeadlineFor(call.key, call.timeoutSecs);
            deadline == DeadlineFor(call.key, call.timeoutSecs) || script.rounds[k].elapsed + deadline == total
  {
    assert RoundIsMonotone(script.rounds[k]);
    assert Judge(call, script, k).deadline == AttemptDeadline(call, script.rounds[k].elapsed);
  }

  lemma DelayFits(call: Call, script: Script, k: nat)
    requires Sufficient(call, script) && k < MaximumAttempts(call.key)
    requires Judge(call, script, k).Retried?
    ensures script.rounds[k].fetch.Rejected?
    ensures Judge(call, script, k).delay <= 100 * (k + 1) <= 200
    ensures FirstResidue(script.rounds[k].fetch.draws, 100 * (k + 1), Judge(call, script, k).delay)
    ensures script.rounds[k].fetch.elapsedAtDecision + Judge(call, script, k).delay as real
          < TotalDeadlineFor(call.key, call.timeoutSecs)
  {
    PowersOfTwo();
    var draws, cap := script.rounds[k].fetch.draws, BackoffCap(k + 1);
    SampleIsAFirstResidue(draws, cap);
  }

  /** The number is the residue, within 0..cap, of the first draw below the largest multiple of cap + 1. */
  ghost predicate FirstResidue(draws: Draws, cap: nat, number: nat) {
    exists position: nat ::
      && AcceptedAt(draws, cap + 1, position) && AllRejected(draws, cap + 1, position)
      && number == draws(position) % (cap + 1)
  }

  lemma SampleIsAFirstResidue(draws: Draws, cap: nat)
    requires Fair(draws, cap + 1)
    ensures FirstResidue(draws, cap, Sample(draws, cap))
  {
    var hit: nat :| AcceptedAt(draws, cap + 1, hit);
    var position := FirstAccepted(draws, cap + 1, 0, hit);
    SampleIsTheFirstAcceptedResidue(draws, cap, position);
  }

  /**
  Every attempt of a run is given some time: its full limit, or what is left of the total
  deadline if that is less.
   */
  lemma AttemptsFitTheBudget(call: Call, script: Script, i: nat)
    requires Sufficient(call, script) && ClockIsMonotone(script)
    requires i < Starts(Verdicts(call, script))
    ensures var verdict := Verdicts(call, script)[i];
            && !verdict.NotStarted?
            && 0.0 < verdict.deadline <= DeadlineFor(call.key, call.timeoutSecs)
            && script.rounds[i].elapsed + verdict.deadline <= TotalDeadlineFor(call.key, call.timeoutSecs)
            && (|| verdict.deadline == DeadlineFor(call.key, call.timeoutSecs)
                || script.rounds[i].elapsed + verdict.deadline == TotalDeadlineFor(call.key, call.timeoutSecs))
  {
    StartedRounds(Verdicts(call, script));
    AttemptFits(call, script, i);
  }

  /**
  Every delay of a run stays within its exponential cap and ends before the total
  deadline, as the clock stood when it was decided.
   */
  lemma DelaysFitTheBudget(call: Call, script: Script, i: nat)
    requires Sufficient(call, script)
    requires i < Retries(Verdicts(call, script))
    ensures var verdict := Verdicts(call, script)[i];
            && verdict.Retried? && script.rounds[i].fetch.Rejected?
            && verdict.delay <= 100 * (i + 1) <= 200
            && FirstResidue(script.rounds[i].fetch.draws, 100 * (i + 1), verdict.delay)
            && script.rounds[i].fetch.elapsedAtDecision + verdict.delay as real
               < TotalDeadlineFor(call.key, call.timeoutSecs)
  {
    StartedRounds(Verdicts(call, script));
    DelayFits(call, script, i);
  }

  // ----- outcomes

  /** Round k begins in time and its fetch settles with the caller still waiting. */
  ghost predicate Waits(call: Call, script: Script, k: nat)
    requires k < |script.rounds|
  {
    && !CallerAborted(call, script, 2 * k) && !CallerAborted(call, script, 2 * k + 1)
    && script.rounds[k].elapsed < TotalDeadlineFor(call.key, call.timeoutSecs)
  }

  /** Its fetch rejects when there is an attempt and some time left for a read. */
  ghost predicate CanRetry(call: Call, script: Script, k: nat)
    requires k < |script.rounds|
  {
    var fetch := script.rounds[k].fetch;
    && fetch.Rejected? && call.key in READS && k + 1 < 3
    && fetch.elapsedAtCatch < TotalDeadlineFor(call.key, call.timeoutSecs)
  }

  /** And the delay drawn ends in time. */
  ghost predicate DelayEndsInTime(call: Call, script: Script, k: nat)
    requires Sufficient(call, script) && k < |script.rounds| && script.rounds[k].fetch.Rejected?
  {
    var fetch := script.rounds[k].fetch;
    var delay := Sample(fetch.draws, BackoffCap(k + 1));
    fetch.elapsedAtDecision + delay as real < TotalDeadlineFor(call.key, call.timeoutSecs)
  }

  /** What the environment must show in round k for the engine to go on to the next. */
  ghost predicate GoesOn(call: Call, script: Script, k: nat)
    requires Sufficient(call, script) && k < |script.rounds|
  {
    && Waits(call, script, k) && CanRetry(call, script, k)
    && DelayEndsInTime(call, script, k) && !script.rounds[k].fetch.interrupted
  }

  lemma ContinuesIff(call: Call, script: Script, k: nat)
    requires Sufficient(call, script) && k < MaximumAttempts(call.key)
    ensures Continues(Judge(call, script, k)) <==> GoesOn(call, script, k)
  {
  }

  /** The rounds before j go on, and j does not. */
  ghost predicate Decides(call: Call, script: Script, j: nat)
    requires Sufficient(call, script)
  {
    j < MaximumAttempts(call.key) && !GoesOn(call, script, j) && forall i | 0 <= i < j :: GoesOn(call, script, i)
  }

  lemma DecidesIff(call: Call, script: Script, j: nat)
    requires Sufficient(call, script)
    ensures Decides(call, script, j) <==> j == Deciding(Verdicts(call, script), 0)
  {
    var vs := Verdicts(call, script);
    forall i | 0 <= i < |vs|
      ensures Continues(vs[i]) <==> GoesOn(call, script, i)
    {
      ContinuesIff(call, script, i);
    }
    if Decides(call, script, j) {
      DecidingIsUnique(vs, j);
    }
  }

  /** A response comes back in round j and is disposed of before the caller aborts. */
  ghost predicate Answers(call: Call, script: Script, j: nat)
    requires j < |script.rounds|
  {
    Waits(call, script, j) && script.rounds[j].fetch.Responded? && !CallerAborted(call, script, 2 * j + 2)
  }

  /** The value comes out of round j, by what the environment shows. */
  ghost predicate DeliversAt(call: Call, script: Script, value: Json, j: nat)
    requires Sufficient(call, script)
  {
    && j < MaximumAttempts(call.key) && (forall i | 0 <= i < j :: GoesOn(call, script, i))
    && Answers(call, script, j) && Deliverable(call, script.rounds[j].fetch.response, value)
  }

  lemma JudgedDelivery(call: Call, script: Script, value: Json, k: nat)
    requires Sufficient(call, script) && k < MaximumAttempts(call.key)
    ensures OutcomeOf(Judge(call, script, k)) == Delivered(value)
       <==> Answers(call, script, k) && Disposition(call, script.rounds[k].fetch.response) == Ok(value)
  {
  }

  /**
  A run delivers a value exactly when fetches reject early enough to be retried until, with
  the caller waiting throughout, a response comes back that can be read and decoded to it.
   */
  lemma DeliversIff(call: Call, script: Script, value: Json)
    requires Sufficient(call, script)
    ensures RunOf(Verdicts(call, script)).outcome == Delivered(value)
       <==> exists j :: DeliversAt(call, script, value, j)
  {
    var d := Deciding(Verdicts(call, script), 0);
    DecidesIff(call, script, d);
    JudgedDelivery(call, script, value, d);
    if script.rounds[d].fetch.Responded? {
      DispositionDeliversIff(call, script.rounds[d].fetch.response, value);
      assert !GoesOn(call, script, d);
    }
    if RunOf(Verdicts(call, script)).outcome == Delivered(value) {
      assert DeliversAt(call, script, value, d);
    }
    forall j | DeliversAt(call, script, value, j)
      ensures j == d
    {
      assert !GoesOn(call, script, j);
      DecidesIff(call, script, j);
    }
  }

  lemma JudgedResponse(call: Call, script: Script, k: nat)
    requires Sufficient(call, script) && k < MaximumAttempts(call.key)
    requires !Judge(call, script, k).NotStarted? && script.rounds[k].fetch.Responded?
    ensures Judge(call, script, k).Settled?
    ensures var outcome, fetch := Judge(call, script, k).outcome, script.rounds[k].fetch;
            outcome != Failed(Cancellation) ==>
              match Disposition(call, fetch.response)
              case Ok(value) => outcome == Delivered(value)
              case Err(failure) => outcome == if fetch.expired then Failed(Timeout) else Failed(failure)
  {
  }

  /**
  Once a response has arrived there is no other fetch, and an uncancelled run ends as the
  response is disposed of, except that a failure seen after the timer fired is a timeout.
   */
  lemma ResponsePhase(call: Call, script: Script, k: nat)
    requires Sufficient(call, script)
    requires k < Starts(Verdicts(call, script)) && script.rounds[k].fetch.Responded?
    ensures k + 1 == Starts(Verdicts(call, script)) && Retries(Verdicts(call, script)) == k
    ensures var outcome, fetch := RunOf(Verdicts(call, script)).outcome, script.rounds[k].fetch;
            outcome != Failed(Cancellation) ==>
              match Disposition(call, fetch.response)
              case Ok(value) => outcome == Delivered(value)
              case Err(failure) => outcome == if fetch.expired then Failed(Timeout) else Failed(failure)
  {
    var vs := Verdicts(call, script);
    StartedRounds(vs);
    assert vs[k] == Judge(call, script, k);
    JudgedResponse(call, script, k);
    DecidingIsUnique(vs, k);
  }

  /**
  The clock runs out before the attempt or before the end of the delay, or the timer fires
  under a fetch or a response that fails.
   */
  ghost predicate TimesOut(call: Call, script: Script, k: nat)
    requires Sufficient(call, script) && k < |script.rounds|
  {
    var Round(elapsed, fetch) := script.rounds[k];
    || (!CallerAborted(call, script, 2 * k) && elapsed >= TotalDeadlineFor(call.key, call.timeoutSecs))
    || (Waits(call, script, k) && fetch.Rejected?
        && if CanRetry(call, script, k) then !DelayEndsInTime(call, script, k) else fetch.expired)
    || (Answers(call, script, k) && fetch.expired && Disposition(call, fetch.response).Err?)
  }

  /** A fetch rejects before its timer fires, and is no GET that is retried, the third one, or too late. */
  ghost predicate GivesUp(call: Call, script: Script, k: nat)
    requires k < |script.rounds|
  {
    var fetch := script.rounds[k].fetch;
    && Waits(call, script, k) && fetch.Rejected? && !fetch.expired
    && (|| VerbOf(call.key) != GET || call.key == SessionsAgentAuth || k >= 2
        || fetch.elapsedAtCatch >= TotalDeadlineFor(call.key, call.timeoutSecs))
  }

  /** A response is disposed of to this failure before the timer fires. */
  ghost predicate Rebuffed(call: Call, script: Script, k: nat, failure: Failure)
    requires k < |script.rounds|
  {
    var fetch := script.rounds[k].fetch;
    Answers(call, script, k) && !fetch.expired && Disposition(call, fetch.response) == Err(failure)
  }

  /** What round k must show for each kind of failure. */
  ghost predicate FailsWith(call: Call, script: Script, k: nat, failure: Failure)
    requires Sufficient(call, script) && k < |script.rounds|
  {
    if failure == Timeout then TimesOut(call, script, k)
    else if failure == TransportFailure then GivesUp(call, script, k)
    else Rebuffed(call, script, k, failure)
  }

  lemma JudgedFailure(call: Call, script: Script, k: nat, failure: Failure)
    requires Sufficient(call, script) && k < MaximumAttempts(call.key) && !GoesOn(call, script, k)
    requires failure != Cancellation
    ensures OutcomeOf(Judge(call, script, k)) == Failed(failure) <==> FailsWith(call, script, k, failure)
  {
    ReadsAreGets(call.key);
    if script.rounds[k].fetch.Responded? {
      DispositionFailures(call, script.rounds[k].fetch.response);
    }
  }

  /**
  Why a run fails, if not by cancellation: with a timeout, a transport failure or any other
  failure exactly when in its deciding round, with the caller waiting, the clock or the
  timer ran out, a fetch rejected that could not be retried, or a response was disposed of
  to that failure in time.
   */
  lemma FailuresHaveACause(call: Call, script: Script, failure: Failure)
    requires Sufficient(call, script) && failure != Cancellation
    ensures var j := Deciding(Verdicts(call, script), 0);
            && Decides(call, script, j)
            && (RunOf(Verdicts(call, script)).outcome == Failed(failure) <==> FailsWith(call, script, j, failure))
  {
    var j := Deciding(Verdicts(call, script), 0);
    DecidesIff(call, script, j);
    JudgedFailure(call, script, j, failure);
  }

  // ----- responses

  /** The bytes of a body that can be read to its end, with the attempt's signal down afterwards. */
  predicate ReadToEnd(response: Response, bytes: seq<Byte>) {
    && !response.abortedAfterBody
    && match response.body
       case None => bytes == []
       case Some(races) =>
         && !response.abortedOnArrival && bytes == Joined(races) && |bytes| <= MAX_RESPONSE_BYTES
         && forall i | 0 <= i < |races| :: Delivers(races[i].event)
  }

  lemma ReadToEndIff(response: Response, bytes: seq<Byte>)
    ensures ReadToEnd(response, bytes) <==> ReadBody(response) == Bytes(bytes) && !response.abortedAfterBody
  {
    if response.body.Some? {
      WholeBodyIff(response.body.value, response.abortedOnArrival);
    }
  }

  /** The status and the headers that the operation asks for. */
  predicate HeadersAgree(call: Call, response: Response) {
    && response.status == call.descriptor.successStatus && !(300 <= response.status < 400)
    && response.media.JsonMedia? && (call.key == AgentSessionsAgentAuth ==> response.noStore)
  }

  /** The bytes of a response that has them and comes with the signal down. */
  predicate Readable(call: Call, response: Response, bytes: seq<Byte>) {
    HeadersAgree(call, response) && !response.abortedOnArrival && ReadToEnd(response, bytes)
  }

  /** Bytes that parse to JSON which passes the screen. */
  predicate Presentable(codec: Codec, bytes: seq<Byte>) {
    codec.parse(bytes).Some? && !ContainsMarker(codec.platform, codec.parse(bytes).value)
  }

  predicate Decodes(codec: Codec, bytes: seq<Byte>, decoded: Result<Json, DecodeError>) {
    Presentable(codec, bytes) && codec.decode(codec.parse(bytes).value) == decoded
  }

  /** A response from which this value can be had; a capability snapshot also needs its own tag in quotes. */
  ghost predicate Deliverable(call: Call, response: Response, value: Json) {
    && (call.key == CapabilitiesGet ==> response.etag == Some("\"" + call.codec.etagOf(value) + "\""))
    && exists bytes :: Readable(call, response, bytes) && Decodes(call.codec, bytes, Ok(value))
  }

  /** What a response with agreeing headers and a body of these bytes is disposed of to. */
  lemma DispositionOfReadable(call: Call, response: Response, bytes: seq<Byte>)
    requires Readable(call, response, bytes)
    ensures Disposition(call, response)
         == if !Presentable(call.codec, bytes) then Err(Transport.Malformed(response))
            else match call.codec.decode(call.codec.parse(bytes).value)
              case Ok(value) =>
                if TagAgrees(call, response, value) then Ok(value) else Err(Transport.Malformed(response))
              case Err(Undecodable) => Err(Transport.Malformed(response))
              case Err(Unforeseen) => Err(UnexpectedFailure)
  {
    ReadToEndIff(response, bytes);
  }

  lemma UnreadableFails(call: Call, response: Response)
    requires forall bytes :: !Readable(call, response, bytes)
    ensures Disposition(call, response).Err? && Disposition(call, response).error != UnexpectedFailure
  {
    if ReadBody(response).Bytes? {
      ReadToEndIff(response, ReadBody(response).bytes);
      assert !Readable(call, response, ReadBody(response).bytes);
    }
  }

  lemma ReadableOnce(call: Call, response: Response, bytes: seq<Byte>, others: seq<Byte>)
    requires Readable(call, response, bytes) && Readable(call, response, others)
    ensures bytes == others
  {
  }

  /**
  A response delivers a value iff it has the success status and the required headers, can
  be read to its end in time, and decodes to a value that it is tagged with.
   */
  lemma DispositionDeliversIff(call: Call, response: Response, value: Json)
    ensures Disposition(call, response) == Ok(value) <==> Deliverable(call, response, value)
  {
    if bytes :| Readable(call, response, bytes) {
      DispositionOfReadable(call, response, bytes);
      forall others | Readable(call, response, others)
        ensures others == bytes
      {
        ReadableOnce(call, response, bytes, others);
      }
    } else {
      UnreadableFails(call, response);
    }
  }

  /** An error that is neither the library's nor the environment's comes out only of a decoder that threw it. */
  lemma UnexpectedIff(call: Call, response: Response)
    ensures Disposition(call, response) == Err(UnexpectedFailure)
       <==> exists bytes :: Readable(call, response, bytes) && Decodes(call.codec, bytes, Err(Unforeseen))
  {
    if bytes :| Readable(call, response, bytes) {
      DispositionOfReadable(call, response, bytes);
      forall others | Readable(call, response, others)
        ensures others == bytes
      {
        ReadableOnce(call, response, bytes, others);
      }
    } else {
      UnreadableFails(call, response);
    }
  }

  /**
  An API failure carries the status of its response; it is `api_error` exactly when the
  status is neither the expected one nor a 2xx or 3xx, and only Problem operations attach a problem.
   */
  lemma DispositionFailures(call: Call, response: Response)
    ensures var disposed := Disposition(call, response);
            disposed.Err? ==> match disposed.error
              case ApiFailure(status, code, problem) =>
                && status == response.status
                && (code == ApiErrorCode <==> status != call.descriptor.successStatus && !(200 <= status < 400))
                && (problem.Some? ==> code == ApiErrorCode && call.descriptor.problems)
              case Cancellation => true
              case UnexpectedFailure => true
              case _ => false
  {
  }

  /**
  What the end of a trace says: success, a cancellation or an error, and for an API failure
  the status of the response that the deciding round brought back.
   */
  lemma EndReportsTheOutcome(call: Call, script: Script)
    requires Sufficient(call, script)
    ensures var trace := Trace(Verdicts(call, script), script.elapsedAtEnd);
            var outcome := RunOf(Verdicts(call, script)).outcome;
            var end, fetch := trace[|trace| - 1], script.rounds[Deciding(Verdicts(call, script), 0)].fetch;
            && end.OperationEnd?
            && (end.outcome == EndState.Success <==> outcome.Delivered?)
            && (end.outcome == EndState.Cancelled <==> outcome == Failed(Cancellation) || outcome == Failed(Timeout))
            && (end.severity == INFO <==> end.outcome == EndState.Success)
            && (end.severity == WARN <==> end.outcome == EndState.Cancelled)
            && (end.httpStatus.Some? <==> outcome.Failed? && outcome.failure.ApiFailure?)
            && (end.httpStatus.Some? <==> end.errorCode.Some?)
            && (end.httpStatus.Some? ==>
                  && fetch.Responded? && end.httpStatus == Some(fetch.response.status)
                  && (end.errorCode == Some(ApiErrorCode)
                      <==> fetch.response.status != call.descriptor.successStatus
                           && !(200 <= fetch.response.status < 400))
                  && (end.errorCode == Some(ApiErrorCode) || end.errorCode == Some(MalformedResponse)))
            && (if script.elapsedAtEnd < 0.0 then end.elapsedMs == 0
                else end.elapsedMs as real <= script.elapsedAtEnd < end.elapsedMs as real + 1.0)
  {
    var outcome := RunOf(Verdicts(call, script)).outcome;
    if outcome.Failed? && outcome.failure.ApiFailure? {
      FailuresHaveACause(call, script, outcome.failure);
      DispositionFailures(call, script.rounds[Deciding(Verdicts(call, script), 0)].fetch.response);
    }
  }

  // ----- retries mask failures

  /** Round i ends in a rejected fetch early enough for any delay its cap allows, with the caller waiting on. */
  ghost predicate FailsEarly(call: Call, script: Script, i: nat)
    requires i < |script.rounds|
  {
    var round, total := script.rounds[i], TotalDeadlineFor(call.key, call.timeoutSecs);
    && round.elapsed < total && round.fetch.Rejected? && !round.fetch.interrupted
    && round.fetch.elapsedAtCatch < total
    && round.fetch.elapsedAtDecision + BackoffCap(i + 1) as real < total
  }

  /**
  Up to two early rejections of a read do not show in its outcome: the next response is
  disposed of as the first would have been.
   */
  lemma TransientFailuresAreMasked(call: Call, script: Script, j: nat, value: Json)
    requires Sufficient(call, script) && FlagIsMonotone(script)
    requires call.key in READS && j < 3 && !CallerAborted(call, script, 2 * j + 2)
    requires forall i | 0 <= i < j :: FailsEarly(call, script, i)
    requires script.rounds[j].elapsed < TotalDeadlineFor(call.key, call.timeoutSecs)
    requires script.rounds[j].fetch.Responded? && Disposition(call, script.rounds[j].fetch.response) == Ok(value)
    ensures RunOf(Verdicts(call, script)).outcome == Delivered(value)
    ensures Starts(Verdicts(call, script)) == j + 1
  {
    var vs := Verdicts(call, script);
    forall i | 0 <= i < j
      ensures Continues(vs[i])
    {
      assert FailsEarly(call, script, i);
      assert vs[i] == Judge(call, script, i);
    }
    assert vs[j] == Judge(call, script, j) && vs[j].Settled?;
    DecidingIsUnique(vs, j);
  }

  ghost predicate Clean(p: Platform, value: Json) {
    forall path :: !OffendsAt(p, value, path)
  }

  /** The value is decoded from these bytes of the response, and no string or key in them is prohibited. */
  ghost predicate ValueFrom(call: Call, response: Response, bytes: seq<Byte>, value: Json) {
    && Readable(call, response, bytes) && Decodes(call.codec, bytes, Ok(value))
    && Clean(call.codec.platform, call.codec.parse(bytes).value)
  }

  /** Likewise for a problem, which is read from a response of any status. */
  ghost predicate ProblemFrom(call: Call, response: Response, bytes: seq<Byte>, problem: Json) {
    && ReadToEnd(response, bytes) && Presentable(call.codec, bytes)
    && Clean(call.codec.platform, call.codec.parse(bytes).value)
    && Some(problem) ==
       if call.descriptor.workspaceSync && response.media == ProblemMedia
       then call.codec.decodeSyncProblem(call.codec.parse(bytes).value, response.status)
       else call.codec.decodeProblem(call.codec.parse(bytes).value, response.status)
  }

  lemma PresentableIsClean(codec: Codec, bytes: seq<Byte>)
    requires Presentable(codec, bytes)
    ensures Clean(codec.platform, codec.parse(bytes).value)
  {
    ScreenIsExact(codec.platform, codec.parse(bytes).value);
  }

  lemma ProblemsAreRead(call: Call, response: Response, status: int, code: ErrorCode, problem: Json)
    requires Disposition(call, response) == Err(ApiFailure(status, code, Some(problem)))
    ensures exists bytes :: ProblemFrom(call, response, bytes, problem)
  {
    var bytes := ReadBody(response).bytes;
    ReadToEndIff(response, bytes);
    PresentableIsClean(call.codec, bytes);
    assert ProblemFrom(call, response, bytes, problem);
  }

  /**
  A response comes out as an API failure with this problem iff a Problem operation got an
  error status under a JSON media type and the problem can be read out of the body.
   */
  lemma ProblemIff(call: Call, response: Response, problem: Json)
    ensures Disposition(call, response) == Err(ApiFailure(response.status, ApiErrorCode, Some(problem)))
       <==> && response.status != call.descriptor.successStatus && !(200 <= response.status < 400)
            && call.descriptor.problems && (response.media.JsonMedia? || response.media.ProblemMedia?)
            && exists bytes :: ProblemFrom(call, response, bytes, problem)
  {
    if Disposition(call, response) == Err(ApiFailure(response.status, ApiErrorCode, Some(problem))) {
      ProblemsAreRead(call, response, response.status, ApiErrorCode, problem);
    }
    if bytes :| ProblemFrom(call, response, bytes, problem) {
      ReadToEndIff(response, bytes);
    }
  }

  lemma DispositionIsScreened(call: Call, response: Response)
    ensures match Disposition(call, response)
      case Ok(value) => exists bytes :: ValueFrom(call, response, bytes, value)
      case Err(ApiFailure(_, _, Some(problem))) => exists bytes :: ProblemFrom(call, response, bytes, problem)
      case _ => true
  {
    match Disposition(call, response)
    case Ok(value) =>
      DispositionDeliversIff(call, response, value);
      var bytes :| Readable(call, response, bytes) && Decodes(call.codec, bytes, Ok(value));
      PresentableIsClean(call.codec, bytes);
      assert ValueFrom(call, response, bytes, value);
    case Err(ApiFailure(status, code, Some(problem))) =>
      ProblemsAreRead(call, response, status, code, problem);
    case _ =>
  }

  /**
  Whatever a run hands to its caller was decoded from the body of the response that its
  deciding round brought back, and that body has no prohibited string or key anywhere in it.
   */
  lemma NothingUnscreenedEscapes(call: Call, script: Script)
    requires Sufficient(call, script)
    ensures var fetch := script.rounds[Deciding(Verdicts(call, script), 0)].fetch;
            match RunOf(Verdicts(call, script)).outcome
            case Delivered(value) =>
              fetch.Responded? && exists bytes :: ValueFrom(call, fetch.response, bytes, value)
            case Failed(ApiFailure(_, _, Some(problem))) =>
              fetch.Responded? && exists bytes :: ProblemFrom(call, fetch.response, bytes, problem)
            case _ => true
  {
    var j, outcome := Deciding(Verdicts(call, script), 0), RunOf(Verdicts(call, script)).outcome;
    if outcome.Delivered? {
      JudgedDelivery(call, script, outcome.value, j);
    } else if outcome.failure.ApiFailure? {
      FailuresHaveACause(call, script, outcome.failure);
    }
    if script.rounds[j].fetch.Responded? {
      DispositionIsScreened(call, script.rounds[j].fetch.response);
    }
  }

  /** How the network cuts a body into chunks does not show in what a response turns into. */
  lemma DispositionIgnoresChunking(call: Call, response: Response, races: seq<Race>)
    requires response.body.Some? && !response.abortedOnArrival
    requires Quiet(response.body.value) && Quiet(races) && Joined(races) == Joined(response.body.value)
    ensures Disposition(call, response.(body := Some(races))) == Disposition(call, response)
  {
    ChunkingDoesNotMatter(response.body.value, races);
  }
}
