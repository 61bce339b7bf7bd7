/**
The request engine: deadlines, jittered retries of reads, caller cancellation, and the
disposition of a response. An environment is a script: what the clock, the network, the
timers, the caller's signal and the random source show the engine, round by round. Code
between two awaits is one turn, so the caller's flag is a function of the turn.
 */
module Transport {
  import opened Prelude
  import opened BodyReader
  import opened Contract
  import opened Observer
  import opened Runs
  import opened Sampler
  import opened Sanitize

  // ----- policy

  const READS: set<OperationKey> := {
    AgentSessionsList, AgentSessionsGet, AgentSessionsAgentAuth, CapabilitiesGet, MeGet, SessionsList,
    SessionsGet, RecordsList, WorkspacesSyncChanges, WorkspacesSyncChunkDownload, MachineCreatesGet,
    WorkspaceBindingsGet
  }

  function DeadlineFor(key: OperationKey, timeoutSecs: Option<int>): real {
    if key in READS then 10_000.0
    else if key == SessionsCreate then (31 * 60 * 1_000) as real
    else if key == SessionsExec then
      ((if timeoutSecs.Some? then timeoutSecs.value else 120) * 1_000 + 15_000) as real
    else 60_000.0
  }

  function TotalDeadlineFor(key: OperationKey, timeoutSecs: Option<int>): real {
    if key in READS then 30_000.0 else DeadlineFor(key, timeoutSecs)
  }

  function MaximumAttempts(key: OperationKey): nat {
    if key in READS then 3 else 1
  }

  function PowerOfTwo(exponent: nat): nat {
    if exponent == 0 then 1 else 2 * PowerOfTwo(exponent - 1)
  }

  /** The exponential cap on the delay that follows a failed attempt. */
  function BackoffCap(attempt: nat): nat
    requires attempt >= 1
  {
    var cap := 100 * PowerOfTwo(attempt - 1);
    if cap <= 1_000 then cap else 1_000
  }

  function MinReal(a: real, b: real): real {
    if a <= b then a else b
  }

  // ----- responses

  datatype MediaType = MissingMedia | OtherMedia | JsonMedia | ProblemMedia

  /** A response, its body as the races that read it, and the attempt signal's flag around them. */
  datatype Response = Response(
    status: int,
    media: MediaType,
    noStore: bool,
    etag: Option<string>,
    abortedOnArrival: bool,
    body: Option<seq<Race>>,
    abortedAfterBody: bool)

  datatype DecodeError = Undecodable | Unforeseen

  /** Parsing and decoding, as the operation does them. */
  datatype Codec = Codec(
    platform: Platform,
    parse: seq<Byte> -> Option<Json>,
    decode: Json -> Result<Json, DecodeError>,
    etagOf: Json -> string,
    decodeProblem: (Json, int) -> Option<Json>,
    decodeSyncProblem: (Json, int) -> Option<Json>)

  datatype Call = Call(
    key: OperationKey,
    timeoutSecs: Option<int>,
    descriptor: Descriptor,
    codec: Codec,
    hasSignal: bool)

  function ReadBody(response: Response): ReadResult {
    if response.body.None? then Bytes([]) else ReadOutcome(response.body.value, response.abortedOnArrival)
  }

  /** `sanitizeWire(JSON.parse(text))`. */
  function ParseScreened(codec: Codec, bytes: seq<Byte>): Option<Json> {
    match codec.parse(bytes)
    case None => None
    case Some(value) => if SanitizeWire(codec.platform, value).Ok? then Some(value) else None
  }

  function Malformed(response: Response): Failure {
    ApiFailure(response.status, MalformedResponse, None)
  }

  /** A sync operation has a problem format of its own, under the problem media type only. */
  function DecodeProblem(call: Call, response: Response, value: Json): Option<Json> {
    if call.descriptor.workspaceSync && response.media.ProblemMedia?
    then call.codec.decodeSyncProblem(value, response.status)
    else call.codec.decodeProblem(value, response.status)
  }

  /** `problemFailure`: what an error status of a Problem operation turns into. */
  function ProblemFailure(call: Call, response: Response): Failure {
    if response.media.MissingMedia? || response.media.OtherMedia? then ApiFailure(response.status, ApiErrorCode, None)
    else match ReadBody(response)
      case Cancelled => Cancellation
      case Malformed =>
        if response.abortedAfterBody then Cancellation else ApiFailure(response.status, ApiErrorCode, None)
      case Bytes(bytes) =>
        if response.abortedAfterBody then Cancellation
        else
          var value := ParseScreened(call.codec, bytes);
          var problem := if value.Some? then DecodeProblem(call, response, value.value) else None;
          ApiFailure(response.status, ApiErrorCode, problem)
  }

  /** A capability snapshot must come under its own tag, in quotes. */
  predicate TagAgrees(call: Call, response: Response, result: Json) {
    call.key == CapabilitiesGet ==> response.etag == Some("\"" + call.codec.etagOf(result) + "\"")
  }

  /** `disposition`: what a response turns into. */
  function Disposition(call: Call, response: Response): Result<Json, Failure> {
    if 300 <= response.status < 400 then Err(Malformed(response))
    else if response.status != call.descriptor.successStatus then
      if 200 <= response.status < 300 then Err(Malformed(response))
      else if call.descriptor.problems then Err(ProblemFailure(call, response))
      else Err(ApiFailure(response.status, ApiErrorCode, None))
    else if response.abortedOnArrival then Err(Cancellation)
    else if call.key == AgentSessionsAgentAuth && !response.noStore then Err(Malformed(response))
    else if !response.media.JsonMedia? then Err(Malformed(response))
    else match ReadBody(response)
      case Cancelled => Err(Cancellation)
      case Malformed => Err(Malformed(response))
      case Bytes(bytes) =>
        if response.abortedAfterBody then Err(Cancellation)
        else match ParseScreened(call.codec, bytes)
          case None => Err(Malformed(response))
          case Some(value) =>
            match call.codec.decode(value)
            case Ok(result) => if TagAgrees(call, response, result) then Ok(result) else Err(Malformed(response))
            case Err(Undecodable) => Err(Malformed(response))
            case Err(Unforeseen) => Err(UnexpectedFailure)
  }

  // ----- scripts

  datatype Fetch =
    /** The fetch rejected; then the clock and the random source as the retry decision sees them. */
    | Rejected(expired: bool, elapsedAtCatch: real, draws: Draws, elapsedAtDecision: real, interrupted: bool)
    /** A response arrived; `expired` says whether the attempt's timer had fired when it was disposed of. */
    | Responded(response: Response, expired: bool)

  datatype Round = Round(elapsed: real, fetch: Fetch)

  /**
  `aborted(turn)` is the caller's flag in a turn, turns being counted by the awaits that
  have come back.
   */
  datatype Script = Script(rounds: seq<Round>, aborted: nat -> bool, elapsedAtEnd: real)

  /** Every round the engine may need is there, and every random stream it may draw from can end the sampler. */
  ghost predicate Sufficient(call: Call, script: Script) {
    && |script.rounds| >= MaximumAttempts(call.key)
    && forall k | 0 <= k < |script.rounds| ::
         script.rounds[k].fetch.Rejected? ==> Fair(script.rounds[k].fetch.draws, BackoffCap(k + 1) + 1)
  }

  predicate CallerAborted(call: Call, script: Script, turn: nat) {
    call.hasSignal && script.aborted(turn)
  }

  // ----- the specification of a run

  function AttemptDeadline(call: Call, elapsed: real): real {
    MinReal(DeadlineFor(call.key, call.timeoutSecs), TotalDeadlineFor(call.key, call.timeoutSecs) - elapsed)
  }

  /** A failure seen after the attempt's timer has fired is a timeout. */
  function Conclude(disposed: Result<Json, Failure>, expired: bool): Outcome {
    match disposed
    case Ok(value) => Delivered(value)
    case Err(failure) => Failed(if expired then Timeout else failure)
  }

  ghost function Judge(call: Call, script: Script, k: nat): Verdict
    requires Sufficient(call, script) && k < MaximumAttempts(call.key)
  {
    var round := script.rounds[k];
    var total := TotalDeadlineFor(call.key, call.timeoutSecs);
    var deadline := AttemptDeadline(call, round.elapsed);
    if CallerAborted(call, script, 2 * k) then NotStarted(Cancellation)
    else if round.elapsed >= total then NotStarted(Timeout)
    else if CallerAborted(call, script, 2 * k + 1) then Settled(deadline, Failed(Cancellation), 2 * k + 1)
    else match round.fetch
      case Rejected(expired, elapsedAtCatch, draws, elapsedAtDecision, interrupted) =>
        if call.key !in READS || k + 1 == MaximumAttempts(call.key) || elapsedAtCatch >= total then
          Settled(deadline, Failed(if expired then Timeout else TransportFailure), 2 * k + 1)
        else
          var delay := Sample(draws, BackoffCap(k + 1));
          if elapsedAtDecision + delay as real >= total then Settled(deadline, Failed(Timeout), 2 * k + 1)
          else Retried(deadline, delay, interrupted)
      case Responded(response, expired) =>
        if CallerAborted(call, script, 2 * k + 2) then Settled(deadline, Failed(Cancellation), 2 * k + 2)
        else Settled(deadline, Conclude(Disposition(call, response), expired), 2 * k + 2)
  }

  /** The verdicts on all the rounds that the engine may go through; the last one never continues. */
  ghost function Verdicts(call: Call, script: Script): (vs: seq<Verdict>)
    requires Sufficient(call, script)
    ensures Ends(vs) && |vs| == MaximumAttempts(call.key)
    ensures forall k | 0 <= k < |vs| :: vs[k] == Judge(call, script, k)
  {
    seq(MaximumAttempts(call.key), k requires 0 <= k < MaximumAttempts(call.key) => Judge(call, script, k))
  }

  // ----- the engine

  /**
  The platform as one call uses it: timers and abort listeners that are live, the awaits
  that have come back, and what was asked for so far.
   */
  class Runtime {
    var timers: set<nat>
    var listeners: set<nat>
    var handles: nat
    var turn: nat
    var effects: seq<Effect>

    constructor ()
      ensures Idle() && turn == 0 && effects == []
    {
      timers, listeners, handles, turn, effects := {}, {}, 0, 0, [];
    }

    ghost predicate Idle()
      reads this`timers, this`listeners
    {
      timers == {} && listeners == {}
    }

    /** No second timer is armed while one is live. */
    method ArmTimer(delay: real) returns (timer: nat)
      requires timers == {}
      modifies this`timers, this`handles, this`effects
      ensures timers == {timer} && effects == old(effects) + [Armed(delay)]
    {
      timer := handles;
      timers, handles, effects := timers + {timer}, handles + 1, effects + [Armed(delay)];
    }

    /** Nor is a second listener put on the caller's signal. */
    method AddListener() returns (listener: nat)
      requires listeners == {}
      modifies this`listeners, this`handles
      ensures listeners == {listener}
    {
      listener := handles;
      listeners, handles := listeners + {listener}, handles + 1;
    }

    method CancelTimer(timer: nat)
      modifies this`timers
      ensures timers == old(timers) - {timer}
    {
      timers := timers - {timer};
    }

    method RemoveListener(listener: nat)
      modifies this`listeners
      ensures listeners == old(listeners) - {listener}
    {
      listeners := listeners - {listener};
    }

    /**
    An await comes back in the next turn: a timer that fired is spent, and a once-only
    listener that was called is gone.
     */
    method Await(fired: bool, aborted: bool)
      modifies this`timers, this`listeners, this`turn
      ensures turn == old(turn) + 1
      ensures timers == if fired then {} else old(timers)
      ensures listeners == if aborted then {} else old(listeners)
    {
      turn := turn + 1;
      if fired { timers := {}; }
      if aborted { listeners := {}; }
    }

    method Dispatch()
      modifies this`effects
      ensures effects == old(effects) + [Dispatched]
    {
      effects := effects + [Dispatched];
    }

    /** The attempt lets go of its timer and its listener, whether or not either is still live. */
    method Release(timer: nat, listener: nat)
      requires timers <= {timer} && listeners <= {listener}
      modifies this`timers, this`listeners
      ensures Idle()
    {
      CancelTimer(timer);
      RemoveListener(listener);
    }

    /** `productionSleep`: one timer and one listener of its own, both gone however it ends. */
    method Sleep(delay: nat, hasSignal: bool, interrupted: bool)
      requires Idle()
      modifies this
      ensures Idle() && turn == old(turn) + 1 && effects == old(effects) + [Slept(delay)]
    {
      var timer, listener := handles, handles + 1;
      timers, handles, effects := timers + {timer}, handles + 2, effects + [Slept(delay)];
      if hasSignal { listeners := listeners + {listener}; }
      if interrupted {
        Await(false, true);
        CancelTimer(timer);
        RemoveListener(listener);
      } else {
        Await(true, false);
        RemoveListener(listener);
      }
    }
  }

  /** Listen for the caller's abort, arm the timer, tell the observer, and fetch. */
  method BeginAttempt(call: Call, deadline: real, attempt: nat, runtime: Runtime, observer: OperationObserver)
    returns (timer: nat, listener: nat)
    requires runtime.Idle() && observer.Valid() && observer.Open()
    modifies runtime, observer`emitted, observer.diagnostics, observer.span
    ensures runtime.timers == {timer} && runtime.listeners == if call.hasSignal then {listener} else {}
    ensures observer.Valid() && observer.Open()
    ensures runtime.turn == old(runtime.turn)
    ensures runtime.effects == old(runtime.effects) + [Armed(deadline), Dispatched]
    ensures observer.emitted == old(observer.emitted) + [AttemptStart(attempt)]
  {
    listener := 0;
    if call.hasSignal { listener := runtime.AddListener(); }
    timer := runtime.ArmTimer(deadline);
    observer.Attempt(attempt);
    runtime.Dispatch();
  }

  /** What round k comes to: the outcome it settles the call with, or None to go round again. */
  function Settling(verdict: Verdict): Option<Outcome> {
    if Continues(verdict) then None else Some(OutcomeOf(verdict))
  }

  /** A rejected fetch while the caller is still waiting: give up, or announce a retry and sleep. */
  method DecideRetry(call: Call, script: Script, k: nat, runtime: Runtime, observer: OperationObserver)
    returns (settled: Option<Outcome>)
    requires Sufficient(call, script) && k < MaximumAttempts(call.key)
    requires script.rounds[k].fetch.Rejected?
    requires !Judge(call, script, k).NotStarted? && !CallerAborted(call, script, 2 * k + 1)
    requires runtime.Idle() && runtime.turn == 2 * k + 1 && observer.Valid() && observer.Open()
    modifies runtime, observer`emitted, observer.diagnostics, observer.span
    ensures runtime.Idle() && observer.Valid() && observer.Open()
    ensures settled == Settling(Judge(call, script, k)) && runtime.turn == TurnAfter(Judge(call, script, k), k)
    ensures Announced(Judge(call, script, k), k, old(runtime.effects), runtime.effects,
                      old(observer.emitted), observer.emitted)
  {
    var attempt := k + 1;
    var total := TotalDeadlineFor(call.key, call.timeoutSecs);
    var Rejected(expired, elapsedAtCatch, draws, elapsedAtDecision, interrupted) := script.rounds[k].fetch;
    var canRetry := call.key in READS && attempt < MaximumAttempts(call.key) && elapsedAtCatch < total;
    if !canRetry { return Some(Failed(if expired then Timeout else TransportFailure)); }
    var delay, used := UniformDelay(BackoffCap(attempt), draws);
    if elapsedAtDecision + delay as real >= total { return Some(Failed(Timeout)); }
    observer.Retry(attempt + 1, delay);
    runtime.Sleep(delay, call.hasSignal, interrupted);
    settled := if interrupted then Some(Failed(Cancellation)) else None;
  }

  /** A retry that is gone for shows one event and asks for one sleep; anything else, neither. */
  ghost predicate Announced(verdict: Verdict, k: nat, effects: seq<Effect>, effects': seq<Effect>,
                            events: seq<Event>, events': seq<Event>)
  {
    match verdict
    case Retried(_, delay, _) =>
      effects' == effects + [Slept(delay)] && events' == events + [RetryScheduled(k + 2, delay)]
    case _ => effects' == effects && events' == events
  }

  /** The catch block after a fetch that rejected. */
  method CatchRejection(call: Call, script: Script, k: nat, timer: nat, listener: nat,
                        runtime: Runtime, observer: OperationObserver)
    returns (settled: Option<Outcome>)
    requires Sufficient(call, script) && k < MaximumAttempts(call.key)
    requires !Judge(call, script, k).NotStarted? && script.rounds[k].fetch.Rejected?
    requires runtime.timers <= {timer} && runtime.listeners <= {listener} && runtime.turn == 2 * k + 1
    requires observer.Valid() && observer.Open()
    modifies runtime, observer`emitted, observer.diagnostics, observer.span
    ensures runtime.Idle() && observer.Valid() && observer.Open()
    ensures settled == Settling(Judge(call, script, k)) && runtime.turn == TurnAfter(Judge(call, script, k), k)
    ensures Announced(Judge(call, script, k), k, old(runtime.effects), runtime.effects,
                      old(observer.emitted), observer.emitted)
  {
    runtime.Release(timer, listener);
    if CallerAborted(call, script, runtime.turn) { return Some(Failed(Cancellation)); }
    settled := DecideRetry(call, script, k, runtime, observer);
  }

  /** Whether the attempt's timer has fired by the time its fetch settles. */
  predicate FiredByArrival(fetch: Fetch, aborted: bool) {
    match fetch
    case Rejected(expired, _, _, _, _) => expired
    case Responded(response, _) => response.abortedOnArrival && !aborted
  }

  /** The try block that disposes of a response, with its catch block. */
  method ConcludeAttempt(call: Call, script: Script, k: nat, timer: nat, listener: nat, runtime: Runtime)
    returns (outcome: Outcome)
    requires Sufficient(call, script) && k < MaximumAttempts(call.key)
    requires !Judge(call, script, k).NotStarted? && script.rounds[k].fetch.Responded?
    requires runtime.timers <= {timer} && runtime.listeners <= {listener} && runtime.turn == 2 * k + 1
    modifies runtime
    ensures runtime.Idle() && runtime.effects == old(runtime.effects)
    ensures Judge(call, script, k) == Settled(AttemptDeadline(call, script.rounds[k].elapsed), outcome, runtime.turn)
  {
    var Responded(response, expired) := script.rounds[k].fetch;
    if CallerAborted(call, script, runtime.turn) {
      runtime.Release(timer, listener);
      return Failed(Cancellation);
    }
    var disposed := Disposition(call, response);
    runtime.Await(expired, CallerAborted(call, script, runtime.turn + 1));
    runtime.Release(timer, listener);
    outcome := if CallerAborted(call, script, runtime.turn) then Failed(Cancellation) else Conclude(disposed, expired);
  }

  /** One pass through the loop from the moment the attempt begins; None means go round again. */
  method PerformAttempt(call: Call, script: Script, k: nat, runtime: Runtime, observer: OperationObserver)
    returns (settled: Option<Outcome>)
    requires Sufficient(call, script) && k < MaximumAttempts(call.key)
    requires !Judge(call, script, k).NotStarted?
    requires runtime.Idle() && runtime.turn == 2 * k && observer.Valid() && observer.Open()
    modifies runtime, observer`emitted, observer.diagnostics, observer.span
    ensures runtime.Idle() && observer.Valid() && observer.Open()
    ensures settled == Settling(Judge(call, script, k)) && runtime.turn == TurnAfter(Judge(call, script, k), k)
    ensures runtime.effects == old(runtime.effects) + EffectsOf(Judge(call, script, k))
    ensures observer.emitted == old(observer.emitted) + EventsOf(Judge(call, script, k), k)
  {
    var Round(elapsed, fetch) := script.rounds[k];
    var timer, listener := BeginAttempt(call, AttemptDeadline(call, elapsed), k + 1, runtime, observer);
    var aborted := CallerAborted(call, script, runtime.turn + 1);
    runtime.Await(FiredByArrival(fetch, aborted), aborted);
    if fetch.Rejected? {
      settled := CatchRejection(call, script, k, timer, listener, runtime, observer);
    } else {
      var outcome := ConcludeAttempt(call, script, k, timer, listener, runtime);
      settled := Some(outcome);
    }
  }

  /** The body of the loop: the two checks before an attempt, then the attempt itself. */
  method GoRound(call: Call, script: Script, k: nat, runtime: Runtime, observer: OperationObserver)
    returns (settled: Option<Outcome>, attempt: nat)
    requires Sufficient(call, script) && k < MaximumAttempts(call.key)
    requires runtime.Idle() && runtime.turn == 2 * k && observer.Valid() && observer.Open()
    modifies runtime, observer`emitted, observer.diagnostics, observer.span
    ensures runtime.Idle() && observer.Valid() && observer.Open()
    ensures settled == Settling(Judge(call, script, k)) && attempt == AttemptAfter(Judge(call, script, k), k)
    ensures runtime.turn == TurnAfter(Judge(call, script, k), k)
    ensures runtime.effects == old(runtime.effects) + EffectsOf(Judge(call, script, k))
    ensures observer.emitted == old(observer.emitted) + EventsOf(Judge(call, script, k), k)
  {
    attempt := k;
    if CallerAborted(call, script, runtime.turn) { return Some(Failed(Cancellation)), attempt; }
    attempt := attempt + 1;
    if script.rounds[k].elapsed >= TotalDeadlineFor(call.key, call.timeoutSecs) {
      return Some(Failed(Timeout)), attempt;
    }
    settled := PerformAttempt(call, script, k, runtime, observer);
  }

  /** The try block of `execute`: the retry loop, and the attempt number that `operation.end` reports. */
  method RunAttempts(call: Call, script: Script, runtime: Runtime, observer: OperationObserver)
    returns (outcome: Outcome, attempt: nat)
    requires Sufficient(call, script)
    requires runtime.Idle() && runtime.turn == 0 && runtime.effects == []
    requires observer.Valid() && observer.Open() && observer.emitted == [OperationStart]
    modifies runtime, observer`emitted, observer.diagnostics, observer.span
    ensures runtime.Idle() && observer.Valid() && observer.Open()
    ensures RunOf(Verdicts(call, script)) == Run(outcome, runtime.turn, attempt, observer.emitted, runtime.effects)
  {
    var maximum := MaximumAttempts(call.key);
    ghost var vs := Verdicts(call, script);
    attempt := 0;
    while attempt < maximum
      invariant Reaches(vs, attempt, runtime.turn, observer.emitted, runtime.effects)
      invariant runtime.Idle() && runtime.turn == 2 * attempt && observer.Valid() && observer.Open()
      decreases maximum - attempt
    {
      RoundMovesRun(vs, attempt, runtime.turn, observer.emitted, runtime.effects);
      var settled;
      settled, attempt := GoRound(call, script, attempt, runtime, observer);
      if settled.Some? { return settled.value, attempt; }
    }
    assert false;
  }

  /**
  One call past `prepare`. Sinks and tracer may throw at every event; the outcome, the turn
  it comes in and what they are shown do not depend on it.
   */
  method Execute(call: Call, script: Script, diagnostics: Sink?, traced: bool)
    returns (outcome: Outcome, runtime: Runtime, observer: OperationObserver)
    requires Sufficient(call, script)
    modifies diagnostics
    ensures outcome == RunOf(Verdicts(call, script)).outcome
    ensures fresh(runtime) && runtime.Idle() && runtime.turn == RunOf(Verdicts(call, script)).turn
    ensures runtime.effects == RunOf(Verdicts(call, script)).effects
    ensures var trace := Trace(Verdicts(call, script), script.elapsedAtEnd);
            && (diagnostics != null ==> diagnostics.received == old(diagnostics.received) + trace)
            && (observer.span != null ==>
                  && observer.span.events == trace
                  && observer.span.ends == [EndEvent(RunOf(Verdicts(call, script)).last, outcome, script.elapsedAtEnd)])
  {
    runtime := new Runtime();
    observer := new OperationObserver(diagnostics, traced);
    observer.Start();
    var attempt;
    outcome, attempt := RunAttempts(call, script, runtime, observer);
    observer.End(attempt, outcome, script.elapsedAtEnd);
  }
}
