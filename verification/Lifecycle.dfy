/**
The lifecycle of a client: overlapping invocations, one lazily created transport, and a
close that waits for the calls in flight. `invoke` is two steps, since other code runs
while it awaits: Begin up to the await and Finish in its finally block.
 */
module Lifecycle {
  import opened Prelude

  datatype Phase = Open | Closing | Closed

  datatype Promise = NotAsked | Pending | Resolved

  /** What the outside can see a client do. */
  datatype Action =
    | Created(transport: nat)
    | Executes(call: nat, transport: nat)
    | Refused(call: nat)
    | CreationFailed(call: nat)
    | Finished(call: nat)
    | CloseAsked
    | TransportClosed(transport: nat)
    | CloseResolved

  /** The client's fields, with the calls in flight (and the transport each one uses) and the log of what was done. */
  datatype Client = Client(
    injected: bool,
    phase: Phase,
    active: int,
    transport: Option<nat>,
    promise: Promise,
    calls: map<nat, nat>,
    log: seq<Action>)

  datatype Step =
    | Begin(call: nat, constructible: bool)
    | Finish(call: nat)
    | Close

  function NewClient(injected: bool): Client {
    Client(injected, Open, 0, None, NotAsked, map[], [])
  }

  predicate Enabled(c: Client, step: Step) {
    match step
    case Begin(call, _) => call !in c.calls
    case Finish(call) => call in c.calls
    case Close => true
  }

  /** `#finishClose`. */
  function FinishClose(c: Client): Client {
    if c.phase != Closing || c.active != 0 || c.promise != Pending then c
    else c.(
      phase := Closed, transport := None, promise := Resolved,
      log := c.log + (if c.transport.Some? then [TransportClosed(c.transport.value)] else []) + [CloseResolved])
  }

  function After(c: Client, step: Step): Client {
    match step
    case Begin(call, constructible) =>
      if c.phase != Open then c.(log := c.log + [Refused(call)])
      else if c.transport.None? && !constructible then FinishClose(c.(log := c.log + [CreationFailed(call)]))
      else
        var transport := if c.transport.Some? then c.transport.value else |c.log|;
        var created := if c.transport.Some? then [] else [Created(transport)];
        c.(active := c.active + 1, transport := Some(transport), calls := c.calls[call := transport],
           log := c.log + created + [Executes(call, transport)])
    case Finish(call) =>
      FinishClose(Released(c, call))
    case Close =>
      if c.promise != NotAsked then c else FinishClose(Asked(c))
  }

  function Released(c: Client, call: nat): Client {
    c.(active := c.active - 1, calls := c.calls - {call}, log := c.log + [Finished(call)])
  }

  function Asked(c: Client): Client {
    c.(phase := Closing, promise := Pending, log := c.log + [CloseAsked])
  }

  // ----- the protocol, as a monitor that reads nothing but the log

  datatype Seen = Seen(inFlight: set<nat>, created: Option<nat>, closed: bool, asked: bool, resolved: bool)

  function Note(seen: Seen, action: Action): Seen {
    match action
    case Created(transport) => seen.(created := Some(transport))
    case Executes(call, _) => seen.(inFlight := seen.inFlight + {call})
    case Finished(call) => seen.(inFlight := seen.inFlight - {call})
    case CloseAsked => seen.(asked := true)
    case TransportClosed(_) => seen.(closed := true)
    case CloseResolved => seen.(resolved := true)
    case _ => seen
  }

  function Observe(log: seq<Action>): Seen {
    if log == [] then Seen({}, None, false, false, false)
    else Note(Observe(log[..|log| - 1]), log[|log| - 1])
  }

  /** What may happen next. */
  predicate Permitted(seen: Seen, next: Action) {
    match next
    case Created(_) => seen.created.None? && !seen.asked
    case Executes(call, transport) =>
      seen.created == Some(transport) && !seen.closed && !seen.asked && call !in seen.inFlight
    case Refused(_) => seen.asked
    case CreationFailed(_) => seen.created.None? && !seen.asked
    case Finished(call) => call in seen.inFlight
    case CloseAsked => !seen.asked
    case TransportClosed(transport) =>
      seen.created == Some(transport) && !seen.closed && seen.asked && seen.inFlight == {}
    case CloseResolved =>
      seen.asked && !seen.resolved && seen.inFlight == {} && (seen.created.Some? ==> seen.closed)
  }

  predicate Legal(log: seq<Action>) {
    log == [] || (Legal(log[..|log| - 1]) && Permitted(Observe(log[..|log| - 1]), log[|log| - 1]))
  }

  lemma LegalSnoc(log: seq<Action>, next: Action)
    requires Legal(log) && Permitted(Observe(log), next)
    ensures Legal(log + [next]) && Observe(log + [next]) == Note(Observe(log), next)
  {
    assert (log + [next])[..|log|] == log;
  }

  /** In a legal log what has been observed is never lost. */
  lemma {:induction false} ObservationsLast(log: seq<Action>, i: nat)
    requires Legal(log) && i <= |log|
    ensures Legal(log[..i])
    ensures var early, late := Observe(log[..i]), Observe(log);
            && (early.created.Some? ==> late.created == early.created)
            && (early.closed ==> late.closed) && (early.asked ==> late.asked) && (early.resolved ==> late.resolved)
  {
    if i == |log| {
      assert log[..i] == log;
    } else {
      var front := log[..|log| - 1];
      ObservationsLast(front, i);
      assert front[..i] == log[..i];
    }
  }

  /** What the monitor has noted is what the log contains. */
  lemma {:induction false} ObservationsAreTrue(log: seq<Action>)
    requires Legal(log)
    ensures var seen := Observe(log);
            && (seen.asked <==> CloseAsked in log)
            && (seen.resolved <==> CloseResolved in log)
            && (forall t: nat :: seen.created == Some(t) <==> Created(t) in log)
            && (forall t: nat :: TransportClosed(t) in log <==> seen.closed && seen.created == Some(t))
  {
    if log != [] {
      var front := log[..|log| - 1];
      ObservationsAreTrue(front);
      ResolutionComesLast(front);
      assert log == front + [log[|log| - 1]];
    }
  }

  /** Call i of the log's actions admits this call, and the log does not finish it afterwards. */
  ghost predicate Unfinished(log: seq<Action>, call: nat, i: int) {
    0 <= i < |log| && log[i].Executes? && log[i].call == call && Finished(call) !in log[i + 1..]
  }

  /** A call is noted as in flight exactly when the log admits it and does not finish it afterwards. */
  lemma {:induction false} InFlightMeansUnfinished(log: seq<Action>, call: nat)
    ensures call in Observe(log).inFlight <==> exists i :: Unfinished(log, call, i)
  {
    if log != [] {
      var front, n := log[..|log| - 1], |log| - 1;
      InFlightMeansUnfinished(front, call);
      if log[n].Executes? && log[n].call == call {
        assert Unfinished(log, call, n);
      } else {
        forall i | 0 <= i < n
          ensures Unfinished(log, call, i) <==> Unfinished(front, call, i) && log[n] != Finished(call)
        {
          assert log[i + 1..] == front[i + 1..] + [log[n]];
        }
      }
    }
  }

  /**
  What legality of a log means, looking back from any action: a transport is used only
  after it was created and before close is asked for, closed only when close has been asked
  for, and close resolves only when every transport created has been closed, with no call
  unfinished in either case.
   */
  lemma LegalMeansPreceded(log: seq<Action>, j: nat)
    requires Legal(log) && j < |log|
    ensures log[j].Executes? ==> Created(log[j].transport) in log[..j] && CloseAsked !in log[..j]
    ensures log[j].Refused? ==> CloseAsked in log[..j]
    ensures log[j].Finished? ==> exists i :: Unfinished(log[..j], log[j].call, i)
    ensures log[j].TransportClosed? ==> CloseAsked in log[..j] && Created(log[j].transport) in log[..j]
    ensures log[j].CloseResolved? ==>
      CloseAsked in log[..j] && forall t: nat :: Created(t) in log[..j] ==> TransportClosed(t) in log[..j]
    ensures log[j].TransportClosed? || log[j].CloseResolved? ==>
      forall call: nat, i: int :: !Unfinished(log[..j], call, i)
  {
    PermittedAt(log, j);
    ObservationsAreTrue(log[..j]);
    if log[j].Finished? {
      InFlightMeansUnfinished(log[..j], log[j].call);
    }
    forall call: nat, i: int | Unfinished(log[..j], call, i)
      ensures call in Observe(log[..j]).inFlight
    {
      InFlightMeansUnfinished(log[..j], call);
    }
  }

  lemma PermittedAt(log: seq<Action>, j: nat)
    requires Legal(log) && j < |log|
    ensures Legal(log[..j]) && Permitted(Observe(log[..j]), log[j])
  {
    ObservationsLast(log, j + 1);
    assert log[..j + 1][..j] == log[..j];
  }

  /**
  And looking ahead from any action: one transport at most, closed at most once and never
  used afterwards; no call admitted once close has been asked for; one resolution at most,
  after which nothing is closed.
   */
  lemma LegalMeansSafe(log: seq<Action>, i: nat, j: nat)
    requires Legal(log) && i < j < |log|
    ensures log[i].Created? ==> !log[j].Created?
    ensures log[i].TransportClosed? ==> !log[j].TransportClosed? && !log[j].Executes? && !log[j].Created?
    ensures log[i].CloseAsked? ==> !log[j].Executes? && !log[j].Created? && !log[j].CloseAsked?
    ensures log[i].CloseResolved? ==> !log[j].CloseResolved? && !log[j].TransportClosed?
    ensures log[i].Created? && log[j].Executes? ==> log[j].transport == log[i].transport
    ensures log[j].TransportClosed? || log[j].CloseResolved? ==> Observe(log[..j]).inFlight == {}
  {
    PermittedAt(log, j);
    SeenAfter(log[..j], i);
    ResolutionComesLast(log[..j]);
  }

  /** What an action has shown to the monitor is still noted at the end. */
  lemma SeenAfter(log: seq<Action>, i: nat)
    requires Legal(log) && i < |log|
    ensures var seen := Observe(log);
            && (log[i].Created? ==> seen.created == Some(log[i].transport))
            && (log[i].TransportClosed? ==> seen.closed)
            && (log[i].CloseAsked? ==> seen.asked)
            && (log[i].CloseResolved? ==> seen.resolved)
  {
    ObservationsLast(log, i + 1);
    assert log[..i + 1][..i] == log[..i];
    assert Observe(log[..i + 1]) == Note(Observe(log[..i]), log[i]);
  }

  lemma {:induction false} ResolutionComesLast(log: seq<Action>)
    requires Legal(log)
    ensures var seen := Observe(log);
            && (seen.resolved ==> seen.asked && seen.inFlight == {} && (seen.created.Some? ==> seen.closed))
            && (seen.closed ==> seen.created.Some? && seen.asked && seen.inFlight == {})
  {
    if log != [] {
      ResolutionComesLast(log[..|log| - 1]);
    }
  }

  // ----- what every step keeps

  /** How the fields are to be read off the log. */
  ghost predicate Reflects(c: Client) {
    var seen := Observe(c.log);
    && c.active == |c.calls| && c.calls.Keys == seen.inFlight
    && (c.phase == Open <==> !seen.asked)
    && (c.phase == Closed <==> seen.resolved)
    && c.promise == (if c.phase == Open then NotAsked else if c.phase == Closing then Pending else Resolved)
    && c.transport == (if seen.closed then None else seen.created)
    && (forall call | call in c.calls :: c.transport == Some(c.calls[call]))
  }

  ghost predicate Inv(c: Client) {
    && Legal(c.log) && Reflects(c)
    && (c.phase == Closing ==> c.active > 0)
    && (c.phase == Closed ==> c.active == 0 && c.transport == None)
    && (c.phase != Closed ==> !Observe(c.log).closed)
  }

  lemma NewClientIsSafe(injected: bool)
    ensures Inv(NewClient(injected))
  {
  }

  /** `#finishClose` restores what only a client about to close lacks. */
  lemma FinishCloseIsSafe(c: Client)
    requires Legal(c.log) && Reflects(c)
    requires c.phase == Closed ==> c.active == 0 && c.transport == None
    requires c.phase != Closed ==> !Observe(c.log).closed
    ensures Inv(FinishClose(c))
  {
    if c.phase == Closing && c.active == 0 {
      assert c.calls == map[];
      var log := c.log;
      if c.transport.Some? {
        LegalSnoc(log, TransportClosed(c.transport.value));
        log := log + [TransportClosed(c.transport.value)];
      }
      LegalSnoc(log, CloseResolved);
      assert FinishClose(c).log == log + [CloseResolved];
    }
  }

  lemma AdmitIsSafe(c: Client, call: nat, transport: nat)
    requires Inv(c) && c.phase == Open && c.transport == Some(transport) && call !in c.calls
    ensures Inv(c.(active := c.active + 1, calls := c.calls[call := transport],
                   log := c.log + [Executes(call, transport)]))
  {
    LegalSnoc(c.log, Executes(call, transport));
    OneMoreCall(c.calls, call, transport);
  }

  lemma BeginIsSafe(c: Client, call: nat, constructible: bool)
    requires Inv(c) && call !in c.calls
    ensures Inv(After(c, Begin(call, constructible)))
  {
    if c.phase != Open {
      LegalSnoc(c.log, Refused(call));
    } else if c.transport.Some? {
      AdmitIsSafe(c, call, c.transport.value);
      assert c.log + [] == c.log;
    } else if !constructible {
      LegalSnoc(c.log, CreationFailed(call));
    } else {
      var transport := |c.log|;
      LegalSnoc(c.log, Created(transport));
      assert c.calls == map[];
      AdmitIsSafe(c.(transport := Some(transport), log := c.log + [Created(transport)]), call, transport);
    }
  }

  lemma OneMoreCall(calls: map<nat, nat>, call: nat, transport: nat)
    requires call !in calls
    ensures calls[call := transport].Keys == calls.Keys + {call} && |calls[call := transport]| == |calls| + 1
  {
  }

  lemma OneCallLess(calls: map<nat, nat>, call: nat)
    requires call in calls
    ensures (calls - {call}).Keys == calls.Keys - {call} && |calls - {call}| == |calls| - 1
  {
    var rest := calls - {call};
    assert rest.Keys == calls.Keys - {call};
    assert |rest| == |rest.Keys| && |calls| == |calls.Keys|;
  }

  lemma FinishIsSafe(c: Client, call: nat)
    requires Inv(c) && call in c.calls
    ensures Inv(After(c, Finish(call)))
  {
    LegalSnoc(c.log, Finished(call));
    OneCallLess(c.calls, call);
    FinishCloseIsSafe(Released(c, call));
  }

  lemma CloseIsSafe(c: Client)
    requires Inv(c)
    ensures Inv(After(c, Close))
  {
    if c.promise == NotAsked {
      LegalSnoc(c.log, CloseAsked);
      FinishCloseIsSafe(Asked(c));
    }
  }

  lemma StepIsSafe(c: Client, step: Step)
    requires Inv(c) && Enabled(c, step)
    ensures Inv(After(c, step))
  {
    match step
    case Begin(call, constructible) => BeginIsSafe(c, call, constructible);
    case Finish(call) => FinishIsSafe(c, call);
    case Close => CloseIsSafe(c);
  }

  /** An admitted call is counted, uses the one transport from then on, and is logged as doing so. */
  lemma BeginAdmits(c: Client, call: nat, constructible: bool)
    requires Inv(c) && call !in c.calls && c.phase == Open && (c.transport.Some? || constructible)
    ensures var next := After(c, Begin(call, constructible));
            && next.phase == Open && next.active == c.active + 1
            && next.calls.Keys == c.calls.Keys + {call} && next.transport == Some(next.calls[call])
            && (c.transport.Some? ==> next.transport == c.transport)
            && (forall other | other in c.calls :: next.calls[other] == c.calls[other])
            && next.log != [] && next.log[|next.log| - 1] == Executes(call, next.calls[call])
  {
    if c.transport.None? {
      assert c.calls == map[];
    }
  }

  /** A call that is turned away, or for which no transport can be made, leaves no trace but a line in the log. */
  lemma BeginRefuses(c: Client, call: nat, constructible: bool)
    requires Inv(c) && call !in c.calls && (c.phase != Open || (c.transport.None? && !constructible))
    ensures var next := After(c, Begin(call, constructible));
            && next == c.(log := next.log)
            && next.log == c.log + [if c.phase != Open then Refused(call) else CreationFailed(call)]
  {
  }

  /** Whatever the phase, a call that finishes is no longer counted and is logged as finished; the others go on. */
  lemma FinishReleases(c: Client, call: nat)
    requires Inv(c) && call in c.calls
    ensures var next := After(c, Finish(call));
            && next.active == c.active - 1 && next.calls == c.calls - {call}
            && |c.log| < |next.log| && next.log[..|c.log|] == c.log && next.log[|c.log|] == Finished(call)
  {
  }

  // ----- runs: any interleaving of any number of steps

  ghost predicate Possible(c: Client, steps: seq<Step>)
    decreases |steps|
  {
    steps == [] || (Enabled(c, steps[0]) && Possible(After(c, steps[0]), steps[1..]))
  }

  function AfterAll(c: Client, steps: seq<Step>): Client
    decreases |steps|
  {
    if steps == [] then c else AfterAll(After(c, steps[0]), steps[1..])
  }

  lemma {:induction false} RunIsSafe(c: Client, steps: seq<Step>)
    requires Inv(c) && Possible(c, steps)
    ensures Inv(AfterAll(c, steps))
    decreases |steps|
  {
    if steps != [] {
      StepIsSafe(c, steps[0]);
      RunIsSafe(After(c, steps[0]), steps[1..]);
    }
  }

  /**
  Every interleaving of begins, finishes and closes leaves a log that obeys the protocol,
  and fields that say what the log says.
   */
  lemma EveryRunIsLegal(injected: bool, steps: seq<Step>)
    requires Possible(NewClient(injected), steps)
    ensures var c := AfterAll(NewClient(injected), steps);
            && Legal(c.log)
            && c.active == |Observe(c.log).inFlight|
            && (c.phase == Closing ==> c.active > 0)
            && (c.phase == Closed <==> Observe(c.log).resolved)
  {
    NewClientIsSafe(injected);
    RunIsSafe(NewClient(injected), steps);
    var c := AfterAll(NewClient(injected), steps);
    assert |c.calls| == |c.calls.Keys|;
  }

  // ----- the state told by the steps alone

  /** Some begin that could make the transport came before close was asked for. */
  ghost predicate TransportMade(steps: seq<Step>) {
    exists j :: 0 <= j < |steps| && Makes(steps, j)
  }

  ghost predicate Makes(steps: seq<Step>, j: int)
    requires 0 <= j < |steps|
  {
    steps[j].Begin? && steps[j].constructible && Close !in steps[..j]
  }

  /** Step i begins a call before close is asked for, when the transport is there or can be made. */
  ghost predicate Admits(steps: seq<Step>, i: int)
    requires 0 <= i < |steps|
  {
    steps[i].Begin? && Close !in steps[..i] && TransportMade(steps[..i + 1])
  }

  /** Step i admits the call, and no later step finishes it. */
  ghost predicate Outstanding(steps: seq<Step>, call: nat, i: int) {
    0 <= i < |steps| && Admits(steps, i) && steps[i].call == call && Finish(call) !in steps[i + 1..]
  }

  lemma {:induction false} RunSnoc(c: Client, steps: seq<Step>, step: Step)
    requires Possible(c, steps + [step])
    ensures Possible(c, steps) && Enabled(AfterAll(c, steps), step)
    ensures AfterAll(c, steps + [step]) == After(AfterAll(c, steps), step)
    decreases |steps|
  {
    if steps == [] {
      assert [] + [step] == [step] && [step][1..] == [];
    } else {
      assert (steps + [step])[1..] == steps[1..] + [step];
      RunSnoc(After(c, steps[0]), steps[1..], step);
    }
  }

  lemma TransportMadeSnoc(steps: seq<Step>, step: Step)
    ensures TransportMade(steps + [step])
       <==> TransportMade(steps) || (step.Begin? && step.constructible && Close !in steps)
  {
    var longer := steps + [step];
    assert longer[..|steps|] == steps;
    forall j | 0 <= j < |steps|
      ensures Makes(longer, j) <==> Makes(steps, j)
    {
      assert longer[..j] == steps[..j];
    }
    if step.Begin? && step.constructible && Close !in steps {
      assert Makes(longer, |steps|);
    }
    if TransportMade(steps) {
      var j :| 0 <= j < |steps| && Makes(steps, j);
      assert Makes(longer, j);
    }
  }

  lemma OutstandingEarlier(steps: seq<Step>, step: Step, call: nat, i: int)
    requires 0 <= i < |steps|
    ensures Outstanding(steps + [step], call, i) <==> Outstanding(steps, call, i) && step != Finish(call)
  {
    var longer := steps + [step];
    assert longer[..i] == steps[..i] && longer[..i + 1] == steps[..i + 1];
    assert longer[i + 1..] == steps[i + 1..] + [step];
  }

  lemma OutstandingLast(steps: seq<Step>, step: Step, call: nat)
    ensures Outstanding(steps + [step], call, |steps|)
       <==> step.Begin? && step.call == call && Close !in steps && TransportMade(steps + [step])
  {
    var longer := steps + [step];
    assert longer[..|steps|] == steps && longer[..|steps| + 1] == longer && longer[|steps| + 1..] == [];
  }

  /** A call is outstanding after one more step iff it begins then, or was outstanding and does not finish then. */
  lemma OutstandingSnoc(steps: seq<Step>, step: Step, call: nat)
    ensures (exists i :: Outstanding(steps + [step], call, i))
       <==> || (step.Begin? && step.call == call && Close !in steps && TransportMade(steps + [step]))
            || (step != Finish(call) && exists i :: Outstanding(steps, call, i))
  {
    OutstandingLast(steps, step, call);
    forall i | 0 <= i < |steps|
      ensures Outstanding(steps + [step], call, i) <==> Outstanding(steps, call, i) && step != Finish(call)
    {
      OutstandingEarlier(steps, step, call, i);
    }
  }

  /** What one step does to the facts that the steps alone tell. */
  lemma StepAsTold(c: Client, step: Step)
    requires Inv(c) && Enabled(c, step)
    ensures var next := After(c, step);
            var admitted := step.Begin? && c.phase == Open && (c.transport.Some? || step.constructible);
            && (next.phase == Open <==> c.phase == Open && step != Close)
            && next.calls.Keys
               == (if admitted then c.calls.Keys + {step.call}
                   else if step.Finish? then c.calls.Keys - {step.call} else c.calls.Keys)
            && (next.phase == Open ==> (next.transport.Some? <==> c.transport.Some? || admitted))
            && (next.phase == Closed <==> next.phase != Open && next.calls.Keys == {})
  {
    StepIsSafe(c, step);
    match step
    case Begin(call, constructible) =>
      if c.phase == Open && (c.transport.Some? || constructible) {
        BeginAdmits(c, call, constructible);
      } else {
        BeginRefuses(c, call, constructible);
      }
    case Finish(call) => FinishReleases(c, call);
    case Close =>
  }

  /** The calls of the client are those that the steps leave outstanding. */
  ghost predicate CallsAsTold(c: Client, steps: seq<Step>) {
    forall call: nat :: call in c.calls <==> exists i :: Outstanding(steps, call, i)
  }

  /** Its phase and transport are what the steps make them. */
  ghost predicate FieldsAsTold(c: Client, steps: seq<Step>) {
    && (c.phase == Open <==> Close !in steps)
    && (c.phase == Open ==> (c.transport.Some? <==> TransportMade(steps)))
    && (c.phase == Closed <==> c.phase != Open && c.calls.Keys == {})
  }

  lemma FieldsSnoc(c: Client, steps: seq<Step>, step: Step)
    requires Inv(c) && Enabled(c, step) && FieldsAsTold(c, steps)
    ensures FieldsAsTold(After(c, step), steps + [step])
  {
    StepAsTold(c, step);
    TransportMadeSnoc(steps, step);
  }

  lemma CallsSnoc(c: Client, steps: seq<Step>, step: Step)
    requires Inv(c) && Enabled(c, step) && FieldsAsTold(c, steps) && CallsAsTold(c, steps)
    ensures CallsAsTold(After(c, step), steps + [step])
  {
    forall call: nat
      ensures call in After(c, step).calls <==> exists i :: Outstanding(steps + [step], call, i)
    {
      CallSnoc(c, steps, step, call);
    }
  }

  lemma CallSnoc(c: Client, steps: seq<Step>, step: Step, call: nat)
    requires Inv(c) && Enabled(c, step) && FieldsAsTold(c, steps)
    requires call in c.calls <==> exists i :: Outstanding(steps, call, i)
    ensures call in After(c, step).calls <==> exists i :: Outstanding(steps + [step], call, i)
  {
    StepAsTold(c, step);
    TransportMadeSnoc(steps, step);
    OutstandingSnoc(steps, step, call);
    assert call in After(c, step).calls <==> call in After(c, step).calls.Keys;
  }

  lemma {:induction false} RunAsTold(injected: bool, steps: seq<Step>)
    requires Possible(NewClient(injected), steps)
    ensures var c := AfterAll(NewClient(injected), steps);
            Inv(c) && FieldsAsTold(c, steps) && CallsAsTold(c, steps)
    decreases |steps|
  {
    if steps == [] {
      NewClientIsSafe(injected);
    } else {
      var front, step := steps[..|steps| - 1], steps[|steps| - 1];
      assert steps == front + [step];
      RunSnoc(NewClient(injected), front, step);
      RunAsTold(injected, front);
      var c := AfterAll(NewClient(injected), front);
      StepIsSafe(c, step);
      FieldsSnoc(c, front, step);
      CallsSnoc(c, front, step);
    }
  }

  /**
  The steps alone tell the state: the calls counted and given the transport are those that
  were begun before close was asked for, with a transport there or constructible, and have
  not finished; the client is closing once close has been asked for, and closed when no such
  call is left; the transport is held from the first begin that could make it until then.
   */
  lemma StepsTellTheState(injected: bool, steps: seq<Step>)
    requires Possible(NewClient(injected), steps)
    ensures var c := AfterAll(NewClient(injected), steps);
            && (forall call: nat :: call in c.calls <==> exists i :: Outstanding(steps, call, i))
            && c.active == |c.calls|
            && (c.phase == Open <==> Close !in steps)
            && (c.phase == Closed <==> Close in steps && forall call: nat, i: int :: !Outstanding(steps, call, i))
            && (c.phase == Open ==> (c.transport.Some? <==> TransportMade(steps)))
            && (forall call | call in c.calls :: c.transport == Some(c.calls[call]))
  {
    RunAsTold(injected, steps);
    var c := AfterAll(NewClient(injected), steps);
    forall call: nat, i: int | Outstanding(steps, call, i)
      ensures call in c.calls
    {
    }
    if Close in steps && forall call: nat, i: int :: !Outstanding(steps, call, i) {
      assert forall call: nat :: call !in c.calls;
    }
  }

  function Finishes(steps: seq<Step>): nat {
    if steps == [] then 0 else (if steps[0].Finish? then 1 else 0) + Finishes(steps[1..])
  }

  /**
  A closing client becomes closed with exactly the last of its active calls to finish,
  whatever else is tried meanwhile.
   */
  lemma {:induction false} DrainsExactly(c: Client, steps: seq<Step>)
    requires Inv(c) && c.phase != Open && Possible(c, steps)
    ensures Finishes(steps) <= c.active
    ensures var end := AfterAll(c, steps);
            && end.active == c.active - Finishes(steps)
            && (end.phase == Closed <==> Finishes(steps) == c.active)
            && end.phase != Open
    decreases |steps|
  {
    if steps != [] {
      StepIsSafe(c, steps[0]);
      DrainsExactly(After(c, steps[0]), steps[1..]);
    }
  }

  // ----- the default-transport resource, over any number of clients

  /** The delta that a client's action reports to the resource observer. */
  function Delta(injected: bool, action: Action): int {
    if injected then 0
    else match action
      case Created(_) => 1
      case TransportClosed(_) => -1
      case _ => 0
  }

  function Reported(injected: bool, log: seq<Action>): int {
    if log == [] then 0 else Reported(injected, log[..|log| - 1]) + Delta(injected, log[|log| - 1])
  }

  /** A default transport that exists and is not closed. */
  function Held(c: Client): int {
    if !c.injected && c.transport.Some? then 1 else 0
  }

  /** The deltas reported so far are what the client holds. */
  ghost predicate Balanced(c: Client) {
    Reported(c.injected, c.log) == Held(c)
  }

  /** One more action keeps the balance if its delta is the change of what is held. */
  lemma AppendKeepsBalance(c: Client, next: Client, action: Action)
    requires Balanced(c) && next.injected == c.injected && next.log == c.log + [action]
    requires Held(next) == Held(c) + Delta(c.injected, action)
    ensures Balanced(next)
  {
    assert next.log[..|next.log| - 1] == c.log;
  }

  lemma FinishCloseKeepsBalance(c: Client)
    requires Balanced(c)
    ensures Balanced(FinishClose(c))
  {
    if FinishClose(c) != c {
      var closed := c;
      if c.transport.Some? {
        closed := c.(transport := None, log := c.log + [TransportClosed(c.transport.value)]);
        AppendKeepsBalance(c, closed, TransportClosed(c.transport.value));
      }
      AppendKeepsBalance(closed, FinishClose(c), CloseResolved);
    }
  }

  lemma BeginKeepsBalance(c: Client, call: nat, constructible: bool)
    requires Balanced(c)
    ensures Balanced(After(c, Begin(call, constructible)))
  {
    var next := After(c, Begin(call, constructible));
    if c.phase != Open {
      AppendKeepsBalance(c, next, Refused(call));
    } else if c.transport.Some? {
      AppendKeepsBalance(c, next, Executes(call, c.transport.value));
    } else if !constructible {
      AppendKeepsBalance(c, next, CreationFailed(call));
    } else {
      var created := c.(transport := Some(|c.log|), log := c.log + [Created(|c.log|)]);
      AppendKeepsBalance(c, created, Created(|c.log|));
      AppendKeepsBalance(created, next, Executes(call, |c.log|));
    }
  }

  lemma FinishKeepsBalance(c: Client, call: nat)
    requires Balanced(c)
    ensures Balanced(After(c, Finish(call)))
  {
    AppendKeepsBalance(c, Released(c, call), Finished(call));
    FinishCloseKeepsBalance(Released(c, call));
  }

  lemma CloseKeepsBalance(c: Client)
    requires Balanced(c)
    ensures Balanced(After(c, Close))
  {
    if c.promise == NotAsked {
      AppendKeepsBalance(c, Asked(c), CloseAsked);
      FinishCloseKeepsBalance(Asked(c));
    }
  }

  lemma StepKeepsBalance(c: Client, step: Step)
    requires Balanced(c)
    ensures Balanced(After(c, step)) && After(c, step).injected == c.injected
  {
    match step
    case Begin(call, constructible) => BeginKeepsBalance(c, call, constructible);
    case Finish(call) => FinishKeepsBalance(c, call);
    case Close => CloseKeepsBalance(c);
  }

  /** A step of a process with many clients: a new client, or a step of one of them. */
  datatype WorldStep = Spawn(injected: bool) | On(index: nat, step: Step)

  ghost predicate WorldPossible(clients: seq<Client>, steps: seq<WorldStep>)
    decreases |steps|
  {
    steps == []
    || ((steps[0].On? ==> steps[0].index < |clients| && Enabled(clients[steps[0].index], steps[0].step))
        && WorldPossible(WorldAfter(clients, steps[0]), steps[1..]))
  }

  function WorldAfter(clients: seq<Client>, step: WorldStep): seq<Client> {
    match step
    case Spawn(injected) => clients + [NewClient(injected)]
    case On(index, s) => if index < |clients| then clients[index := After(clients[index], s)] else clients
  }

  function WorldAfterAll(clients: seq<Client>, steps: seq<WorldStep>): seq<Client>
    decreases |steps|
  {
    if steps == [] then clients else WorldAfterAll(WorldAfter(clients, steps[0]), steps[1..])
  }

  function TotalReported(clients: seq<Client>): int {
    if clients == [] then 0
    else TotalReported(clients[1..]) + Reported(clients[0].injected, clients[0].log)
  }

  function TotalHeld(clients: seq<Client>): int {
    if clients == [] then 0 else TotalHeld(clients[1..]) + Held(clients[0])
  }

  /** Replacing one client changes the total by what that client holds more or less. */
  lemma {:induction false} TotalHeldUpdate(clients: seq<Client>, index: nat, next: Client)
    requires index < |clients|
    ensures TotalHeld(clients[index := next]) == TotalHeld(clients) - Held(clients[index]) + Held(next)
  {
    if index == 0 {
      assert clients[0 := next][1..] == clients[1..];
    } else {
      TotalHeldUpdate(clients[1..], index - 1, next);
      assert clients[index := next][1..] == clients[1..][index - 1 := next];
    }
  }

  lemma {:induction false} TotalHeldSnoc(clients: seq<Client>, next: Client)
    ensures TotalHeld(clients + [next]) == TotalHeld(clients) + Held(next)
  {
    if clients != [] {
      TotalHeldSnoc(clients[1..], next);
      assert (clients + [next])[1..] == clients[1..] + [next];
    } else {
      assert (clients + [next])[1..] == [];
    }
  }

  /** A step of a world that is possible now lengthens a run that led here. */
  lemma {:induction false} WorldSnoc(clients: seq<Client>, steps: seq<WorldStep>, step: WorldStep)
    requires WorldPossible(clients, steps)
    requires WorldPossible(WorldAfterAll(clients, steps), [step])
    ensures WorldPossible(clients, steps + [step])
    ensures WorldAfterAll(clients, steps + [step]) == WorldAfter(WorldAfterAll(clients, steps), step)
    decreases |steps|
  {
    if steps == [] {
      assert [] + [step] == [step] && [step][1..] == [];
    } else {
      WorldSnoc(WorldAfter(clients, steps[0]), steps[1..], step);
      assert (steps + [step])[1..] == steps[1..] + [step];
    }
  }

  /** The world that a history leads to, and what it holds. */
  ghost predicate Follows(clients: seq<Client>, history: seq<WorldStep>, held: int) {
    WorldPossible([], history) && clients == WorldAfterAll([], history) && held == TotalHeld(clients)
  }

  /** One client takes a step, and what is held changes by what that client holds more or less. */
  lemma FollowsStep(clients: seq<Client>, history: seq<WorldStep>, held: int, index: nat, step: Step)
    requires Follows(clients, history, held) && index < |clients| && Enabled(clients[index], step)
    ensures var next := After(clients[index], step);
            Follows(clients[index := next], history + [On(index, step)], held + Held(next) - Held(clients[index]))
  {
    WorldSnoc([], history, On(index, step));
    TotalHeldUpdate(clients, index, After(clients[index], step));
  }

  lemma FollowsSpawn(clients: seq<Client>, history: seq<WorldStep>, held: int, injected: bool)
    requires Follows(clients, history, held)
    ensures Follows(clients + [NewClient(injected)], history + [Spawn(injected)], held)
  {
    WorldSnoc([], history, Spawn(injected));
    TotalHeldSnoc(clients, NewClient(injected));
  }

  ghost predicate WorldInv(clients: seq<Client>) {
    forall c | c in clients :: Inv(c) && Balanced(c)
  }

  lemma {:induction false} WorldRunIsSafe(clients: seq<Client>, steps: seq<WorldStep>)
    requires WorldInv(clients) && WorldPossible(clients, steps)
    ensures WorldInv(WorldAfterAll(clients, steps))
    decreases |steps|
  {
    if steps != [] {
      var next := WorldAfter(clients, steps[0]);
      match steps[0] {
        case Spawn(injected) =>
          NewClientIsSafe(injected);
        case On(index, step) =>
          StepIsSafe(clients[index], step);
          StepKeepsBalance(clients[index], step);
      }
      forall c | c in next
        ensures Inv(c) && Balanced(c)
      {
      }
      WorldRunIsSafe(next, steps[1..]);
    }
  }

  lemma {:induction false} TotalsAgree(clients: seq<Client>)
    requires WorldInv(clients)
    ensures TotalReported(clients) == TotalHeld(clients)
    ensures (forall c | c in clients :: c.phase == Closed) ==> TotalHeld(clients) == 0
  {
    if clients != [] {
      assert clients[0] in clients;
      TotalsAgree(clients[1..]);
    }
  }

  /**
  Over any run of any number of clients the deltas add up to the default transports that
  exist and are not closed, and to zero once every client has drained.
   */
  lemma ResourcesBalance(steps: seq<WorldStep>)
    requires WorldPossible([], steps)
    ensures var clients := WorldAfterAll([], steps);
            && TotalReported(clients) == TotalHeld(clients)
            && ((forall c | c in clients :: c.phase == Closed) ==> TotalReported(clients) == 0)
  {
    WorldRunIsSafe([], steps);
    TotalsAgree(WorldAfterAll([], steps));
  }
}
