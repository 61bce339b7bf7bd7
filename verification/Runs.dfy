/**
The shape of a run of the request engine, seen as a list of verdicts on its rounds: which
round decides it, what it shows to the observer and what it asks of the platform.
 */
module Runs {
  import opened Contract
  import opened Observer

  /** How one round ends: before its attempt begins, with an outcome in some turn, or with a scheduled retry. */
  datatype Verdict =
    | NotStarted(failure: Failure)
    | Settled(deadline: real, outcome: Outcome, turn: nat)
    | Retried(deadline: real, delay: nat, interrupted: bool)

  /** What the engine asks of the platform. */
  datatype Effect = Armed(deadline: real) | Dispatched | Slept(delay: nat)

  /**
  A whole run: its outcome, the turn it settles in, the attempt number its end reports,
  what it shows and what it asks for.
   */
  datatype Run = Run(outcome: Outcome, turn: nat, last: nat, events: seq<Event>, effects: seq<Effect>)

  predicate Continues(verdict: Verdict) {
    verdict.Retried? && !verdict.interrupted
  }

  /** The last round allowed never goes on to another. */
  predicate Ends(vs: seq<Verdict>) {
    |vs| > 0 && !Continues(vs[|vs| - 1])
  }

  predicate AllContinue(vs: seq<Verdict>, k: nat) {
    k < |vs| && forall i | 0 <= i < k :: Continues(vs[i])
  }

  /** The first round from k on that does not continue: the one that decides the run. */
  function Deciding(vs: seq<Verdict>, k: nat): (j: nat)
    requires Ends(vs) && k < |vs|
    ensures k <= j < |vs| && !Continues(vs[j])
    ensures forall i | k <= i < j :: Continues(vs[i])
    decreases |vs| - k
  {
    if Continues(vs[k]) then Deciding(vs, k + 1) else k
  }

  /** The events of round k, if it is reached. */
  function EventsOf(verdict: Verdict, k: nat): seq<Event> {
    match verdict
    case NotStarted(_) => []
    case Settled(_, _, _) => [AttemptStart(k + 1)]
    case Retried(_, delay, _) => [AttemptStart(k + 1), RetryScheduled(k + 2, delay)]
  }

  function EffectsOf(verdict: Verdict): seq<Effect> {
    match verdict
    case NotStarted(_) => []
    case Settled(deadline, _, _) => [Armed(deadline), Dispatched]
    case Retried(deadline, delay, _) => [Armed(deadline), Dispatched, Slept(delay)]
  }

  /** The events up to the moment round k begins. */
  function EventsBefore(vs: seq<Verdict>, k: nat): seq<Event>
    requires k <= |vs|
  {
    if k == 0 then [OperationStart] else EventsBefore(vs, k - 1) + EventsOf(vs[k - 1], k - 1)
  }

  function EffectsBefore(vs: seq<Verdict>, k: nat): seq<Effect>
    requires k <= |vs|
  {
    if k == 0 then [] else EffectsBefore(vs, k - 1) + EffectsOf(vs[k - 1])
  }

  /** What a run that round j decides ends with. */
  function OutcomeOf(verdict: Verdict): Outcome {
    match verdict
    case NotStarted(failure) => Failed(failure)
    case Settled(_, outcome, _) => outcome
    case Retried(_, _, _) => Failed(Cancellation)
  }

  /** The turn in which round k, begun in turn 2k, leaves the engine. */
  function TurnAfter(verdict: Verdict, k: nat): nat {
    match verdict
    case NotStarted(_) => 2 * k
    case Settled(_, _, turn) => turn
    case Retried(_, _, _) => 2 * (k + 1)
  }

  /** The attempt number once round k is over: a timeout before the attempt counts it, an abort does not. */
  function AttemptAfter(verdict: Verdict, k: nat): nat {
    if verdict.NotStarted? && !verdict.failure.Timeout? then k else k + 1
  }

  function RunOf(vs: seq<Verdict>): Run
    requires Ends(vs)
  {
    var j := Deciding(vs, 0);
    Run(OutcomeOf(vs[j]), TurnAfter(vs[j], j), AttemptAfter(vs[j], j),
        EventsBefore(vs, j + 1), EffectsBefore(vs, j + 1))
  }

  function Trace(vs: seq<Verdict>, elapsedAtEnd: real): seq<Event>
    requires Ends(vs)
  {
    var run := RunOf(vs);
    run.events + [EndEvent(run.last, run.outcome, elapsedAtEnd)]
  }

  // ----- the deciding round

  lemma DecidingIsUnique(vs: seq<Verdict>, j: nat)
    requires Ends(vs) && AllContinue(vs, j) && !Continues(vs[j])
    ensures j == Deciding(vs, 0)
  {
  }

  /** Where a run stands when round k begins. */
  ghost predicate Reaches(vs: seq<Verdict>, k: nat, turn: nat, events: seq<Event>, effects: seq<Effect>) {
    && AllContinue(vs, k)
    && turn == 2 * k && events == EventsBefore(vs, k) && effects == EffectsBefore(vs, k)
  }

  /** Round k takes the run to the next round, or to its end. */
  lemma RoundMovesRun(vs: seq<Verdict>, k: nat, turn: nat, events: seq<Event>, effects: seq<Effect>)
    requires Ends(vs) && Reaches(vs, k, turn, events, effects)
    ensures var next, later, longer := TurnAfter(vs[k], k), events + EventsOf(vs[k], k), effects + EffectsOf(vs[k]);
            if Continues(vs[k]) then AttemptAfter(vs[k], k) == k + 1 < |vs| && Reaches(vs, k + 1, next, later, longer)
            else RunOf(vs) == Run(OutcomeOf(vs[k]), next, AttemptAfter(vs[k], k), later, longer)
  {
    if !Continues(vs[k]) {
      DecidingIsUnique(vs, k);
    }
  }

  /** Attempts that begin, and retries that are scheduled, in a run. */
  function Starts(vs: seq<Verdict>): nat
    requires Ends(vs)
  {
    var j := Deciding(vs, 0);
    if vs[j].NotStarted? then j else j + 1
  }

  function Retries(vs: seq<Verdict>): nat
    requires Ends(vs)
  {
    var j := Deciding(vs, 0);
    if vs[j].Retried? then j + 1 else j
  }

  lemma StartedRounds(vs: seq<Verdict>)
    requires Ends(vs)
    ensures Retries(vs) <= Starts(vs) <= |vs| && Starts(vs) <= Retries(vs) + 1
    ensures forall i | 0 <= i < Starts(vs) :: !vs[i].NotStarted?
    ensures forall i | 0 <= i < Retries(vs) :: vs[i].Retried?
    ensures forall i | 0 <= i < Starts(vs) - 1 :: Continues(vs[i])
  {
  }

  // ----- the trace

  /** k attempts after the start, each with the retry that its round schedules. */
  predicate Alternates(vs: seq<Verdict>, events: seq<Event>, k: nat) {
    && k <= |vs| && |events| == 2 * k + 1 && events[0] == OperationStart
    && forall i | 0 <= i < k ::
         && events[2 * i + 1] == AttemptStart(i + 1)
         && vs[i].Retried? && events[2 * i + 2] == RetryScheduled(i + 2, vs[i].delay)
  }

  lemma {:induction false} EventsBeforeShape(vs: seq<Verdict>, k: nat)
    requires AllContinue(vs, k)
    ensures Alternates(vs, EventsBefore(vs, k), k)
  {
    if k > 0 {
      EventsBeforeShape(vs, k - 1);
    }
  }

  /** s attempts and r retries in alternation between one start and one end that reports n. */
  predicate Grammatical(vs: seq<Verdict>, trace: seq<Event>, s: nat, r: nat, n: nat) {
    && r <= s <= r + 1 && r <= |vs|
    && |trace| == s + r + 2
    && trace[0] == OperationStart
    && (forall i | 0 <= i < s :: trace[2 * i + 1] == AttemptStart(i + 1))
    && (forall i | 0 <= i < r :: vs[i].Retried? && trace[2 * i + 2] == RetryScheduled(i + 2, vs[i].delay))
    && trace[s + r + 1].OperationEnd? && trace[s + r + 1].attempt == n
  }

  lemma TailCompletesTheGrammar(vs: seq<Verdict>, before: seq<Event>, end: Event, j: nat)
    requires j < |vs| && Alternates(vs, before, j) && end.OperationEnd?
    ensures Grammatical(vs, before + EventsOf(vs[j], j) + [end],
                        if vs[j].NotStarted? then j else j + 1, if vs[j].Retried? then j + 1 else j, end.attempt)
  {
  }

  lemma TraceIsGrammatical(vs: seq<Verdict>, elapsedAtEnd: real)
    requires Ends(vs)
    ensures Grammatical(vs, Trace(vs, elapsedAtEnd), Starts(vs), Retries(vs), RunOf(vs).last)
  {
    var j, run := Deciding(vs, 0), RunOf(vs);
    EventsBeforeShape(vs, j);
    TailCompletesTheGrammar(vs, EventsBefore(vs, j), EndEvent(run.last, run.outcome, elapsedAtEnd), j);
  }

  lemma LastAttempt(vs: seq<Verdict>)
    requires Ends(vs)
    ensures var run := RunOf(vs);
            && (run.last == Starts(vs) || (run.last == Starts(vs) + 1 && run.outcome == Failed(Timeout)))
            && (Retries(vs) == Starts(vs) > 0 ==>
                  run.outcome == Failed(Cancellation) || vs[Deciding(vs, 0)] == NotStarted(run.outcome.failure))
  {
  }

  /**
  Every trace follows the grammar; its end reports the attempts that began, or one more
  for a run that timed out before its next attempt; a trailing retry is only left behind
  by a run that is cancelled or never starts its next attempt.
   */
  lemma TraceGrammar(vs: seq<Verdict>, elapsedAtEnd: real)
    requires Ends(vs)
    ensures var run := RunOf(vs);
            && Grammatical(vs, Trace(vs, elapsedAtEnd), Starts(vs), Retries(vs), run.last)
            && (run.last == Starts(vs) || (run.last == Starts(vs) + 1 && run.outcome == Failed(Timeout)))
            && (Retries(vs) == Starts(vs) > 0 ==>
                  run.outcome == Failed(Cancellation) || vs[Deciding(vs, 0)] == NotStarted(run.outcome.failure))
  {
    TraceIsGrammatical(vs, elapsedAtEnd);
    LastAttempt(vs);
  }

  // ----- the effects

  /** Every attempt is armed and dispatched, and a sleep of its delay follows every attempt that is retried. */
  predicate Paced(vs: seq<Verdict>, effects: seq<Effect>, s: nat, r: nat)
    requires r <= s <= |vs|
  {
    && |effects| == 2 * s + r && s <= r + 1
    && (forall i | 0 <= i < s ::
          !vs[i].NotStarted? && effects[3 * i] == Armed(vs[i].deadline) && effects[3 * i + 1] == Dispatched)
    && (forall i | 0 <= i < r :: vs[i].Retried? && effects[3 * i + 2] == Slept(vs[i].delay))
  }

  lemma {:induction false} EffectsBeforeShape(vs: seq<Verdict>, k: nat)
    requires AllContinue(vs, k)
    ensures Paced(vs, EffectsBefore(vs, k), k, k)
  {
    if k > 0 {
      EffectsBeforeShape(vs, k - 1);
      OneMorePace(vs, EffectsBefore(vs, k - 1), k - 1);
    }
  }

  lemma OneMorePace(vs: seq<Verdict>, effects: seq<Effect>, j: nat)
    requires j < |vs| && Paced(vs, effects, j, j)
    ensures Paced(vs, effects + EffectsOf(vs[j]),
                  if vs[j].NotStarted? then j else j + 1, if vs[j].Retried? then j + 1 else j)
  {
  }

  /** Everything the engine asks for, in order: arm, dispatch, and between attempts sleep. */
  lemma EffectsOfARun(vs: seq<Verdict>)
    requires Ends(vs)
    ensures Retries(vs) <= Starts(vs) <= |vs| && Paced(vs, RunOf(vs).effects, Starts(vs), Retries(vs))
  {
    var j := Deciding(vs, 0);
    EffectsBeforeShape(vs, j);
    OneMorePace(vs, EffectsBefore(vs, j), j);
  }
}
