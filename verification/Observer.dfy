/**
The observer of one operation: it hands every event to a diagnostic sink and to a
trace span, and isolates the operation from whatever those do.
 */
module Observer {
  import opened Prelude
  import opened Contract

  datatype Severity = INFO | WARN | ERROR

  datatype EndState = Success | Error | Cancelled

  datatype Event =
    | OperationStart
    | AttemptStart(attempt: nat)
    | RetryScheduled(attempt: nat, delayMs: nat)
    | OperationEnd(attempt: nat, elapsedMs: nat, severity: Severity, outcome: EndState,
                   errorCode: Option<ErrorCode>, httpStatus: Option<int>)

  /** `Math.max(0, Math.floor(elapsed))`. */
  function ElapsedMs(elapsed: real): (ms: nat)
    ensures elapsed >= 0.0 ==> ms as real <= elapsed < ms as real + 1.0
    ensures elapsed < 0.0 ==> ms == 0
  {
    if elapsed.Floor < 0 then 0 else elapsed.Floor
  }

  function EndEvent(attempt: nat, outcome: Outcome, elapsed: real): Event {
    var ms := ElapsedMs(elapsed);
    match outcome
    case Delivered(_) => OperationEnd(attempt, ms, INFO, Success, None, None)
    case Failed(Cancellation) => OperationEnd(attempt, ms, WARN, Cancelled, None, None)
    case Failed(Timeout) => OperationEnd(attempt, ms, WARN, Cancelled, None, None)
    case Failed(ApiFailure(status, code, _)) => OperationEnd(attempt, ms, ERROR, Error, Some(code), Some(status))
    case Failed(_) => OperationEnd(attempt, ms, ERROR, Error, None, None)
  }

  /** A caller-supplied diagnostic sink: it sees an event and may then throw. */
  class Sink {
    var received: seq<Event>

    constructor ()
      ensures received == []
    {
      received := [];
    }

    method Emit(event: Event) returns (threw: bool)
      modifies this
      ensures received == old(received) + [event]
    {
      received := received + [event];
      threw := *;
    }
  }

  /** A caller-supplied trace span. */
  class Span {
    var events: seq<Event>
    var ends: seq<Event>

    constructor ()
      ensures events == [] && ends == []
    {
      events := [];
      ends := [];
    }

    method AddEvent(event: Event) returns (threw: bool)
      modifies this`events
      ensures events == old(events) + [event]
    {
      events := events + [event];
      threw := *;
    }

    method End(event: Event) returns (threw: bool)
      modifies this`ends
      ensures ends == old(ends) + [event]
    {
      ends := ends + [event];
      threw := *;
    }
  }

  /** A caller-supplied tracer: starting a span may throw, or yield nothing. */
  method StartSpan() returns (span: Span?)
    ensures span != null ==> fresh(span) && span.events == [] && span.ends == []
  {
    var fails: bool := *;
    if fails {
      span := null;
    } else {
      span := new Span();
    }
  }

  class OperationObserver {
    const diagnostics: Sink?
    const traced: bool
    var span: Span?
    ghost var emitted: seq<Event>
    ghost const before: seq<Event>

    /** Sink and span have seen exactly the events emitted so far, in order. */
    ghost predicate Valid()
      reads this, diagnostics, span
    {
      && (diagnostics != null ==> diagnostics.received == before + emitted)
      && (span != null ==> span.events == emitted)
    }

    ghost predicate Open()
      reads this, span
    {
      span != null ==> span.ends == []
    }

    constructor (diagnostics: Sink?, traced: bool)
      ensures Valid() && Open() && span == null && emitted == []
      ensures this.diagnostics == diagnostics && this.traced == traced
      ensures before == if diagnostics != null then diagnostics.received else []
    {
      this.diagnostics := diagnostics;
      this.traced := traced;
      this.span := null;
      this.emitted := [];
      this.before := if diagnostics != null then diagnostics.received else [];
    }

    /** `operation.start`: the sink first, then the tracer's span if it yields one. */
    method Start()
      requires Valid() && span == null && emitted == []
      modifies this, diagnostics
      ensures Valid() && Open() && emitted == [OperationStart]
      ensures span != null ==> fresh(span)
      ensures !traced ==> span == null
    {
      if diagnostics != null {
        var threw := diagnostics.Emit(OperationStart);
      }
      if traced {
        span := StartSpan();
        if span != null {
          var threw := span.AddEvent(OperationStart);
        }
      }
      emitted := [OperationStart];
    }

    method Emit(event: Event)
      requires Valid() && Open()
      modifies this`emitted, diagnostics, span
      ensures Valid() && Open() && emitted == old(emitted) + [event]
    {
      if diagnostics != null {
        var threw := diagnostics.Emit(event);
      }
      if span != null {
        var threw := span.AddEvent(event);
      }
      emitted := emitted + [event];
    }

    method Attempt(attempt: nat)
      requires Valid() && Open()
      modifies this`emitted, diagnostics, span
      ensures Valid() && Open() && emitted == old(emitted) + [AttemptStart(attempt)]
    {
      Emit(AttemptStart(attempt));
    }

    method Retry(attempt: nat, delayMs: nat)
      requires Valid() && Open()
      modifies this`emitted, diagnostics, span
      ensures Valid() && Open() && emitted == old(emitted) + [RetryScheduled(attempt, delayMs)]
    {
      Emit(RetryScheduled(attempt, delayMs));
    }

    /** `operation.end`: the last event everywhere, and the one end of a live span. */
    method End(attempt: nat, outcome: Outcome, elapsed: real)
      requires Valid() && Open()
      modifies this`emitted, diagnostics, span
      ensures Valid() && emitted == old(emitted) + [EndEvent(attempt, outcome, elapsed)]
      ensures span != null ==> span.ends == [EndEvent(attempt, outcome, elapsed)]
    {
      var event := EndEvent(attempt, outcome, elapsed);
      Emit(event);
      if span != null {
        var threw := span.End(event);
      }
    }
  }
}
