# A verified model of the Cuna TypeScript client

This project models the parts of the client library whose correctness is not visible in
one function, and proves what they promise with the Dafny verifier. `dafny verify
dfyconfig.toml` checks everything.

- `Words`, `BoundaryPolicy`, `Horner`, `NearWindows`, `Contexts`, `BoundaryWitnesses`,
  `Sanitize` — the prohibited-marker scanner. A Rabin-Karp scan in signed and unsigned
  32-bit JavaScript arithmetic is proved to report exactly what hashing every window from
  scratch in unbounded integers reports, and the screen over a JSON tree to refuse exactly the trees that hold
  such a string or key at some path. What the scan finds in a text it finds in a larger one
  under exact conditions, with texts on which they fail.
- `Sampler` — the rejection sampler behind the retry jitter: exact uniformity, and when it
  can end.
- `BodyReader` — the bounded response reader: bytes sent in any slices are read back as they
  were, chunking does not matter, nothing over the bound is kept.
- `Contract`, `Observer`, `Runs`, `Transport`, `TransportProperties` — the request engine
  with its observer. `Transport` is the engine itself, imperative, with timers, listeners,
  sinks and a span as objects. Each round of its retry loop is given a verdict by a
  function of what the round shows the engine; `Runs` says what a list of verdicts means,
  and `TransportProperties` what every run satisfies.
- `Lifecycle`, `ClientContexts` — the open / closing / closed client with overlapping
  calls, as a transition system with a log, a monitor for that log, the state told from the
  steps alone, and the class proved to follow it; and the balance of default transports over
  any number of clients, for the model and for client objects on one meter.
- `Base64` — canonical base64 of sections 3.5 and 4 of RFC 4648, and the chunk decoder.
- `ReleaseEnvelope` — the hash chain of release states: what validates is what appends make.
- `WorkspaceBindings` — canonical relative prefixes and the locations they name.

## How the environment is modelled

The request engine runs against a script: for every round, the clock as it is read, whether
the fetch rejected or responded, whether the attempt's timer had fired, the random stream,
and whether a sleep was interrupted. Code between two awaits is one turn: the runtime counts
the awaits that have come back, and the caller's abort flag is a function of that count.
`Sufficient` says that the script covers the rounds the engine may need and that each
random stream holds a draw the sampler accepts (otherwise the source does not terminate
either). `Coherent`, used only where a theorem says so, adds that the clock and the flag
never go back and that the attempt's signal is raised only by the caller or the timer.
Elapsed times are real numbers. Caller-supplied sinks and spans record what they are shown
and may throw at every event.

In the lifecycle an invocation is two steps, up to its await and its finally block, and a
run is any interleaving of such steps and closes.

The scanner takes the decoded text and its lower-cased form as two arbitrary texts of
16-bit code units, so its refinement holds for any lower-casing. Results about a text
inside a larger one are in `Contexts` and are about decoded texts: the larger one is
lower-cased as a whole. There lower-casing has the shape that the Unicode standard gives it
outside any language (section 3.13, Default Case Algorithms), on 16-bit units. Each unit
becomes what its own data say, with two exceptions. A low surrogate after a high one is
replaced by a low surrogate, and stays as it is otherwise; no letter outside the first plane
leaves its high surrogate. The capital sigma U+03A3 becomes U+03C2 at the end of a word and
U+03C3 elsewhere. The data and the test for the end of a word are parameters, and the
concrete texts assume of them what Unicode says of the characters they are made of
(`AgreesWithUnicode`). A decoder, a digest and JSON parsing are parameters.

## Findings about the code

- The comment at `src/internal/boundary-policy.ts:15-17` says generic vocabulary is
  token-aware. The length-9 hash 1161608401 is in the target table (line 4) but not in the
  length-9 substring set (line 20), and because that length has a set, the boundary test
  is never consulted for it. `OneShippedEntryIsDead` shows that every other shipped hash is
  reported on some string and this one on none, whatever escape decoding and lower-casing do
  elsewhere as long as they leave ideographs alone; `LiveOnStrings` is the exact condition
  behind it, for any table and every length from four up. `MissedToken` gives a text that
  has the hash, stands as a whole token, and is not reported.
- The comment there also says that vendor names are detected when embedded in a larger
  string. The larger string is lower-cased as a whole (line 99), and two kinds of unit are
  lower-cased differently there: a capital sigma, by the letters around it, and a low
  surrogate at the start when a high one precedes. `SigmaHidesASubstring` gives a
  text that is reported and is not when `b` is appended, `PairHidesASubstring` one that is
  not after U+D801. `ShippedSubstringSurvivesIff` gives the exact condition for a shipped
  hit to be found again at its place, in any context: every unit that stands in its window
  is lower-cased there as it is alone. So it is if the text has no capital sigma and the
  context does not put a high surrogate before a low one at its start
  (`SigmaFreeTextsAgree`).
- The boundary test reads the decoded text at the position of the lower-cased window (lines
  121-122), which is another place when lower-casing has changed the length of what comes
  before. `TokenSurvivesIff` gives the exact condition for a token to be found again at its
  place; `ShiftHidesAToken` gives a token that is reported alone but not after U+0130 and a space.
- `nextRandomInt` admits every safe integer as its bound (`src/internal/test-seams.ts:55-65`)
  but from 2^32 on it rejects every draw and never returns; `SamplerCanFinish` states the
  exact condition, and `NextRandomInt` shows it still drawing after any number of draws.
  Nothing under `src` calls it; the engine draws its delays with `uniformDelay`, with caps
  of 100 and 200.

## Model

| member | source | states |
|---|---|---|
| `Words.ImulIsCongruent` | src/internal/boundary-policy.ts:92 | the signed 32-bit product stands, modulo 2^32, for the product of whatever its arguments stand for |
| `BoundaryPolicy.PolynomialSnoc` | src/internal/boundary-policy.ts:88-95 | the positional sum of a window extended by one unit is the Horner step on the sum before |
| `BoundaryPolicy.PolynomialHash` | src/internal/boundary-policy.ts:88-95 | the truncated Horner loop computes the positional polynomial of the window modulo 2^32, positions past the end reading as 0 |
| `BoundaryPolicy.LeadingPower` | src/internal/boundary-policy.ts:110-113 | the power loop computes 257^(L-1) modulo 2^32 |
| `BoundaryPolicy.SlideIsExact` | src/internal/boundary-policy.ts:115-118 | dropping the outgoing unit and adding the incoming one in machine arithmetic gives exactly the from-scratch hash of the next window |
| `BoundaryPolicy.ContainsTarget` | src/internal/boundary-policy.ts:100-127 | the scan for one length finds something iff some window of that length has a target hash that the filter accepts |
| `BoundaryPolicy.ContainsMarker` | src/internal/boundary-policy.ts:97-129 | the whole scan returns true iff some length and some window pass, for any table and any texts |
| `BoundaryPolicy.ClassesAsPrinted` | src/internal/boundary-policy.ts:49-69 | the character classes of the boundary test hold the ASCII digits and letters, as printed, and no other character |
| `BoundaryPolicy.LiveEntries` | src/internal/boundary-policy.ts:100-127 | in any table, the loop reports some pair of a decoded and a lower-cased text, related or not, by an entry and a hash iff the entry lists the hash, the substring set of its length, if there is one, holds it too, and windows of that length can have it |
| `BoundaryPolicy.LiveOnStrings` | src/internal/boundary-policy.ts:97-129 | for lengths from four up the two texts can be those of one string: the scan reports some string by the entry and the hash under the same condition, for any escape decoding and lower-casing that leave ideographs alone |
| `BoundaryPolicy.CaselessPreimage` | src/internal/boundary-policy.ts:88-95 | from four units up, every 32-bit number is the hash of a text of ideographs |
| `BoundaryPolicy.PreimageHashes` | src/internal/boundary-policy.ts:88-95 | for every length and every hash that windows of that length can have, a window with that hash |
| `BoundaryPolicy.WindowHashIsReachable` | src/internal/boundary-policy.ts:88-95 | no window of one or two units has a hash beyond what 16-bit units can make; longer ones can have any |
| `BoundaryPolicy.PrunedTableAgrees` | src/internal/boundary-policy.ts:119-123 | removing the hashes that cannot fire changes no verdict on any text, for any table |
| `BoundaryPolicy.OneShippedEntryIsDead` | src/internal/boundary-policy.ts:2-21 | every hash of the shipped table is reported on some string, except the third length-9 hash, which is reported on none, for any escape decoding and lower-casing that leave ideographs alone |
| `BoundaryPolicy.ShippedTablePruned` | src/internal/boundary-policy.ts:2-21 | pruning the shipped table takes out that hash and nothing else |
| `BoundaryWitnesses.MissedToken` | src/internal/boundary-policy.ts:2-21 | the nine units of `qstyaasja` are a whole token with that listed hash, and the scan does not report them |
| `NearWindows.ShippedWindowsAreApart` | src/internal/boundary-policy.ts:17-21 | two windows that differ by at most one in any unit but the first, and there by less than 1024, both have shipped substring hashes of their length only if they are the same |
| `Contexts.LowerInsideIff` | src/internal/boundary-policy.ts:99 | in any context a text is lower-cased as it is alone iff each of its capital sigmas ends a word there iff it does alone and a low surrogate at its start is not changed by a high one before it; it always becomes equally many units |
| `Contexts.SigmaFreeTextsAgree` | src/internal/boundary-policy.ts:99 | so a text without a capital sigma is lower-cased as it is alone in every context that does not put a high surrogate before a low one at its start |
| `Contexts.LowerCaseLeavesCaseless` | src/internal/boundary-policy.ts:99 | lower-casing whose data map ideographs to themselves leaves texts of them alone |
| `Contexts.MarksSurvive` | src/internal/boundary-policy.ts:71-129 | a marked text stays marked between any contexts that meet it with something other than an ASCII letter or digit, if its units are lower-cased there as they are alone and neither it nor what precedes it changes in length |
| `Contexts.SubstringsSurvive` | src/internal/boundary-policy.ts:15-21 | for any table, a hit of a length with a substring set survives any context in which the units of the text are lower-cased as they are alone: sigmas end words there as they do alone, and no surrogate pair at the left seam changes the first unit |
| `Contexts.WindowInsideIff` | src/internal/boundary-policy.ts:99 | a window of the lower-cased text is the same in a context iff the units that stand in it are lower-cased there as they are alone, and otherwise differs by at most one in any unit but the first of the text |
| `Contexts.ShippedSubstringSurvivesIff` | src/internal/boundary-policy.ts:97-129 | in any context a hit of length 5 or 9 of the shipped table is found again at its place iff the units that stand in its window are lower-cased there as they are alone |
| `Contexts.TokenSurvivesIff` | src/internal/boundary-policy.ts:119-123 | in any context a token is found again at its place iff the window that then stands there has a listed hash, as it does if its units are lower-cased as they are alone, and the decoded text has token boundaries there |
| `BoundaryWitnesses.ShiftHidesAToken` | src/internal/boundary-policy.ts:97-129 | the units of `abqqyozzba` are reported by the shipped table alone, and not after U+0130, which becomes two units, and a space |
| `BoundaryWitnesses.SigmaHidesASubstring` | src/internal/boundary-policy.ts:97-129 | U+65FD U+9F67 U+9FA3 U+0061 U+03A3 is reported by the shipped table, and not with `b` after it |
| `BoundaryWitnesses.PairHidesASubstring` | src/internal/boundary-policy.ts:97-129 | U+DC00 U+4ED9 U+4EA8 U+4E88 U+4E21 is reported by the shipped table, and not with U+D801 before it |
| `Contexts.TokenInContext` | src/internal/boundary-policy.ts:71-86 | exactly when a context takes the token boundaries of a whole text away |
| `Sanitize.ContainsProhibitedMarker` | src/internal/boundary-policy.ts:97-129 | the scanner decides prohibition with the shipped table, for whatever escape decoding and lower-casing do; what it makes of escapes and of case is in `SpellingsAreProhibitedAlike`, `EscapesDoNotHide` and `SpellingsAreScreened` |
| `Sanitize.SpellingsAreProhibitedAlike` | src/internal/boundary-policy.ts:98 | only what a text decodes to counts: texts with one decoding are prohibited alike |
| `Sanitize.EscapesDoNotHide` | src/internal/boundary-policy.ts:98 | an escaped spelling of a text that decoding leaves alone is prohibited iff the text is |
| `Sanitize.StringsAndKeysAreScreened` | src/internal/sanitize.ts:3-18 | a prohibited string anywhere in a value, or a prohibited key of any object in it, has the value refused |
| `BoundaryWitnesses.SpellingsAreScreened` | src/internal/boundary-policy.ts:97-129 | every spelling of U+DC00 U+4ED9 U+4EA8 U+4E88 U+4E21 is refused, every spelling of `qstyaasja` passes, and every spelling of `xAbqqyozzba` is prohibited, whose token has its left boundary only before lower-casing and its hash only after it |
| `Sanitize.ScreenIsExact` | src/internal/sanitize.ts:3-18 | a value of any depth passes unchanged iff no string and no key at any path in it is prohibited, and is refused otherwise |
| `Sanitize.PartsOfACleanValueAreClean` | src/internal/sanitize.ts:3-18 | every value inside one that passed would pass too |
| `Sampler.UniformDelay` | src/internal/transport.ts:449-456 | on every stream with an acceptable draw the loop stops at the first one, which is one of the accepted raw draws of the residue that it returns; those before it are rejected raw draws |
| `Sampler.NextRandomInt` | src/internal/test-seams.ts:55-65 | refuses exactly the bounds that are no non-negative safe integers; is still drawing after n draws iff all n are rejected, as it always is from 2^32 up; otherwise returns the residue of the first accepted draw |
| `Sampler.ResiduesAreUniform` | src/internal/transport.ts:449-456 | every residue has exactly floor(2^32 / limit) accepted raw draws |
| `Sampler.FewDrawsAreRejected` | src/internal/transport.ts:451 | the rejected raw draws number 2^32 minus the largest multiple, fewer than the limit |
| `Sampler.SamplerCanFinish` | src/internal/test-seams.ts:55-65 | some stream ends the loop iff the inclusive bound is below 2^32 |
| `BodyReader.ReadLimited` | src/internal/transport.ts:215-266 | what reading a body yields on every sequence of races, and that at most 16777216 bytes are ever held |
| `BodyReader.CopyOut` | src/internal/transport.ts:259-265 | the copy loop fills the array exactly with the chunks in order |
| `BodyReader.QuietBodiesAreJoined` | src/internal/transport.ts:231-242 | without abort or read error the result is the concatenation, in the order of `JoinedConcat` and `JoinedOne`, if it fits and malformed otherwise |
| `BodyReader.JoinedConcat` | src/internal/transport.ts:231-242 | the bytes of two stretches of races are those of the first followed by those of the second |
| `BodyReader.JoinedOne` | src/internal/transport.ts:239-242 | a chunk alone gives its bytes, and an item without a value none |
| `BodyReader.SlicesAreReadBack` | src/internal/transport.ts:231-265 | bytes cut into consecutive slices in any way and sent as chunks are read back as they were, if they are at most 16 MiB, and are malformed otherwise |
| `BodyReader.ChunkingDoesNotMatter` | src/internal/transport.ts:231-265 | two ways of cutting the same bytes give the same result |
| `BodyReader.WholeBodyIff` | src/internal/transport.ts:229-265 | bytes come back iff there was no abort at the start, no read failed or was lost to an abort, and the whole body fits; then they are the whole body |
| `BodyReader.CancellationsAreHonest` | src/internal/transport.ts:243-249 | a cancellation is reported only after an abort was seen, and always when the stopping read saw one |
| `Observer.ElapsedMs` | src/internal/observer.ts:140 | whole elapsed milliseconds, never negative |
| `Observer.OperationObserver.Start` | src/internal/observer.ts:75-100 | sink and span, if there is one, have seen exactly the start event, whatever they threw |
| `Observer.OperationObserver.Attempt` | src/internal/observer.ts:102-118 | an attempt event is appended to what sink and span have seen |
| `Observer.OperationObserver.Retry` | src/internal/observer.ts:120-137 | a retry event is appended to what sink and span have seen |
| `Observer.OperationObserver.End` | src/internal/observer.ts:139-180 | the end event is appended and a live span is ended, once |
| `Runs.TraceGrammar` | src/internal/transport.ts:524-606 | the trace is a start, alternating attempts and retries numbered in order, each retry with the delay of its round, and one end with the number of attempts begun, or one more only for a timeout; a trailing retry is only left by a cancellation or a round that never starts |
| `Runs.EffectsOfARun` | src/internal/transport.ts:545-579 | per attempt one timer is armed and one fetch dispatched, and a sleep follows exactly the retried attempts |
| `Transport.Runtime.ArmTimer` | src/internal/transport.ts:545-548 | a timer is armed with the given deadline, and only while none is live |
| `Transport.Runtime.AddListener` | src/internal/transport.ts:541-544 | the caller's signal is listened to, and only while no listener is on it |
| `Transport.Runtime.Release` | src/internal/transport.ts:560-561 | after an attempt no timer and no listener is left, whether or not either has fired |
| `Transport.Runtime.Sleep` | src/internal/transport.ts:458-479 | the sleep starts with no timer or listener live and leaves none, interrupted or not, one turn later |
| `Transport.DecideRetry` | src/internal/transport.ts:563-580 | after a rejected fetch: give up with timeout or failure, or announce and sleep the sampled delay, as judged and in the judged turn |
| `Transport.CatchRejection` | src/internal/transport.ts:559-581 | the catch block of a fetch: release first, cancellation before anything else, then the retry decision |
| `Transport.ConcludeAttempt` | src/internal/transport.ts:582-600 | a response phase ends with the judged outcome, in the judged turn, with timer and listener gone |
| `Transport.PerformAttempt` | src/internal/transport.ts:536-600 | one attempt has exactly the judged events, effects, end and turn, and lets go of its timer and listener on every path |
| `Transport.RunAttempts` | src/internal/transport.ts:530-602 | the retry loop yields the run of the verdicts: outcome, turn, attempt number, events and effects; and never falls through |
| `Transport.Execute` | src/internal/transport.ts:508-607 | outcome, the turn it comes in, effects, diagnostics and span of a call are those of its run, whatever the sinks throw; no timer or listener is left |
| `TransportProperties.CancelledIffAborted` | src/internal/transport.ts:531-606 | the outcome is AbortError iff the caller's signal is aborted in the turn in which the engine settles the call |
| `TransportProperties.EarlierAbortWins` | src/internal/transport.ts:531-606 | an abort in any turn up to that one makes the outcome AbortError |
| `TransportProperties.DispatchBound` | src/internal/transport.ts:527-581 | whatever is not a GET, and the operation `sessions.agentAuth`, is dispatched at most once and never retried; any other GET at most three times; and no fetch follows a response |
| `TransportProperties.ReadsAreGets` | src/internal/transport.ts:49-62 | the operations that are retried are those whose method in the generated contract is GET, except `sessions.agentAuth` |
| `TransportProperties.Limits` | src/internal/transport.ts:428-447 | in milliseconds: 10000 per attempt and 30000 in all for retried reads, 1860000 for `sessions.create`, 15000 more than the timeout, by default 120 seconds, for `sessions.exec`, and 60000 for everything else |
| `TransportProperties.AttemptsFitTheBudget` | src/internal/transport.ts:534-548 | every attempt gets a positive deadline within its own limit and within what is left in total, and it is one of the two |
| `TransportProperties.DelaysFitTheBudget` | src/internal/transport.ts:571-579 | the delay before attempt i + 1 is the residue, within 0..100 i, of the first draw that the sampler accepts, and ends before the total deadline |
| `TransportProperties.DeliversIff` | src/internal/transport.ts:531-593 | a value is delivered iff, with the caller waiting throughout, rounds reject with attempts, time and a short enough delay left until one brings a response in time that can be read and decoded to the value |
| `TransportProperties.DecidesIff` | src/internal/transport.ts:531-581 | the round that decides a run is the first whose fetch does not reject early enough, with a delay drawn short enough and slept through, while the caller waits |
| `TransportProperties.ResponsePhase` | src/internal/transport.ts:582-600 | after a response there is no other fetch, and the outcome is what the response is disposed to, or a timeout for a failure after the timer fired |
| `TransportProperties.FailuresHaveACause` | src/internal/transport.ts:535-599 | a run fails with a timeout, a transport failure or any other failure iff, in its deciding round, the clock or timer ran out, a fetch that cannot be retried rejected, or a response was disposed of to that failure in time |
| `TransportProperties.TransientFailuresAreMasked` | src/internal/transport.ts:531-593 | up to two early rejections of a read do not show: the next response delivers what it would have delivered first |
| `TransportProperties.DispositionDeliversIff` | src/internal/transport.ts:293-398 | a response delivers a value iff its status and headers are right, the entity tag of a capability snapshot included, it can be read to its end with the signal down, and it parses, passes the screen and decodes |
| `TransportProperties.UnexpectedIff` | src/internal/transport.ts:392-397 | a foreign error escapes iff a readable, screened body makes the decoder throw one |
| `TransportProperties.ProblemIff` | src/internal/transport.ts:299-427 | an API failure carries a problem iff a Problem operation got an error status under a JSON media type and the decoder for that media type and status finds the problem in the screened body |
| `TransportProperties.EndReportsTheOutcome` | src/internal/observer.ts:139-168 | the last event says success, cancelled or error as the outcome is, with the whole milliseconds elapsed; exactly for API failures it carries the status of the deciding round's response and the code that this status calls for |
| `TransportProperties.DispositionIsScreened` | src/internal/transport.ts:334-421 | the value or problem that a response turns into was decoded from the bytes of its own body, read to the end, without a prohibited string or key at any path |
| `TransportProperties.NothingUnscreenedEscapes` | src/internal/transport.ts:531-606 | what a run hands out was decoded in that way from the response of its deciding round |
| `TransportProperties.DispositionIgnoresChunking` | src/internal/transport.ts:293-427 | how a body is cut into chunks does not show in what its response turns into |
| `Lifecycle.StepIsSafe` | src/client.ts:133-178 | begin, finish and close keep the log legal, `active` equal to the calls in flight, and a closing client's `active` positive |
| `Lifecycle.BeginAdmits` | src/client.ts:133-147 | a begin of an open client with a transport there or constructible counts the call, gives it the one transport, keeps the others, and ends the log with its execution on that transport |
| `Lifecycle.BeginRefuses` | src/client.ts:137-151 | any other begin changes nothing but the log |
| `Lifecycle.FinishReleases` | src/client.ts:148-151 | in every phase a finish takes the call, and no other, out of those counted, and logs it |
| `Lifecycle.StepsTellTheState` | src/client.ts:121-179 | over every run, from the steps alone: the calls counted are those begun before close with a transport there or constructible and not finished since, all on the one transport; the client is open until close is asked for, and closed iff it has been and no such call is left; while open it has a transport iff some begin could make one |
| `Lifecycle.EveryRunIsLegal` | src/client.ts:121-179 | every interleaving of steps leaves a log that obeys the protocol and fields that agree with it |
| `Lifecycle.ObservationsAreTrue` | src/client.ts:121-179 | what the protocol's monitor has noted about the transport, the close and its resolution is what the log contains |
| `Lifecycle.InFlightMeansUnfinished` | src/client.ts:133-151 | the monitor has a call in flight iff the log admits it and does not finish it afterwards |
| `Lifecycle.LegalMeansPreceded` | src/client.ts:121-178 | in a legal log: a call executes only on a transport created before and before close is asked for; a transport is closed only after close was asked for; close resolves only when every created transport has been closed; neither happens with a call unfinished |
| `Lifecycle.LegalMeansSafe` | src/client.ts:137-178 | in a legal log: one transport at most, closed at most once and never used afterwards; no call admitted after close; one resolution, and nothing closed after it |
| `Lifecycle.DrainsExactly` | src/client.ts:148-178 | a closing client becomes closed with exactly the last of its active calls to finish, whatever else is tried |
| `Lifecycle.ResourcesBalance` | src/internal/test-seams.ts:67-91 | over any run of any number of clients the reported deltas sum to the default transports held, and to zero once all have drained |
| `ClientContexts.ClientTransport.Close` | src/internal/test-seams.ts:81-89 | only the first close of a default transport reports its delta |
| `ClientContexts.ClientContext.BeginInvoke` | src/client.ts:133-147 | refuses unless open, otherwise hands out the one transport, as the model's begin does; a call is counted, and adds one to `active`, iff it was handed the transport |
| `ClientContexts.ClientContext.EndInvoke` | src/client.ts:148-151 | does what the model's finish does: the call is no longer counted and `active` is one less; and keeps the meter in step |
| `ClientContexts.ClientContext.Close` | src/client.ts:154-162 | does what the model's close does and returns the one promise |
| `ClientContexts.ClientContext.FinishClose` | src/client.ts:164-178 | closes the transport and resolves the promise once, exactly when a closing client has nothing active |
| `ClientContexts.Process.NewContext` | src/client.ts:121-131 | a new client joins the others on the shared meter without changing its balance, and all stay in order |
| `ClientContexts.Process.BeginInvoke` | src/client.ts:133-147 | a begin of one of many clients keeps every client in order and the shared balance equal to what they hold together |
| `ClientContexts.Process.EndInvoke` | src/client.ts:148-151 | a finish of one of many clients keeps every client in order and the shared balance equal to what they hold together |
| `ClientContexts.Process.Close` | src/client.ts:154-178 | a close of one of many clients keeps every client in order and the shared balance equal to what they hold together |
| `ClientContexts.Process.MeterShowsWhatIsHeld` | src/internal/test-seams.ts:67-91 | the balance on the shared meter is the sum of what the clients hold and of all deltas reported, and zero once every client has closed |
| `Base64.AlphabetIsTable1` | src/domain.ts:581 | the arithmetic on character codes gives the 64 characters of table 1 in order |
| `Base64.DecodeEncode` | src/domain.ts:582-584 | decoding undoes encoding for all bytes |
| `Base64.Section10` | src/domain.ts:584 | the encodings of "", "f", "fo", "foo" and "foobar" are those of section 10 of RFC 4648 |
| `Base64.CanonicalIsImage` | src/domain.ts:580-584 | the texts that pass the shape and the re-encode check are exactly the encodings |
| `Base64.CanonicalIffZeroPadBits` | src/domain.ts:580-584 | a text of the right shape passes the re-encode check iff its unused pad bits are zero |
| `Base64.FullGroupKeepsTheNumber` | src/domain.ts:584 | four characters spell the 24-bit big-endian number of their three bytes |
| `Base64.ShortGroupsKeepTheNumber` | src/domain.ts:584 | a short group spells the number of its bytes followed by zero bits |
| `Base64.ChunkRoundTrip` | src/domain.ts:569-593 | a chunk is accepted as some content iff it was written from that content's bytes, protocol and minimum reader, within the limits, and the content's digest and length are those of its bytes |
| `Base64.WrittenChunkIsRead` | src/domain.ts:569-593 | any bytes within the limits, written under an admissible protocol and minimum reader, come out as exactly that content |
| `Base64.AcceptedTextFitsTheWire` | src/internal/contract/generated/wire-types.ts:1523 | accepted texts are at most 11184812 characters |
| `Base64.LargestChunkIsAccepted` | src/internal/contract/generated/wire-types.ts:1523 | any 8388608 bytes, as a sender writes them, are accepted at exactly that length |
| `ReleaseEnvelope.Validate` | scripts/release-manifest-envelope.mjs:9-41 | the loop accepts iff no object has a surplus key, the header matches and every entry has its place, its sequence number and its predecessor's digest |
| `ReleaseEnvelope.DigestsAreHex` | scripts/release-manifest-envelope.mjs:35-37 | receipts are digests of 64 digits from `0123456789abcdef`, and nothing else |
| `ReleaseEnvelope.ValidIffAppended` | scripts/release-manifest-envelope.mjs:9-81 | the envelopes that validate are exactly those that some sequence of appends stores, starting without a file |
| `ReleaseEnvelope.EnvelopeFile.Append` | scripts/release-manifest-envelope.mjs:43-81 | succeeds iff the history is valid and the state is the next one, stores exactly the longer envelope, whose last entry has the state and receipts that were given and whose others are the old ones, and leaves the file alone otherwise |
| `ReleaseEnvelope.AppendIsValidIff` | scripts/release-manifest-envelope.mjs:68-78 | a chained history stays valid under exactly the next state with well-formed receipts |
| `ReleaseEnvelope.StoredIsValid` | scripts/release-manifest-envelope.mjs:43-81 | after any sequence of appends what is stored is valid and lists a prefix of the order |
| `ReleaseEnvelope.HistoryOnlyGrows` | scripts/release-manifest-envelope.mjs:69-79 | later appends never change or drop an entry |
| `ReleaseEnvelope.PrefixIsValid` | scripts/release-manifest-envelope.mjs:19-39 | every non-empty prefix of a valid envelope is valid |
| `ReleaseEnvelope.SharedEntryMeansSharedPast` | scripts/release-manifest-envelope.mjs:24-38 | two chained histories that share an entry agree on everything up to it |
| `ReleaseEnvelope.LastEntryDeterminesHistory` | scripts/release-manifest-envelope.mjs:9-41 | valid envelopes are equal iff their last entries are |
| `ReleaseEnvelope.ReleaseOrder` | scripts/release-manifest-envelope.mjs:26-32 | for the four release states an append is admitted iff it is the next of the four |
| `ReleaseEnvelope.WholeRelease` | scripts/release-manifest-envelope.mjs:26-79 | after n appends in the order `authority-admitted`, `provenance-attested`, `uploaded-unverified`, `registry-verified` the file lists the first n of them, numbered from 1, each with its own receipts |
| `WorkspaceBindings.JoinSplit` | src/workspace-bindings.ts:86 | joining the parts of a text gives it back |
| `WorkspaceBindings.SplitJoin` | src/workspace-bindings.ts:86 | splitting gives back any slash-free parts that were joined |
| `WorkspaceBindings.SplitIsSlashFree` | src/workspace-bindings.ts:86 | no part holds a slash |
| `WorkspaceBindings.StraightDownIff` | src/workspace-bindings.ts:86 | components lead straight down from a root iff none is empty, `.` or `..` |
| `WorkspaceBindings.Separators` | src/workspace-bindings.ts:82-90 | the code units that separate and name components are `/`, `\`, `.` and `:` |
| `WorkspaceBindings.DotsStayAndReturn` | src/workspace-bindings.ts:86 | a component leads one level down, `.` stays there, and `..` leads back up |
| `WorkspaceBindings.CanonicalIffStraightDown` | src/workspace-bindings.ts:82-91 | a prefix is accepted, unchanged, iff it is plain text whose components lead straight down from every root |
| `WorkspaceBindings.AcceptedPrefixDescends` | src/workspace-bindings.ts:82-91 | resolving an accepted prefix goes one level deeper per component, never leaving the root, and the prefix is its own normal form |
| `WorkspaceBindings.DistinctPrefixesDistinctLocations` | src/workspace-bindings.ts:148-151 | accepted prefixes name one location only if they are one text |
| `WorkspaceBindings.AcceptedListIff` | src/workspace-bindings.ts:145-151 | a list is accepted iff it is short enough, canonical throughout, and no two prefixes resolve to one location |

## Left out

- `decodeEscapes` is a parameter; what the regular expressions and percent decoding do, and what a context does to the decoding of a text, is not modelled. Of `toLowerCase` only the shape is, not the data.
- `fetch`, streams, abort controllers and timers are outcomes and flags in a script; a response body is a finite sequence of settled races, so a body that never ends is not modelled, nor is the best-effort cancellation of a reader or body.
- `prepare`, request bodies, headers and URLs: single checks before the first await.
- The field decoders, `parse` and the operation table are parameters (`Codec`, `Descriptor`); only the 33 operation keys, their HTTP methods and the set of reads are spelled out.
- SHA-256 and JSON canonicalization are one digest parameter; results about histories assume no collision among the entries involved.
- Envelope objects in which a key is missing or a value has another JSON type; the validator refuses them by the checks on the values.
- Re-entrant sinks: one that aborts the caller's signal from inside an event changes the flag within a turn. From inside `operation.end` that lets a call fulfil with the flag up (`src/internal/transport.ts:591-593`).
- A tracer is taken to start a fresh span for every operation.
- The private transport factory, transports whose `close` throws, and hooks of the resource observer that call back into the client.
- Configuration, error classes beyond their kind, status and code, redaction, freezing, generated tables and the other release scripts.
