/** The bounded reader that assembles a streamed response body. */
module BodyReader {

  const MAX_RESPONSE_BYTES: nat := 16_777_216

  type Byte = b: int | 0 <= b < 256

  datatype ReadEvent =
    | Chunk(bytes: seq<Byte>)
    | NoValue        // an item without bytes
    | ReadFails
    | AbortWins      // the abort is what settles the race

  /** One settled race between the reader and the abort, and the signal's flag at that moment. */
  datatype Race = Race(event: ReadEvent, aborted: bool)

  datatype ReadResult = Bytes(bytes: seq<Byte>) | Cancelled | Malformed

  /** The bytes of all the chunks, in order. */
  function Joined(races: seq<Race>): seq<Byte> {
    if races == [] then []
    else
      var last := races[|races| - 1].event;
      Joined(races[..|races| - 1]) + (if last.Chunk? then last.bytes else [])
  }

  /** Race i ends the loop with an exception: it fails, is aborted, or takes the total over the bound. */
  predicate Stops(races: seq<Race>, i: nat)
    requires i < |races|
  {
    match races[i].event
    case Chunk(_) => |Joined(races[..i + 1])| > MAX_RESPONSE_BYTES
    case NoValue => false
    case ReadFails => true
    case AbortWins => true
  }

  function FirstStop(races: seq<Race>, from: nat): (i: nat)
    requires from <= |races|
    ensures from <= i <= |races|
    ensures i < |races| ==> Stops(races, i)
    ensures forall j :: from <= j < i ==> !Stops(races, j)
    decreases |races| - from
  {
    if from == |races| then |races|
    else if Stops(races, from) then from
    else FirstStop(races, from + 1)
  }

  /** What reading a body yields: everything, or the reason the first stop gives. */
  function ReadOutcome(races: seq<Race>, abortedAtStart: bool): ReadResult {
    if abortedAtStart then Cancelled
    else
      var stop := FirstStop(races, 0);
      if stop == |races| then Bytes(Joined(races))
      else if races[stop].aborted then Cancelled
      else Malformed
  }

  function Flat(chunks: seq<seq<Byte>>): seq<Byte> {
    if chunks == [] then [] else Flat(chunks[..|chunks| - 1]) + chunks[|chunks| - 1]
  }

  /** The read loop and its copy-out; `buffered` is the most bytes it ever holds on to. */
  method ReadLimited(races: seq<Race>, abortedAtStart: bool) returns (result: ReadResult, ghost buffered: nat)
    ensures result == ReadOutcome(races, abortedAtStart)
    ensures buffered <= MAX_RESPONSE_BYTES
  {
    buffered := 0;
    if abortedAtStart { return Cancelled, buffered; }
    var chunks: seq<seq<Byte>> := [];
    var total := 0;
    for i := 0 to |races|
      invariant Flat(chunks) == Joined(races[..i])
      invariant buffered == total == |Flat(chunks)| <= MAX_RESPONSE_BYTES
      invariant FirstStop(races, 0) == FirstStop(races, i)
    {
      assert races[..i + 1][..i] == races[..i];
      match races[i].event
      case Chunk(bytes) =>
        total := total + |bytes|;
        if total > MAX_RESPONSE_BYTES {
          result := if races[i].aborted then Cancelled else Malformed;
          return;
        }
        assert (chunks + [bytes])[..|chunks|] == chunks;
        chunks := chunks + [bytes];
        buffered := total;
      case NoValue =>
      case _ =>
        result := if races[i].aborted then Cancelled else Malformed;
        return;
    }
    assert races[..|races|] == races;
    var assembled := CopyOut(chunks, total);
    result := Bytes(assembled[..]);
  }

  /** Writes the chunks one after another into an array that they fill exactly. */
  method CopyOut(chunks: seq<seq<Byte>>, total: nat) returns (bytes: array<Byte>)
    requires total == |Flat(chunks)|
    ensures fresh(bytes) && bytes[..] == Flat(chunks)
  {
    bytes := new Byte[total];
    var offset := 0;
    for i := 0 to |chunks|
      invariant offset == |Flat(chunks[..i])| <= total
      invariant bytes[..offset] == Flat(chunks[..i])
    {
      PrefixesFit(chunks, i + 1);
      assert chunks[..i + 1][..i] == chunks[..i];
      var chunk := chunks[i];
      forall j | 0 <= j < |chunk| {
        bytes[offset + j] := chunk[j];
      }
      assert bytes[..offset + |chunk|] == Flat(chunks[..i]) + chunk;
      offset := offset + |chunk|;
    }
    assert chunks[..|chunks|] == chunks;
  }

  lemma {:induction false} PrefixesFit(chunks: seq<seq<Byte>>, n: nat)
    requires n <= |chunks|
    ensures |Flat(chunks[..n])| <= |Flat(chunks)|
    decreases |chunks|
  {
    if n == |chunks| {
      assert chunks[..n] == chunks;
    } else {
      PrefixesFit(chunks[..|chunks| - 1], n);
      assert chunks[..|chunks| - 1][..n] == chunks[..n];
    }
  }

  // ----- the way a body is cut into chunks does not matter

  /** Only chunks and empty items arrive, and no abort is ever seen. */
  predicate Quiet(races: seq<Race>) {
    forall i | 0 <= i < |races| :: (races[i].event.Chunk? || races[i].event.NoValue?) && !races[i].aborted
  }

  lemma {:induction false} JoinedGrows(races: seq<Race>, n: nat)
    requires n <= |races|
    ensures |Joined(races[..n])| <= |Joined(races)|
    decreases |races|
  {
    if n == |races| {
      assert races[..n] == races;
    } else {
      JoinedGrows(races[..|races| - 1], n);
      assert races[..|races| - 1][..n] == races[..n];
    }
  }

  lemma {:induction false} OverflowStops(races: seq<Race>)
    requires |Joined(races)| > MAX_RESPONSE_BYTES
    ensures exists i :: 0 <= i < |races| && Stops(races, i)
  {
    var last := |races| - 1;
    var front := races[..last];
    if races[last].event.Chunk? {
      assert races[..last + 1] == races;
      assert Stops(races, last);
    } else {
      OverflowStops(front);
      var i :| 0 <= i < |front| && Stops(front, i);
      assert front[..i + 1] == races[..i + 1];
      assert Stops(races, i);
    }
  }

  /** A quiet body is returned whole if it fits and is malformed otherwise, whatever the chunks. */
  lemma QuietBodiesAreJoined(races: seq<Race>)
    requires Quiet(races)
    ensures ReadOutcome(races, false)
         == if |Joined(races)| <= MAX_RESPONSE_BYTES then Bytes(Joined(races)) else Malformed
  {
    var stop := FirstStop(races, 0);
    if stop < |races| {
      JoinedGrows(races, stop + 1);
    } else if |Joined(races)| > MAX_RESPONSE_BYTES {
      OverflowStops(races);
    }
  }

  /** What is read in two stretches is read in order. */
  lemma {:induction false} JoinedConcat(earlier: seq<Race>, later: seq<Race>)
    ensures Joined(earlier + later) == Joined(earlier) + Joined(later)
    decreases |later|
  {
    if later == [] {
      assert earlier + later == earlier;
    } else {
      var n := |later| - 1;
      assert (earlier + later)[..|earlier| + n] == earlier + later[..n];
      JoinedConcat(earlier, later[..n]);
    }
  }

  lemma JoinedOne(bytes: seq<Byte>, aborted: bool)
    ensures Joined([Race(Chunk(bytes), aborted)]) == bytes
    ensures Joined([Race(NoValue, aborted)]) == []
  {
    assert [Race(Chunk(bytes), aborted)][..0] == [] && [Race(NoValue, aborted)][..0] == [];
  }

  /** Race i delivers the bytes between two positions as a chunk, and no abort is seen. */
  predicate SendsSlice(race: Race, bytes: seq<Byte>, from: nat, to: nat) {
    from <= to <= |bytes| && race == Race(Chunk(bytes[from..to]), false)
  }

  /** The bytes up to the last of the positions, sent slice by slice between one position and the next. */
  predicate Sends(races: seq<Race>, bytes: seq<Byte>, cuts: seq<nat>) {
    && |cuts| == |races| + 1 && cuts[0] == 0
    && forall i | 0 <= i < |races| :: SendsSlice(races[i], bytes, cuts[i], cuts[i + 1])
  }

  lemma OneMoreSlice(bytes: seq<Byte>, from: nat, to: nat)
    requires from <= to <= |bytes|
    ensures bytes[..from] + bytes[from..to] == bytes[..to]
  {
  }

  lemma {:induction false} SentSoFar(races: seq<Race>, bytes: seq<Byte>, cuts: seq<nat>)
    requires Sends(races, bytes, cuts)
    ensures cuts[|races|] <= |bytes| && Joined(races) == bytes[..cuts[|races|]]
  {
    if races != [] {
      var n := |races| - 1;
      assert SendsSlice(races[n], bytes, cuts[n], cuts[n + 1]);
      SentSoFar(races[..n], bytes, cuts[..n + 1]);
      OneMoreSlice(bytes, cuts[n], cuts[n + 1]);
    }
  }

  lemma SentQuietly(races: seq<Race>, bytes: seq<Byte>, cuts: seq<nat>)
    requires Sends(races, bytes, cuts)
    ensures Quiet(races)
  {
    forall i | 0 <= i < |races|
      ensures races[i].event.Chunk? && !races[i].aborted
    {
      assert SendsSlice(races[i], bytes, cuts[i], cuts[i + 1]);
    }
  }

  /** Bytes that are cut into consecutive slices in any way, and sent as chunks, are read back as they were. */
  lemma SlicesAreReadBack(races: seq<Race>, bytes: seq<Byte>, cuts: seq<nat>)
    requires Sends(races, bytes, cuts) && cuts[|races|] == |bytes|
    ensures ReadOutcome(races, false) == if |bytes| <= 16 * 1024 * 1024 then Bytes(bytes) else Malformed
  {
    SentSoFar(races, bytes, cuts);
    SentQuietly(races, bytes, cuts);
    QuietBodiesAreJoined(races);
    assert bytes[..|bytes|] == bytes;
  }

  lemma ChunkingDoesNotMatter(races: seq<Race>, others: seq<Race>)
    requires Quiet(races) && Quiet(others)
    requires Joined(races) == Joined(others)
    ensures ReadOutcome(races, false) == ReadOutcome(others, false)
  {
    QuietBodiesAreJoined(races);
    QuietBodiesAreJoined(others);
  }

  /** Flags only ever go up, and an abort settles a race only once the signal is aborted. */
  predicate Coherent(races: seq<Race>, abortedAtStart: bool) {
    && (forall i | 0 <= i < |races| :: (abortedAtStart || races[i].event.AbortWins?) ==> races[i].aborted)
    && (forall i, j | 0 <= i < j < |races| :: races[i].aborted ==> races[j].aborted)
  }

  predicate Delivers(event: ReadEvent) {
    event.Chunk? || event.NoValue?
  }

  /**
  Bytes come back iff nothing was aborted at the start, no race failed or was lost to an
  abort, and the whole body fits; then they are the whole body.
   */
  lemma WholeBodyIff(races: seq<Race>, abortedAtStart: bool)
    ensures ReadOutcome(races, abortedAtStart).Bytes?
       <==> && !abortedAtStart && |Joined(races)| <= MAX_RESPONSE_BYTES
            && forall i | 0 <= i < |races| :: Delivers(races[i].event)
    ensures ReadOutcome(races, abortedAtStart).Bytes? ==> ReadOutcome(races, abortedAtStart).bytes == Joined(races)
  {
    if |Joined(races)| > MAX_RESPONSE_BYTES {
      OverflowStops(races);
    } else {
      forall i | 0 <= i < |races|
        ensures Stops(races, i) <==> !Delivers(races[i].event)
      {
        JoinedGrows(races, i + 1);
      }
    }
  }

  /** A cancellation is only reported when an abort was seen, and is reported whenever the read that stops saw one. */
  lemma CancellationsAreHonest(races: seq<Race>, abortedAtStart: bool)
    requires Coherent(races, abortedAtStart)
    ensures var outcome := ReadOutcome(races, abortedAtStart);
            && (outcome.Cancelled? ==> abortedAtStart || exists i | 0 <= i < |races| :: races[i].aborted)
            && (outcome.Malformed? ==> !abortedAtStart && !races[FirstStop(races, 0)].aborted)
  {
  }
}
