/**
The hash chain of release states: every entry names the digest of its predecessor, and
states follow a fixed order. The digest of an entry's canonical form is a parameter.
 */
module ReleaseEnvelope {
  import opened Prelude

  /** A parsed entry; `surplus` holds the keys it has besides its four. */
  datatype StateEntry = StateEntry(
    sequence: int,
    state: string,
    previous: Option<string>,
    receipts: map<string, string>,
    surplus: set<string>)

  datatype Envelope = Envelope(
    schema: int,
    coreSha256: string,
    candidateSha256: string,
    states: seq<StateEntry>,
    surplus: set<string>)

  type Digest = StateEntry -> string

  const ORDER: seq<string> := [
    "authority-admitted", "provenance-attested", "uploaded-unverified", "registry-verified"
  ]

  predicate IsHex(c: char) {
    '0' <= c <= '9' || 'a' <= c <= 'f'
  }

  predicate IsSha256(s: string) {
    |s| == 64 && forall i | 0 <= i < 64 :: IsHex(s[i])
  }

  predicate ReceiptsAreDigests(receipts: map<string, string>) {
    forall name | name in receipts :: IsSha256(receipts[name])
  }

  /** The digits of the digests that are accepted. */
  lemma HexDigits(c: char)
    ensures IsHex(c) <==> c in "0123456789abcdef"
  {
  }

  /** 64 such digits, and nothing else. */
  lemma DigestsAreHex(s: string)
    ensures IsSha256(s) <==> |s| == 64 && forall c | c in s :: c in "0123456789abcdef"
  {
    forall c
      ensures IsHex(c) <==> c in "0123456789abcdef"
    {
      HexDigits(c);
    }
    if IsSha256(s) {
      assert forall c | c in s :: IsHex(c);
    } else if |s| == 64 {
      var i :| 0 <= i < 64 && !IsHex(s[i]);
      assert s[i] in s;
    }
  }

  // ----- what a valid envelope is

  /** Entry i has its own keys and no others, has its place in the order and names the digest of the entry before it. */
  predicate Fits(digest: Digest, order: seq<string>, states: seq<StateEntry>, i: nat)
    requires i < |states|
  {
    var entry := states[i];
    && entry.surplus == {} && i < |order| && entry.state == order[i] && entry.sequence == i + 1
    && entry.previous == (if i == 0 then None else Some(digest(states[i - 1])))
    && ReceiptsAreDigests(entry.receipts)
  }

  predicate Chained(digest: Digest, order: seq<string>, states: seq<StateEntry>) {
    forall i | 0 <= i < |states| :: Fits(digest, order, states, i)
  }

  predicate Valid(digest: Digest, order: seq<string>, envelope: Envelope, core: string, candidate: string) {
    && envelope.surplus == {}
    && envelope.schema == 1 && envelope.candidateSha256 == candidate && envelope.coreSha256 == core
    && envelope.states != [] && Chained(digest, order, envelope.states)
  }

  /** `validateReleaseManifestEnvelope`: one pass that threads the previous digest. */
  method Validate(digest: Digest, order: seq<string>, envelope: Envelope, core: string, candidate: string)
    returns (ok: bool)
    ensures ok <==> Valid(digest, order, envelope, core, candidate)
  {
    if envelope.surplus != {} { return false; }
    if envelope.schema != 1 || envelope.candidateSha256 != candidate || envelope.coreSha256 != core { return false; }
    if |envelope.states| == 0 { return false; }
    var previous: Option<string> := None;
    for index := 0 to |envelope.states|
      invariant previous == if index == 0 then None else Some(digest(envelope.states[index - 1]))
      invariant forall i | 0 <= i < index :: Fits(digest, order, envelope.states, i)
    {
      var entry := envelope.states[index];
      if entry.surplus != {} || entry.sequence != index + 1 || entry.previous != previous || entry.state !in order
         || index >= |order| || entry.state != order[index] || !ReceiptsAreDigests(entry.receipts)
      {
        assert !Fits(digest, order, envelope.states, index);
        return false;
      }
      previous := Some(digest(entry));
    }
    return true;
  }

  // ----- appending

  datatype AppendError = InvalidEnvelope | StateExists | InvalidAppend

  function NextEntry(digest: Digest, states: seq<StateEntry>, state: string, receipts: map<string, string>): StateEntry
  {
    StateEntry(|states| + 1, state, if states == [] then None else Some(digest(states[|states| - 1])), receipts, {})
  }

  function Appended(digest: Digest, envelope: Envelope, state: string, receipts: map<string, string>): Envelope {
    envelope.(states := envelope.states + [NextEntry(digest, envelope.states, state, receipts)])
  }

  /** The envelope that an append starts from: the stored one, or an empty one when there is no file. */
  function Current(stored: Option<Envelope>, core: string, candidate: string): Envelope {
    if stored.Some? then stored.value else Envelope(1, core, candidate, [], {})
  }

  /** The next state of the order, not used before, with well-formed receipts, after a history that is itself valid. */
  predicate MayAppend(digest: Digest, order: seq<string>, stored: Option<Envelope>, core: string, candidate: string,
                      state: string, receipts: map<string, string>)
  {
    var states := Current(stored, core, candidate).states;
    && (stored.Some? ==> Valid(digest, order, stored.value, core, candidate))
    && |states| < |order| && state == order[|states|]
    && (forall entry | entry in states :: entry.state != state)
    && ReceiptsAreDigests(receipts)
  }

  class EnvelopeFile {
    var stored: Option<Envelope>

    constructor ()
      ensures stored == None
    {
      stored := None;
    }

    /** `appendReleaseManifestState`: the file changes only when the longer envelope validates. */
    method Append(digest: Digest, order: seq<string>, core: string, candidate: string,
                  state: string, receipts: map<string, string>)
      returns (result: Result<Envelope, AppendError>)
      modifies this
      ensures result.Ok? <==> MayAppend(digest, order, old(stored), core, candidate, state, receipts)
      ensures result.Ok? ==>
                && result.value == Appended(digest, Current(old(stored), core, candidate), state, receipts)
                && stored == Some(result.value)
                && Valid(digest, order, result.value, core, candidate)
      ensures result.Ok? ==>
                var states := result.value.states;
                && |states| >= 1 && states[|states| - 1].state == state && states[|states| - 1].receipts == receipts
                && states[..|states| - 1] == if old(stored).Some? then old(stored).value.states else []
      ensures result.Err? ==> stored == old(stored)
    {
      var envelope := Current(stored, core, candidate);
      if stored.Some? {
        var ok := Validate(digest, order, envelope, core, candidate);
        if !ok { return Err(InvalidEnvelope); }
      }
      if exists entry | entry in envelope.states :: entry.state == state { return Err(StateExists); }
      var longer := Appended(digest, envelope, state, receipts);
      AppendIsValidIff(digest, order, envelope, core, candidate, state, receipts);
      var ok := Validate(digest, order, longer, core, candidate);
      if !ok { return Err(InvalidAppend); }
      stored := Some(longer);
      return Ok(longer);
    }
  }

  /** A chained history stays chained under exactly the next state with well-formed receipts. */
  lemma AppendIsValidIff(digest: Digest, order: seq<string>, envelope: Envelope, core: string, candidate: string,
                         state: string, receipts: map<string, string>)
    requires envelope.surplus == {} && envelope.schema == 1
    requires envelope.candidateSha256 == candidate && envelope.coreSha256 == core
    requires Chained(digest, order, envelope.states)
    ensures Valid(digest, order, Appended(digest, envelope, state, receipts), core, candidate)
       <==> |envelope.states| < |order| && state == order[|envelope.states|] && ReceiptsAreDigests(receipts)
  {
    var n := |envelope.states|;
    var states := Appended(digest, envelope, state, receipts).states;
    forall i | 0 <= i < n
      ensures Fits(digest, order, states, i)
    {
      assert Fits(digest, order, envelope.states, i);
    }
    assert Fits(digest, order, states, n) <==> n < |order| && state == order[n] && ReceiptsAreDigests(receipts);
  }

  // ----- runs of appends

  datatype Request = Request(state: string, receipts: map<string, string>)

  function Stored(digest: Digest, order: seq<string>, core: string, candidate: string, requests: seq<Request>)
    : Option<Envelope>
  {
    if requests == [] then None
    else
      var before := Stored(digest, order, core, candidate, requests[..|requests| - 1]);
      var Request(state, receipts) := requests[|requests| - 1];
      if !MayAppend(digest, order, before, core, candidate, state, receipts) then before
      else Some(Appended(digest, Current(before, core, candidate), state, receipts))
  }

  /** Whatever is asked for in whatever order, what is stored is valid and so lists a prefix of the order. */
  lemma {:induction false} StoredIsValid(digest: Digest, order: seq<string>, core: string, candidate: string,
                                         requests: seq<Request>)
    ensures var stored := Stored(digest, order, core, candidate, requests);
            stored.Some? ==>
              && Valid(digest, order, stored.value, core, candidate)
              && |stored.value.states| <= |order|
              && forall i | 0 <= i < |stored.value.states| :: stored.value.states[i].state == order[i]
  {
    if requests != [] {
      var earlier := requests[..|requests| - 1];
      StoredIsValid(digest, order, core, candidate, earlier);
      var current := Current(Stored(digest, order, core, candidate, earlier), core, candidate);
      var Request(state, receipts) := requests[|requests| - 1];
      AppendIsValidIff(digest, order, current, core, candidate, state, receipts);
    }
    var stored := Stored(digest, order, core, candidate, requests);
    if stored.Some? {
      var states := stored.value.states;
      forall i | 0 <= i < |states|
        ensures i < |order| && states[i].state == order[i]
      {
        assert Fits(digest, order, states, i);
      }
      assert Fits(digest, order, states, |states| - 1);
    }
  }

  /** History is append-only: later requests never change or drop an entry. */
  lemma {:induction false} HistoryOnlyGrows(digest: Digest, order: seq<string>, core: string, candidate: string,
                                           requests: seq<Request>, n: nat)
    requires n <= |requests|
    ensures Current(Stored(digest, order, core, candidate, requests[..n]), core, candidate).states
         <= Current(Stored(digest, order, core, candidate, requests), core, candidate).states
    decreases |requests|
  {
    if n == |requests| {
      assert requests[..n] == requests;
    } else {
      HistoryOnlyGrows(digest, order, core, candidate, requests[..|requests| - 1], n);
      assert requests[..|requests| - 1][..n] == requests[..n];
    }
  }

  // ----- integrity of the chain

  lemma ChainedPrefix(digest: Digest, order: seq<string>, states: seq<StateEntry>, n: nat)
    requires Chained(digest, order, states) && n <= |states|
    ensures Chained(digest, order, states[..n])
  {
    forall i | 0 <= i < n
      ensures Fits(digest, order, states[..n], i)
    {
      assert Fits(digest, order, states, i);
    }
  }

  /** Every non-empty prefix of a valid envelope is valid. */
  lemma PrefixIsValid(digest: Digest, order: seq<string>, envelope: Envelope, core: string, candidate: string, n: nat)
    requires Valid(digest, order, envelope, core, candidate)
    requires 1 <= n <= |envelope.states|
    ensures Valid(digest, order, envelope.(states := envelope.states[..n]), core, candidate)
  {
    ChainedPrefix(digest, order, envelope.states, n);
  }

  /** No entry of one history has the digest of a different entry of the other. */
  ghost predicate CollisionFree(digest: Digest, s: seq<StateEntry>, t: seq<StateEntry>) {
    forall a, b | a in s && b in t :: digest(a) == digest(b) ==> a == b
  }

  /**
  Two chained histories that share an entry agree on everything up to it: an entry pins
  down its own position and, through the digests, all of its past.
   */
  lemma {:induction false} SharedEntryMeansSharedPast(digest: Digest, order: seq<string>,
                                                      s: seq<StateEntry>, t: seq<StateEntry>, i: nat, j: nat)
    requires Chained(digest, order, s) && Chained(digest, order, t) && CollisionFree(digest, s, t)
    requires i < |s| && j < |t| && s[i] == t[j]
    ensures i == j && s[..i + 1] == t[..j + 1]
    decreases i
  {
    assert Fits(digest, order, s, i) && Fits(digest, order, t, j);
    assert i == j;
    if i > 0 {
      assert digest(s[i - 1]) == digest(t[j - 1]);
      assert s[i - 1] in s && t[j - 1] in t;
      SharedEntryMeansSharedPast(digest, order, s, t, i - 1, j - 1);
      assert s[..i + 1] == s[..i] + [s[i]] && t[..j + 1] == t[..j] + [t[j]];
    } else {
      assert s[..1] == [s[0]] && t[..1] == [t[0]];
    }
  }

  /**
  So valid envelopes with equal last entries have identical histories, and a change
  anywhere shows in the last entry.
   */
  lemma LastEntryDeterminesHistory(digest: Digest, order: seq<string>, e: Envelope, f: Envelope,
                                   core: string, candidate: string)
    requires Valid(digest, order, e, core, candidate) && Valid(digest, order, f, core, candidate)
    requires CollisionFree(digest, e.states, f.states)
    ensures e.states[|e.states| - 1] == f.states[|f.states| - 1] <==> e == f
  {
    if e.states[|e.states| - 1] == f.states[|f.states| - 1] {
      SharedEntryMeansSharedPast(digest, order, e.states, f.states, |e.states| - 1, |f.states| - 1);
      assert e.states[..|e.states|] == e.states && f.states[..|f.states|] == f.states;
    }
  }

  /**
  For the four release states: a fresh file takes them in this order and no other, and
  takes nothing after the last.
   */
  lemma ReleaseOrder(digest: Digest, stored: Option<Envelope>, core: string, candidate: string,
                     state: string, receipts: map<string, string>)
    requires stored.Some? ==> Valid(digest, ORDER, stored.value, core, candidate)
    requires ReceiptsAreDigests(receipts)
    ensures var n := |Current(stored, core, candidate).states|;
            && n <= 4
            && (MayAppend(digest, ORDER, stored, core, candidate, state, receipts) <==> n < 4 && state == ORDER[n])
  {
    var states := Current(stored, core, candidate).states;
    forall i | 0 <= i < |states|
      ensures i < 4 && states[i].state == ORDER[i]
    {
      assert Fits(digest, ORDER, states, i);
    }
    if states != [] {
      assert Fits(digest, ORDER, states, |states| - 1);
    }
    OrderIsDistinct();
  }

  /** The four appends of a release, by the names of the states. */
  function ReleaseRequests(receipts: seq<map<string, string>>): seq<Request>
    requires |receipts| == 4
  {
    [
      Request("authority-admitted", receipts[0]), Request("provenance-attested", receipts[1]),
      Request("uploaded-unverified", receipts[2]), Request("registry-verified", receipts[3])
    ]
  }

  lemma OneMoreState(digest: Digest, core: string, candidate: string, requests: seq<Request>, request: Request)
    requires var n := |Current(Stored(digest, ORDER, core, candidate, requests), core, candidate).states|;
             n < 4 && request.state == ORDER[n] && ReceiptsAreDigests(request.receipts)
    ensures var before := Current(Stored(digest, ORDER, core, candidate, requests), core, candidate);
            Stored(digest, ORDER, core, candidate, requests + [request])
            == Some(Appended(digest, before, request.state, request.receipts))
  {
    StoredIsValid(digest, ORDER, core, candidate, requests);
    ReleaseOrder(digest, Stored(digest, ORDER, core, candidate, requests), core, candidate,
                 request.state, request.receipts);
    assert (requests + [request])[..|requests|] == requests;
  }

  /** Requests in the order of the states, with well-formed receipts. */
  predicate InOrder(requests: seq<Request>) {
    && |requests| <= |ORDER|
    && forall i | 0 <= i < |requests| :: requests[i].state == ORDER[i] && ReceiptsAreDigests(requests[i].receipts)
  }

  /** The entries are as many as the requests, and each has the receipts of its own. */
  predicate HasReceiptsOf(states: seq<StateEntry>, requests: seq<Request>) {
    |states| == |requests| && forall i | 0 <= i < |states| :: states[i].receipts == requests[i].receipts
  }

  lemma {:induction false} EachAddsAnEntry(digest: Digest, core: string, candidate: string, requests: seq<Request>)
    requires InOrder(requests)
    ensures HasReceiptsOf(Current(Stored(digest, ORDER, core, candidate, requests), core, candidate).states, requests)
  {
    if requests != [] {
      var front, last := requests[..|requests| - 1], requests[|requests| - 1];
      EachAddsAnEntry(digest, core, candidate, front);
      OneMoreState(digest, core, candidate, front, last);
      assert requests == front + [last];
    }
  }

  lemma ReleaseIsInOrder(receipts: seq<map<string, string>>)
    requires |receipts| == 4 && forall i | 0 <= i < 4 :: ReceiptsAreDigests(receipts[i])
    ensures InOrder(ReleaseRequests(receipts))
    ensures forall i | 0 <= i < 4 :: ReleaseRequests(receipts)[i].receipts == receipts[i]
  {
  }

  /** After n appends in order the file lists the first n states, numbered, each with its own receipts. */
  lemma WholeRelease(digest: Digest, core: string, candidate: string, receipts: seq<map<string, string>>, n: nat)
    requires |receipts| == 4 && n <= 4 && forall i | 0 <= i < 4 :: ReceiptsAreDigests(receipts[i])
    ensures var requests := ReleaseRequests(receipts);
            var states := Current(Stored(digest, ORDER, core, candidate, requests[..n]), core, candidate).states;
            && |states| == n
            && forall i | 0 <= i < n ::
                 && states[i].state == requests[i].state && states[i].receipts == receipts[i]
                 && states[i].sequence == i + 1
  {
    var requests := ReleaseRequests(receipts);
    ReleaseIsInOrder(receipts);
    EachAddsAnEntry(digest, core, candidate, requests[..n]);
    StoredIsValid(digest, ORDER, core, candidate, requests[..n]);
    var states := Current(Stored(digest, ORDER, core, candidate, requests[..n]), core, candidate).states;
    forall i | 0 <= i < n
      ensures states[i].state == requests[i].state && states[i].sequence == i + 1
    {
      assert Fits(digest, ORDER, states, i);
    }
  }

  /** The appends that would make these entries. */
  function RequestsFor(states: seq<StateEntry>): seq<Request> {
    if states == [] then []
    else
      var last := states[|states| - 1];
      RequestsFor(states[..|states| - 1]) + [Request(last.state, last.receipts)]
  }

  /** The last entry of a chained history is what an append of its state and receipts adds. */
  lemma LastEntryIsAppended(digest: Digest, core: string, candidate: string, states: seq<StateEntry>)
    requires Chained(digest, ORDER, states) && states != []
    ensures var n := |states| - 1;
            && n < 4 && states[n].state == ORDER[n] && ReceiptsAreDigests(states[n].receipts)
            && Appended(digest, Envelope(1, core, candidate, states[..n], {}), states[n].state, states[n].receipts)
               == Envelope(1, core, candidate, states, {})
  {
    var n := |states| - 1;
    assert Fits(digest, ORDER, states, n);
    assert states == states[..n] + [states[n]];
  }

  lemma {:induction false} ReplayGivesTheEnvelope(digest: Digest, core: string, candidate: string,
                                                  states: seq<StateEntry>)
    requires Chained(digest, ORDER, states)
    ensures var stored := Stored(digest, ORDER, core, candidate, RequestsFor(states));
            && Current(stored, core, candidate) == Envelope(1, core, candidate, states, {})
            && (stored.Some? <==> states != [])
  {
    if states != [] {
      var n := |states| - 1;
      ChainedPrefix(digest, ORDER, states, n);
      ReplayGivesTheEnvelope(digest, core, candidate, states[..n]);
      LastEntryIsAppended(digest, core, candidate, states);
      OneMoreState(digest, core, candidate, RequestsFor(states[..n]), Request(states[n].state, states[n].receipts));
    }
  }

  /** The valid envelopes are exactly those that appends can store, starting without a file. */
  lemma ValidIffAppended(digest: Digest, envelope: Envelope, core: string, candidate: string)
    ensures Valid(digest, ORDER, envelope, core, candidate)
       <==> exists requests :: Stored(digest, ORDER, core, candidate, requests) == Some(envelope)
  {
    if Valid(digest, ORDER, envelope, core, candidate) {
      ReplayGivesTheEnvelope(digest, core, candidate, envelope.states);
      assert Stored(digest, ORDER, core, candidate, RequestsFor(envelope.states)) == Some(envelope);
    }
    forall requests | Stored(digest, ORDER, core, candidate, requests) == Some(envelope)
      ensures Valid(digest, ORDER, envelope, core, candidate)
    {
      StoredIsValid(digest, ORDER, core, candidate, requests);
    }
  }

  lemma OrderIsDistinct()
    ensures forall i, j | 0 <= i < j < 4 :: ORDER[i] != ORDER[j]
  {
    assert ORDER[0][0] == 'a' && ORDER[1][0] == 'p' && ORDER[2][0] == 'u' && ORDER[3][0] == 'r';
  }
}
