/**
The rejection sampler that turns uniform 32-bit draws into a uniform integer in 0..cap.
The same loop appears twice in the source: `uniformDelay` and `nextRandomInt`.
 */
module Sampler {
  import opened Prelude
  import opened Words

  /** An endless stream of raw draws. */
  type Draws = nat -> Uint32

  /** `Math.floor(2^32 / limit) * limit`. */
  function Largest(limit: nat): nat
    requires limit >= 1
  {
    TWO_32 / limit * limit
  }

  ghost predicate AcceptedAt(draws: Draws, limit: nat, position: nat)
    requires limit >= 1
  {
    draws(position) < Largest(limit)
  }

  ghost predicate AllRejected(draws: Draws, limit: nat, before: nat)
    requires limit >= 1
  {
    forall i :: 0 <= i < before ==> !AcceptedAt(draws, limit, i)
  }

  /** Position of the first accepted draw, among draws known to contain one. */
  ghost function FirstAccepted(draws: Draws, limit: nat, from: nat, hit: nat): (position: nat)
    requires limit >= 1
    requires from <= hit && AcceptedAt(draws, limit, hit)
    ensures from <= position <= hit && AcceptedAt(draws, limit, position)
    ensures forall i :: from <= i < position ==> !AcceptedAt(draws, limit, i)
    decreases hit - from
  {
    if AcceptedAt(draws, limit, from) then from else FirstAccepted(draws, limit, from + 1, hit)
  }

  /** The stream holds a draw that the sampler accepts. */
  ghost predicate Fair(draws: Draws, limit: nat)
    requires limit >= 1
  {
    exists hit: nat :: AcceptedAt(draws, limit, hit)
  }

  /** What the sampler makes of a stream: the residue of the first accepted draw. */
  ghost function Sample(draws: Draws, cap: nat): (delay: nat)
    requires Fair(draws, cap + 1)
    ensures delay <= cap
  {
    var hit: nat :| AcceptedAt(draws, cap + 1, hit);
    draws(FirstAccepted(draws, cap + 1, 0, hit)) % (cap + 1)
  }

  lemma SampleIsTheFirstAcceptedResidue(draws: Draws, cap: nat, position: nat)
    requires AcceptedAt(draws, cap + 1, position)
    requires AllRejected(draws, cap + 1, position)
    ensures Sample(draws, cap) == draws(position) % (cap + 1)
  {
  }

  lemma RejectedSoFar(draws: Draws, limit: nat, before: nat)
    requires limit >= 1 && AllRejected(draws, limit, before)
    ensures forall i | 0 <= i < before :: draws(i) in RejectedDraws(limit)
  {
    forall i | 0 <= i < before
      ensures draws(i) in RejectedDraws(limit)
    {
      assert !AcceptedAt(draws, limit, i) && Within(draws(i), 0, TWO_32);
    }
  }

  /** `uniformDelay`: ends at the first draw below `largest` on every stream that has one. */
  method UniformDelay(cap: nat, draws: Draws) returns (delay: nat, used: nat)
    requires Fair(draws, cap + 1)
    ensures used >= 1 && AcceptedAt(draws, cap + 1, used - 1)
    ensures AllRejected(draws, cap + 1, used - 1)
    ensures delay == draws(used - 1) % (cap + 1) == Sample(draws, cap)
    ensures draws(used - 1) in AcceptedDraws(cap + 1, delay)
    ensures forall i | 0 <= i < used - 1 :: draws(i) in RejectedDraws(cap + 1)
  {
    var limit := cap + 1;
    var largest := TWO_32 / limit * limit;
    ghost var hit: nat :| AcceptedAt(draws, limit, hit);
    used := 0;
    while true
      invariant used <= hit
      invariant AllRejected(draws, limit, used)
      decreases hit - used
    {
      var raw := draws(used);
      used := used + 1;
      if raw < largest {
        SampleIsTheFirstAcceptedResidue(draws, cap, used - 1);
        RejectedSoFar(draws, limit, used - 1);
        return raw % limit, used;
      }
    }
  }

  const MAX_SAFE_INTEGER := 0x1F_FFFF_FFFF_FFFF

  datatype RandomInt = InvalidBound | Drawn(value: nat) | StillDrawing

  /** From limits above 2^32 on, no draw is below `largest`. */
  lemma LargeLimitsRejectEverything(limit: nat, draws: Draws, before: nat)
    requires limit > TWO_32
    ensures Largest(limit) == 0 && AllRejected(draws, limit, before)
  {
  }

  /** `nextRandomInt`: the same loop behind a check of the bound, watched for a number of draws. */
  method NextRandomInt(upperBoundInclusive: int, draws: Draws, budget: nat) returns (result: RandomInt)
    ensures result.InvalidBound? <==> !(0 <= upperBoundInclusive <= MAX_SAFE_INTEGER)
    ensures result.StillDrawing?
       <==> 0 <= upperBoundInclusive <= MAX_SAFE_INTEGER && AllRejected(draws, upperBoundInclusive + 1, budget)
    ensures result.Drawn? ==>
      && 0 <= result.value <= upperBoundInclusive
      && Fair(draws, upperBoundInclusive + 1) && result.value == Sample(draws, upperBoundInclusive)
    ensures TWO_32 <= upperBoundInclusive <= MAX_SAFE_INTEGER ==> result == StillDrawing
  {
    if upperBoundInclusive > MAX_SAFE_INTEGER || upperBoundInclusive < 0 { return InvalidBound; }
    var limit := upperBoundInclusive + 1;
    var largest := Largest(limit);
    if limit > TWO_32 { LargeLimitsRejectEverything(limit, draws, budget); }
    for used := 0 to budget
      invariant AllRejected(draws, limit, used)
    {
      var raw := draws(used);
      if raw < largest {
        assert AcceptedAt(draws, limit, used);
        SampleIsTheFirstAcceptedResidue(draws, upperBoundInclusive, used);
        return Drawn(raw % limit);
      }
    }
    return StillDrawing;
  }

  // ----- exact uniformity

  /** The accepted raw draws that yield residue r, when q rounds of `limit` values are accepted. */
  ghost function Preimage(q: nat, limit: nat, r: nat): set<int>
    requires r < limit
  {
    set raw | 0 <= raw < q * limit && raw % limit == r
  }

  lemma {:induction false} PreimageSize(q: nat, limit: nat, r: nat)
    requires r < limit
    ensures |Preimage(q, limit, r)| == q
  {
    if q == 0 {
      assert Preimage(0, limit, r) == {};
    } else {
      PreimageSize(q - 1, limit, r);
      OneMoreRound(q - 1, limit, r);
    }
  }

  /** Another round of `limit` raw values adds one preimage of each residue. */
  lemma OneMoreRound(q: nat, limit: nat, r: nat)
    requires r < limit
    ensures q * limit + r !in Preimage(q, limit, r)
    ensures Preimage(q + 1, limit, r) == Preimage(q, limit, r) + {q * limit + r}
  {
    assert (q + 1) * limit == q * limit + limit;
    forall raw | q * limit <= raw < q * limit + limit
      ensures raw % limit == r <==> raw == q * limit + r
    {
      RemainderInBlock(raw, q, limit);
    }
  }

  lemma RemainderInBlock(raw: int, block: nat, limit: nat)
    requires block * limit <= raw < block * limit + limit
    ensures raw % limit == raw - block * limit
  {
    var quotient, rest := raw / limit, raw % limit;
    assert raw == quotient * limit + rest;
    assert quotient < block ==> (quotient + 1) * limit <= block * limit;
    assert quotient > block ==> (block + 1) * limit <= quotient * limit;
  }

  ghost function AcceptedDraws(limit: nat, r: nat): set<int>
    requires 1 <= limit && r < limit
  {
    set raw | 0 <= raw < TWO_32 && raw < Largest(limit) && raw % limit == r
  }

  ghost predicate Within(raw: int, lo: int, hi: int) {
    lo <= raw < hi
  }

  ghost function Interval(lo: int, hi: int): set<int> {
    set raw | lo <= raw < hi && Within(raw, lo, hi)
  }

  /** The raw draws that send the loop round again. */
  ghost function RejectedDraws(limit: nat): set<int>
    requires 1 <= limit
  {
    set raw | raw in Interval(0, TWO_32) && raw >= Largest(limit)
  }

  lemma LargestFits(limit: nat)
    requires limit >= 1
    ensures Largest(limit) <= TWO_32 < Largest(limit) + limit
  {
  }

  /**
  Of the 2^32 equally likely raw draws, every residue is produced by exactly
  floor(2^32 / limit), so accepted results are uniform.
   */
  lemma ResiduesAreUniform(limit: nat, r: nat)
    requires 1 <= limit <= TWO_32 && r < limit
    ensures |AcceptedDraws(limit, r)| == TWO_32 / limit >= 1
  {
    LargestFits(limit);
    PreimageSize(TWO_32 / limit, limit, r);
    assert AcceptedDraws(limit, r) == Preimage(TWO_32 / limit, limit, r);
    AtLeastOneRound(limit);
  }

  lemma AtLeastOneRound(limit: nat)
    requires 1 <= limit
    ensures TWO_32 / limit >= 1 <==> limit <= TWO_32
  {
    LargestFits(limit);
  }

  lemma {:induction false} IntervalSize(lo: int, hi: int)
    requires lo <= hi
    ensures |Interval(lo, hi)| == hi - lo
    decreases hi - lo
  {
    if lo < hi {
      IntervalSize(lo, hi - 1);
      assert Interval(lo, hi) == Interval(lo, hi - 1) + {hi - 1};
    } else {
      assert Interval(lo, hi) == {};
    }
  }

  /** Fewer raw draws are thrown away than there are results. */
  lemma FewDrawsAreRejected(limit: nat)
    requires 1 <= limit
    ensures |RejectedDraws(limit)| == TWO_32 - Largest(limit) < limit
  {
    LargestFits(limit);
    IntervalSize(Largest(limit), TWO_32);
    assert RejectedDraws(limit) == Interval(Largest(limit), TWO_32);
  }

  /** `nextRandomInt(bound)` comes to an end on this stream. */
  ghost predicate Finishes(bound: nat, draws: Draws) {
    Fair(draws, bound + 1)
  }

  /**
  `nextRandomInt` admits every safe integer as its bound, but some stream can end its loop
  exactly when the bound is below 2^32; from there on `largest` is 0 and every draw is rejected.
   */
  lemma SamplerCanFinish(bound: nat)
    ensures bound < TWO_32 <==> exists draws :: Finishes(bound, draws)
    ensures bound >= TWO_32 ==> Largest(bound + 1) == 0
  {
    AtLeastOneRound(bound + 1);
    if bound < TWO_32 {
      var zeros: Draws := _ => 0;
      assert AcceptedAt(zeros, bound + 1, 0);
      assert Finishes(bound, zeros);
    }
  }
}
