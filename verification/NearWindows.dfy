/**
The shipped substring hashes tell windows apart that differ by little: by at most one in
any unit but the first, and there by less than 1024. The differences, weighted by powers of
257 = 256 + 1, would have to vanish modulo 2^32; byte by byte this makes four moments of
them vanish, which no such differences but zeros do.
 */
module NearWindows {
  import opened BoundaryPolicy
  import opened Horner
  import opened Words

  predicate Small(e: int) {
    e == -1 || e == 0 || e == 1
  }

  /** The difference in a first unit. */
  predicate Moderate(d: int) {
    -1023 <= d <= 1023
  }

  /** A sum of four digits of any size, in base 256, that vanishes modulo 2^32 does so digit by digit, with carries. */
  lemma Carries(m0: int, m1: int, m2: int, m3: int, q: int) returns (a: int, b: int, c: int)
    requires m0 + 256 * m1 + 0x1_0000 * m2 + 0x100_0000 * m3 == TWO_32 * q
    ensures m0 == 256 * a && a + m1 == 256 * b && b + m2 == 256 * c && c + m3 == 256 * q
  {
    c := 256 * q - m3;
    b := 256 * c - m2;
    a := 256 * b - m1;
  }

  // ----- five units

  /** With a fifth unit of weight 257^4, the carries are forced. */
  lemma MomentsOfFive(m0: int, m1: int, m2: int, m3: int, d: int, q: int)
    requires -4 <= m0 <= 4 && -6 <= m1 <= 6 && -4 <= m2 <= 4 && -1 <= m3 <= 1 && Moderate(d)
    requires (m0 + d) + 256 * (m1 + 4 * d) + 0x1_0000 * (m2 + 6 * d) + 0x100_0000 * (m3 + 4 * d) == TWO_32 * q
    ensures 10 * m0 - 4 * m1 + m2 == 0 && 20 * m0 - 6 * m1 + m3 == 0
    ensures d == 256 * (4 * m0 - m1) - m0
  {
    var a, b, c := Carries(m0 + d, m1 + 4 * d, m2 + 6 * d, m3 + 4 * d, q);
    MultipleIsZero(a - 4 * m0 + m1, b - 4 * a);
    MultipleIsZero(b - 6 * m0 + m2, c - 6 * a);
    MultipleIsZero(c - 4 * m0 + m3, q - 4 * a);
  }

  /** A multiple of 256 that is smaller than 256 is 0. */
  lemma MultipleIsZero(n: int, k: int)
    requires n == 256 * k && -256 < n < 256
    ensures n == 0 && k == 0
  {
  }

  /** The differences in five units, the first one last. */
  datatype Five = Five(e0: int, e1: int, e2: int, e3: int, d: int)
  {
    function Sum(): int {
      (((d * BASE + e3) * BASE + e2) * BASE + e1) * BASE + e0
    }

    predicate Little() {
      Small(e0) && Small(e1) && Small(e2) && Small(e3) && Moderate(d)
    }

    /** A sum of little differences is 0 modulo 2^32 only if all are 0. */
    lemma OnlyZeros(q: int)
      requires Little() && Sum() == TWO_32 * q
      ensures this == Five(0, 0, 0, 0, 0)
    {
      MomentsOfFive(e0 + e1 + e2 + e3, e1 + 2 * e2 + 3 * e3, e2 + 3 * e3, e3, d, q - d);
    }
  }

  // ----- nine units

  /** The second carry is eight times the first, up to what x takes away. */
  lemma FirstCarries(m0: int, m1: int, d: int, x: int, a: int, b: int)
    requires -8 <= m0 <= 8 && -28 <= m1 <= 28 && Moderate(d) && (x == 0 || x == 248)
    requires m0 + d == 256 * a && a + (m1 + 8 * d - x) == 256 * b
    ensures -4 <= a <= 4 && -5 <= m0 <= 5
    ensures if x == 0 then a - 8 * m0 + m1 == 0 && b == 8 * a else a - 8 * m0 + m1 == -8 && b == 8 * a - 1
  {
    assert a - 8 * m0 + m1 - x == 256 * (b - 8 * a);
  }

  lemma SecondCarry(m0: int, m2: int, a: int, b: int, c: int, d: int)
    requires -5 <= m0 <= 5 && -56 <= m2 <= 56 && -4 <= a <= 4 && (b == 8 * a || b == 8 * a - 1)
    requires d == 256 * a - m0 && b + (m2 + 28 * d) == 256 * c
    ensures c == 28 * a && b - 28 * m0 + m2 == 0
    ensures -140 <= 28 * a - 56 * m0 <= 140
  {
    assert b - 28 * m0 + m2 == 256 * (c - 28 * a);
    assert -3 <= m0 <= 3;
  }

  lemma ThirdCarry(m0: int, m3: int, a: int, c: int, d: int, q: int)
    requires -70 <= m3 <= 70 && -140 <= 28 * a - 56 * m0 <= 140
    requires c == 28 * a && d == 256 * a - m0 && c + (m3 + 56 * d) == 256 * q
    ensures 28 * a - 56 * m0 + m3 == 0
  {
    assert 28 * a - 56 * m0 + m3 == 256 * (q - 56 * a);
  }

  /** With a ninth unit of weight 257^8 likewise; x is 0, or 248 for the difference of the two hashes. */
  lemma MomentsOfNine(m0: int, m1: int, m2: int, m3: int, d: int, x: int, q: int)
    requires -8 <= m0 <= 8 && -28 <= m1 <= 28 && -56 <= m2 <= 56 && -70 <= m3 <= 70 && Moderate(d)
    requires x == 0 || x == 248
    requires (m0 + d) + 256 * (m1 + 8 * d - x) + 0x1_0000 * (m2 + 28 * d) + 0x100_0000 * (m3 + 56 * d) == TWO_32 * q
    ensures 36 * m0 - 8 * m1 + m2 == if x == 0 then 0 else 65
    ensures 168 * m0 - 28 * m1 + m3 == if x == 0 then 0 else 224
    ensures x == 0 ==> d == 256 * (8 * m0 - m1) - m0
  {
    var a, b, c := Carries(m0 + d, m1 + 8 * d - x, m2 + 28 * d, m3 + 56 * d, q);
    FirstCarries(m0, m1, d, x, a, b);
    SecondCarry(m0, m2, a, b, c, d);
    ThirdCarry(m0, m3, a, c, d, q);
  }

  /** Two weighted sums that only zeros satisfy. */
  lemma NoEightVanish(e0: int, e1: int, e2: int, e3: int, e4: int, e5: int, e6: int, e7: int)
    requires Small(e0) && Small(e1) && Small(e2) && Small(e3) && Small(e4) && Small(e5) && Small(e6) && Small(e7)
    requires 36 * e0 + 28 * e1 + 21 * e2 + 15 * e3 + 10 * e4 + 6 * e5 + 3 * e6 + e7 == 0
    requires 168 * e0 + 140 * e1 + 112 * e2 + 85 * e3 + 60 * e4 + 38 * e5 + 20 * e6 + 7 * e7 == 0
    ensures e0 == 0 && e1 == 0 && e2 == 0 && e3 == 0 && e4 == 0 && e5 == 0 && e6 == 0 && e7 == 0
  {
  }

  /** And two that nothing satisfies. */
  lemma NoEightReach(e0: int, e1: int, e2: int, e3: int, e4: int, e5: int, e6: int, e7: int)
    requires Small(e0) && Small(e1) && Small(e2) && Small(e3) && Small(e4) && Small(e5) && Small(e6) && Small(e7)
    requires 36 * e0 + 28 * e1 + 21 * e2 + 15 * e3 + 10 * e4 + 6 * e5 + 3 * e6 + e7 == 65
    ensures 168 * e0 + 140 * e1 + 112 * e2 + 85 * e3 + 60 * e4 + 38 * e5 + 20 * e6 + 7 * e7 != 224
  {
  }

  /** The differences in nine units, the first one last: d has the weight 257^8 and e0 the weight 1. */
  datatype Nine = Nine(e0: int, e1: int, e2: int, e3: int, e4: int, e5: int, e6: int, e7: int, d: int)
  {
    function Sum(): int {
      var half := (((d * BASE + e7) * BASE + e6) * BASE + e5) * BASE + e4;
      (((half * BASE + e3) * BASE + e2) * BASE + e1) * BASE + e0
    }

    predicate Little() {
      && Small(e0) && Small(e1) && Small(e2) && Small(e3) && Small(e4) && Small(e5) && Small(e6) && Small(e7)
      && Moderate(d)
    }

    /** The moments of the eight small differences: their sums weighted by binomial coefficients. */
    function M0(): int {
      e0 + e1 + e2 + e3 + e4 + e5 + e6 + e7
    }

    function M1(): int {
      e1 + 2 * e2 + 3 * e3 + 4 * e4 + 5 * e5 + 6 * e6 + 7 * e7
    }

    function M2(): int {
      e2 + 3 * e3 + 6 * e4 + 10 * e5 + 15 * e6 + 21 * e7
    }

    function M3(): int {
      e3 + 4 * e4 + 10 * e5 + 20 * e6 + 35 * e7
    }

    lemma MomentsAreBounded()
      requires Little()
      ensures -8 <= M0() <= 8 && -28 <= M1() <= 28 && -56 <= M2() <= 56 && -70 <= M3() <= 70
    {
    }

    /** The sum by powers of 257 and the sum by moments differ by a multiple of 2^32. */
    lemma SumByMoments() returns (q: int)
      ensures Sum() == (M0() + d) + 256 * (M1() + 8 * d) + 0x1_0000 * (M2() + 28 * d) + 0x100_0000 * (M3() + 56 * d)
                       + TWO_32 * q
    {
      q := e4 + 261 * e5 + 67_087 * e6 + 17_241_379 * e7 + 4_431_034_438 * d;
    }

    /** Two weighted sums that only zeros satisfy. */
    lemma NoneVanish()
      requires Little()
      requires 36 * M0() - 8 * M1() + M2() == 0 && 168 * M0() - 28 * M1() + M3() == 0
      ensures e0 == 0 && e1 == 0 && e2 == 0 && e3 == 0 && e4 == 0 && e5 == 0 && e6 == 0 && e7 == 0
    {
      NoEightVanish(e0, e1, e2, e3, e4, e5, e6, e7);
    }

    /** And two that nothing satisfies. */
    lemma NoneReach()
      requires Little()
      ensures !(36 * M0() - 8 * M1() + M2() == 65 && 168 * M0() - 28 * M1() + M3() == 224)
    {
      if 36 * M0() - 8 * M1() + M2() == 65 {
        NoEightReach(e0, e1, e2, e3, e4, e5, e6, e7);
      }
    }

    lemma Forced(x: int, q: int)
      requires Little() && (x == 0 || x == 248) && Sum() == 256 * x + TWO_32 * q
      ensures 36 * M0() - 8 * M1() + M2() == if x == 0 then 0 else 65
      ensures 168 * M0() - 28 * M1() + M3() == if x == 0 then 0 else 224
      ensures x == 0 ==> d == 256 * (8 * M0() - M1()) - M0()
    {
      MomentsAreBounded();
      var p := SumByMoments();
      MomentsOfNine(M0(), M1(), M2(), M3(), d, x, q - p);
    }

    /** A sum of little differences is 0 or the difference of the hashes, modulo 2^32, only if all are 0. */
    lemma OnlyZeros(x: int, q: int)
      requires Little() && (x == 0 || x == 248) && Sum() == 256 * x + TWO_32 * q
      ensures x == 0 && this == Nine(0, 0, 0, 0, 0, 0, 0, 0, 0)
    {
      Forced(x, q);
      if x == 0 {
        NoneVanish();
      } else {
        NoneReach();
      }
    }
  }

  // ----- windows

  /** How much unit i of w exceeds that of v. */
  function Gap(v: Text, w: Text, i: nat): int
    requires i < |v| && i < |w|
  {
    var before: int := v[i];
    w[i] - before
  }

  /** Windows that differ by at most one in any unit but the first, and there by less than 1024. */
  predicate Near(v: Text, w: Text) {
    && |v| == |w|
    && forall i | 0 <= i < |v| :: if i == 0 then Moderate(Gap(v, w, 0)) else Small(Gap(v, w, i))
  }

  lemma NearIsSymmetric(v: Text, w: Text)
    requires Near(v, w)
    ensures Near(w, v)
  {
    assert forall i | 0 <= i < |v| :: Gap(w, v, i) == -Gap(v, w, i);
  }

  function NineDifferences(v: Text, w: Text): Nine
    requires |v| == 9 && |w| == 9
  {
    Nine(Gap(v, w, 8), Gap(v, w, 7), Gap(v, w, 6), Gap(v, w, 5), Gap(v, w, 4), Gap(v, w, 3), Gap(v, w, 2),
         Gap(v, w, 1), Gap(v, w, 0))
  }

  lemma SumOfNineDifferences(v: Text, w: Text)
    requires |v| == 9 && |w| == 9
    ensures NineDifferences(v, w).Sum() == HornerNine(w, 0) - HornerNine(v, 0)
  {
  }

  lemma NineApart(v: Text, w: Text, x: int)
    requires |v| == 9 && Near(v, w) && (x == 0 || x == 248)
    requires ToUint32(HornerNine(w, 0)) == ToUint32(HornerNine(v, 0)) + 256 * x
    ensures x == 0 && v == w
  {
    SumOfNineDifferences(v, w);
    var e := NineDifferences(v, w);
    assert e.Little();
    e.OnlyZeros(x, HornerNine(w, 0) / TWO_32 - HornerNine(v, 0) / TWO_32);
  }

  function FiveDifferences(v: Text, w: Text): Five
    requires |v| == 5 && |w| == 5
  {
    Five(Gap(v, w, 4), Gap(v, w, 3), Gap(v, w, 2), Gap(v, w, 1), Gap(v, w, 0))
  }

  lemma SumOfFiveDifferences(v: Text, w: Text)
    requires |v| == 5 && |w| == 5
    ensures FiveDifferences(v, w).Sum() == HornerFive(w, 0) - HornerFive(v, 0)
  {
  }

  lemma FiveApart(v: Text, w: Text)
    requires |v| == 5 && Near(v, w)
    requires ToUint32(HornerFive(w, 0)) == ToUint32(HornerFive(v, 0))
    ensures v == w
  {
    SumOfFiveDifferences(v, w);
    var e := FiveDifferences(v, w);
    assert e.Little();
    e.OnlyZeros(HornerFive(w, 0) / TWO_32 - HornerFive(v, 0) / TWO_32);
  }

  lemma NineWindows(v: Text, w: Text)
    requires |v| == 9 && Near(v, w)
    requires WindowHash(v) in SUBSTRING_TARGETS[9] && WindowHash(w) in SUBSTRING_TARGETS[9]
    ensures v == w
  {
    HashOfNine(v, 0);
    HashOfNine(w, 0);
    assert v[0..9] == v && w[0..9] == w;
    NearIsSymmetric(v, w);
    if WindowHash(v) <= WindowHash(w) {
      NineApart(v, w, (WindowHash(w) - WindowHash(v)) / 256);
    } else {
      NineApart(w, v, (WindowHash(v) - WindowHash(w)) / 256);
    }
  }

  lemma FiveWindows(v: Text, w: Text)
    requires |v| == 5 && Near(v, w)
    requires WindowHash(v) in SUBSTRING_TARGETS[5] && WindowHash(w) in SUBSTRING_TARGETS[5]
    ensures v == w
  {
    HashOfFive(v, 0);
    HashOfFive(w, 0);
    assert v[0..5] == v && w[0..5] == w;
    FiveApart(v, w);
  }

  /** Of two near windows with a shipped substring hash each, both are the same. */
  lemma ShippedWindowsAreApart(v: Text, w: Text)
    requires |v| in SUBSTRING_TARGETS && Near(v, w) && WindowHash(v) in SUBSTRING_TARGETS[|v|]
    ensures WindowHash(w) in SUBSTRING_TARGETS[|v|] <==> v == w
  {
    if WindowHash(w) in SUBSTRING_TARGETS[|v|] {
      if |v| == 5 {
        FiveWindows(v, w);
      } else {
        NineWindows(v, w);
      }
    }
  }
}
