/** The hash of a short window written out by Horner's rule, without recursion. */
module Horner {
  import opened BoundaryPolicy
  import opened Words

  function HornerFour(start: int, w: Text, at: nat): int
    requires at + 4 <= |w|
  {
    (((start * BASE + w[at]) * BASE + w[at + 1]) * BASE + w[at + 2]) * BASE + w[at + 3]
  }

  function HornerEight(start: int, w: Text, at: nat): int
    requires at + 8 <= |w|
  {
    HornerFour(HornerFour(start, w, at), w, at + 4)
  }

  function HornerFive(w: Text, at: nat): int
    requires at + 5 <= |w|
  {
    HornerFour(w[at], w, at + 1)
  }

  function HornerNine(w: Text, at: nat): int
    requires at + 9 <= |w|
  {
    HornerEight(w[at], w, at + 1)
  }

  function HornerTen(w: Text, at: nat): int
    requires at + 10 <= |w|
  {
    HornerEight(w[at] * BASE + w[at + 1], w, at + 2)
  }

  function HornerEleven(w: Text, at: nat): int
    requires at + 11 <= |w|
  {
    HornerEight((w[at] * BASE + w[at + 1]) * BASE + w[at + 2], w, at + 3)
  }

  lemma PolynomialOfFour(front: Text, w: Text, at: nat)
    requires at + 4 <= |w|
    ensures Polynomial(front + w[at..at + 4]) == HornerFour(Polynomial(front), w, at)
  {
    FourMore(front, w[at], w[at + 1], w[at + 2], w[at + 3]);
    assert w[at..at + 4] == [w[at], w[at + 1], w[at + 2], w[at + 3]];
  }

  lemma PolynomialOfEight(front: Text, w: Text, at: nat)
    requires at + 8 <= |w|
    ensures Polynomial(front + w[at..at + 8]) == HornerEight(Polynomial(front), w, at)
  {
    PolynomialOfFour(front, w, at);
    PolynomialOfFour(front + w[at..at + 4], w, at + 4);
    assert front + w[at..at + 8] == front + w[at..at + 4] + w[at + 4..at + 8];
  }

  lemma HashOfFive(w: Text, at: nat)
    requires at + 5 <= |w|
    ensures WindowHash(w[at..at + 5]) == ToUint32(HornerFive(w, at))
  {
    ShortPolynomials(w[at], 0, 0);
    PolynomialOfFour([w[at]], w, at + 1);
    assert w[at..at + 5] == [w[at]] + w[at + 1..at + 5];
  }

  lemma HashOfNine(w: Text, at: nat)
    requires at + 9 <= |w|
    ensures WindowHash(w[at..at + 9]) == ToUint32(HornerNine(w, at))
  {
    ShortPolynomials(w[at], 0, 0);
    PolynomialOfEight([w[at]], w, at + 1);
    assert w[at..at + 9] == [w[at]] + w[at + 1..at + 9];
  }

  lemma HashOfTen(w: Text, at: nat)
    requires at + 10 <= |w|
    ensures WindowHash(w[at..at + 10]) == ToUint32(HornerTen(w, at))
  {
    ShortPolynomials(w[at], w[at + 1], 0);
    PolynomialOfEight([w[at], w[at + 1]], w, at + 2);
    assert w[at..at + 10] == [w[at], w[at + 1]] + w[at + 2..at + 10];
  }

  lemma HashOfEleven(w: Text, at: nat)
    requires at + 11 <= |w|
    ensures WindowHash(w[at..at + 11]) == ToUint32(HornerEleven(w, at))
  {
    ShortPolynomials(w[at], w[at + 1], w[at + 2]);
    PolynomialOfEight([w[at], w[at + 1], w[at + 2]], w, at + 3);
    assert w[at..at + 11] == [w[at], w[at + 1], w[at + 2]] + w[at + 3..at + 11];
  }
}
