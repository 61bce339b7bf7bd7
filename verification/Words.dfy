/**
The 32-bit integer operations that the scanner applies to JavaScript numbers:
`x >>> 0` (unsigned) and `Math.imul` (signed), with congruence modulo 2^32 as the
bridge to unbounded arithmetic.
 */
module Words {

  const TWO_32 := 0x1_0000_0000
  const TWO_31 := 0x8000_0000

  type Uint32 = x: int | 0 <= x < TWO_32
  type Int32 = x: int | -TWO_31 <= x < TWO_31

  /** `x >>> 0`. */
  function ToUint32(x: int): Uint32 {
    x % TWO_32
  }

  function ToInt32(x: int): Int32 {
    var low := x % TWO_32;
    if low < TWO_31 then low else low - TWO_32
  }

  /** `Math.imul(a, b)`: the low 32 bits of the product, read as a signed number. */
  function Imul(a: int, b: int): Int32 {
    ToInt32(ToUint32(a) * ToUint32(b))
  }

  /** a and b agree modulo 2^32. */
  ghost predicate Congruent(a: int, b: int) {
    (a - b) % TWO_32 == 0
  }

  lemma MultipleIsCongruent(a: int, b: int, k: int)
    requires a == b + k * TWO_32
    ensures Congruent(a, b)
  {
  }

  lemma ResidueIsCongruent(word: int, a: int)
    requires word == ToUint32(a)
    ensures Congruent(word, a)
  {
  }

  lemma ToUint32IsCongruent(a: int, a': int)
    requires Congruent(a, a')
    ensures Congruent(ToUint32(a), a')
  {
  }

  lemma ToInt32IsCongruent(a: int, a': int)
    requires Congruent(a, a')
    ensures Congruent(ToInt32(a), a')
  {
  }

  lemma SumsAreCongruent(a: int, a': int, b: int, b': int)
    requires Congruent(a, a') && Congruent(b, b')
    ensures Congruent(a + b, a' + b') && Congruent(a - b, a' - b')
  {
    var k, m := (a - a') / TWO_32, (b - b') / TWO_32;
    MultipleIsCongruent(a + b, a' + b', k + m);
    MultipleIsCongruent(a - b, a' - b', k - m);
  }

  /** An unsigned word is the residue of whatever it stands for. */
  lemma WordIsResidue(word: Uint32, a: int)
    requires Congruent(word, a)
    ensures word == ToUint32(a)
  {
  }

  lemma ProductsAreCongruent(a: int, a': int, b: int, b': int)
    requires Congruent(a, a') && Congruent(b, b')
    ensures Congruent(a * b, a' * b')
  {
    var k, m := (a - a') / TWO_32, (b - b') / TWO_32;
    assert a == a' + k * TWO_32 && b == b' + m * TWO_32;
    var quotient := k * b + a' * m;
    calc {
      a * b;
      (a' + k * TWO_32) * b;
      a' * b + k * TWO_32 * b;
      a' * (b' + m * TWO_32) + k * TWO_32 * b;
      a' * b' + a' * m * TWO_32 + k * b * TWO_32;
      a' * b' + quotient * TWO_32;
    }
    MultipleIsCongruent(a * b, a' * b', quotient);
  }

  /** The signed machine product stands for the mathematical product of whatever its arguments stand for. */
  lemma ImulIsCongruent(a: int, a': int, b: int, b': int)
    requires Congruent(a, a') && Congruent(b, b')
    ensures Congruent(Imul(a, b), a' * b')
  {
    ToUint32IsCongruent(a, a');
    ToUint32IsCongruent(b, b');
    ProductsAreCongruent(ToUint32(a), a', ToUint32(b), b');
    ToInt32IsCongruent(ToUint32(a) * ToUint32(b), a' * b');
  }
}
