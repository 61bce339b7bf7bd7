/**
The prohibited-marker scanner: a Rabin-Karp scan in wrap-around 32-bit arithmetic
followed by a token-boundary filter. `decodeEscapes` is not part of this model, so a
scan starts from the decoded text and its lower-cased form, which may be any two
texts: `charCodeAt` outside a text yields NaN, as in the source.
 */
module BoundaryPolicy {
  import opened Prelude
  import opened Words

  type CodeUnit = c: int | 0 <= c < 0x1_0000
  type Text = seq<CodeUnit>
  type Length = n: nat | 1 <= n witness 1

  datatype Target = Target(length: Length, hashes: set<Uint32>)

  /** The hashes to look for by window length, and the lengths whose listed hashes need no token boundary. */
  datatype Table = Table(targets: seq<Target>, substrings: map<Length, set<Uint32>>)

  const BASE := 257

  const TARGETS: seq<Target> := [
    Target(5, {1_098_742_058}),
    Target(9, {3_847_020_951, 3_847_084_439, 1_161_608_401}),
    Target(10, {2_179_956_528, 2_895_058_756}),
    Target(11, {3_928_627_619}),
    Target(16, {578_114_754}),
    Target(18, {4_262_251_136}),
    Target(24, {1_853_816_080}),
    Target(25, {3_984_330_115}),
    Target(26, {1_988_911_822}),
    Target(27, {49_230_145})
  ]

  const SUBSTRING_TARGETS: map<Length, set<Uint32>> := map[
    5 := {1_098_742_058},
    9 := {3_847_020_951, 3_847_084_439}
  ]

  const POLICY := Table(TARGETS, SUBSTRING_TARGETS)

  // ----- characters

  /** `value.charCodeAt(index)`; None is NaN. */
  function CharCodeAt(value: Text, index: int): Option<CodeUnit> {
    if 0 <= index < |value| then Some(value[index]) else None
  }

  predicate IsDigit(code: Option<CodeUnit>) {
    code.Some? && 0x30 <= code.value <= 0x39
  }

  predicate IsUpperAscii(code: Option<CodeUnit>) {
    code.Some? && 0x41 <= code.value <= 0x5a
  }

  predicate IsLowerAsciiOrDigit(code: Option<CodeUnit>) {
    IsDigit(code) || (code.Some? && 0x61 <= code.value <= 0x7a)
  }

  predicate IsAsciiLetterOrDigit(code: Option<CodeUnit>) {
    IsLowerAsciiOrDigit(code) || IsUpperAscii(code)
  }

  const DIGITS := "0123456789"
  const UPPER_CASE := "ABCDEFGHIJKLMNOPQRSTUVWXYZ"
  const LOWER_CASE := "abcdefghijklmnopqrstuvwxyz"

  /** The three classes hold the characters that are printed here. */
  lemma ClassesAsPrinted(c: char)
    requires c as int < 0xd800
    ensures var code := Some(c as int as CodeUnit);
            && (IsDigit(code) <==> c in DIGITS) && (IsUpperAscii(code) <==> c in UPPER_CASE)
            && (IsLowerAsciiOrDigit(code) <==> c in LOWER_CASE || c in DIGITS)
            && (IsAsciiLetterOrDigit(code) <==> c in LOWER_CASE || c in UPPER_CASE || c in DIGITS)
  {
  }

  predicate HasTokenBoundaries(value: Text, start: nat, length: Length) {
    var end := start + length;
    var first := CharCodeAt(value, start);
    var last := CharCodeAt(value, end - 1);
    var before := CharCodeAt(value, start - 1);
    var after := CharCodeAt(value, end);
    && (start == 0 || !IsAsciiLetterOrDigit(before) || (IsLowerAsciiOrDigit(before) && IsUpperAscii(first)))
    && (end == |value| || !IsAsciiLetterOrDigit(after) || (IsLowerAsciiOrDigit(last) && IsUpperAscii(after)))
  }

  /** The filter on a window's hash: `targets.has(hash) && (substrings.get(length)?.has(hash) ?? boundaries)`. */
  predicate Accepts(substrings: map<Length, set<Uint32>>, target: Target, hash: Uint32, decoded: Text, start: nat) {
    && hash in target.hashes
    && if target.length in substrings then hash in substrings[target.length]
       else HasTokenBoundaries(decoded, start, target.length)
  }

  // ----- the specification: hash every window from scratch, in unbounded integers

  function Power(exponent: nat): int {
    if exponent == 0 then 1 else BASE * Power(exponent - 1)
  }

  /** The sum of w[i] * 257^(|w| - 1 - i). */
  function Polynomial(w: Text): int {
    if w == [] then 0 else w[0] * Power(|w| - 1) + Polynomial(w[1..])
  }

  function WindowHash(w: Text): Uint32 {
    ToUint32(Polynomial(w))
  }

  predicate Hit(table: Table, decoded: Text, normalized: Text, k: int, start: int) {
    && 0 <= k < |table.targets|
    && 0 <= start <= |normalized| - table.targets[k].length
    && var target := table.targets[k];
       Accepts(table.substrings, target, WindowHash(normalized[start..start + target.length]), decoded, start)
  }

  /** Some window of some target length passes the filter. */
  predicate Marked(table: Table, decoded: Text, normalized: Text) {
    exists k, start | 0 <= k < |table.targets| && 0 <= start <= |normalized| ::
      Hit(table, decoded, normalized, k, start)
  }

  // ----- the rolling hash

  lemma {:induction false} PolynomialSnoc(w: Text, c: CodeUnit)
    ensures Polynomial(w + [c]) == Polynomial(w) * BASE + c
  {
    if w == [] {
      assert w + [c] == [c];
      assert Power(0) == 1;
    } else {
      PolynomialSnoc(w[1..], c);
      assert (w + [c])[1..] == w[1..] + [c];
      assert Power(|w|) == BASE * Power(|w| - 1);
      assert w[0] * (BASE * Power(|w| - 1)) == (w[0] * Power(|w| - 1)) * BASE;
    }
  }

  /**
  One slide of the window, in the machine arithmetic of the source: a signed product,
  a difference that may be negative, and two truncations.
   */
  function Slide(hash: Uint32, power: Uint32, outgoing: CodeUnit, incoming: CodeUnit): Uint32 {
    ToUint32(Imul(ToUint32(hash - Imul(outgoing, power)), BASE) + incoming)
  }

  lemma SlideOfResidues(hash: Uint32, whole: int, power: Uint32, weight: int,
                        outgoing: CodeUnit, rest: int, incoming: CodeUnit)
    requires hash == ToUint32(whole) && power == ToUint32(weight)
    requires whole == outgoing * weight + rest
    ensures Slide(hash, power, outgoing, incoming) == ToUint32(rest * BASE + incoming)
  {
    ResidueIsCongruent(hash, whole);
    ResidueIsCongruent(power, weight);
    SlideIsCongruent(hash, whole, power, weight, outgoing, rest, incoming);
    WordIsResidue(Slide(hash, power, outgoing, incoming), rest * BASE + incoming);
  }

  /** What is left of a window when its first unit has been taken out. */
  lemma ShortenedIsCongruent(hash: Uint32, whole: int, power: Uint32, weight: int, outgoing: CodeUnit, rest: int)
    requires Congruent(hash, whole) && Congruent(power, weight)
    requires whole == outgoing * weight + rest
    ensures Congruent(ToUint32(hash - Imul(outgoing, power)), rest)
  {
    var product := Imul(outgoing, power);
    ImulIsCongruent(outgoing, outgoing, power, weight);
    SumsAreCongruent(hash, whole, product, outgoing * weight);
    ToUint32IsCongruent(hash - product, rest);
  }

  /** One step of Horner's rule on a number that stands for another. */
  lemma HornerIsCongruent(word: int, rest: int, incoming: CodeUnit)
    requires Congruent(word, rest)
    ensures Congruent(ToUint32(Imul(word, BASE) + incoming), rest * BASE + incoming)
  {
    ImulIsCongruent(word, rest, BASE, BASE);
    SumsAreCongruent(Imul(word, BASE), rest * BASE, incoming, incoming);
    ToUint32IsCongruent(Imul(word, BASE) + incoming, rest * BASE + incoming);
  }

  lemma SlideIsCongruent(hash: Uint32, whole: int, power: Uint32, weight: int,
                         outgoing: CodeUnit, rest: int, incoming: CodeUnit)
    requires Congruent(hash, whole) && Congruent(power, weight)
    requires whole == outgoing * weight + rest
    ensures Congruent(Slide(hash, power, outgoing, incoming), rest * BASE + incoming)
  {
    ShortenedIsCongruent(hash, whole, power, weight, outgoing, rest);
    HornerIsCongruent(ToUint32(hash - Imul(outgoing, power)), rest, incoming);
  }

  lemma HornerOfResidues(hash: Uint32, whole: int, incoming: CodeUnit)
    requires hash == ToUint32(whole)
    ensures ToUint32(Imul(hash, BASE) + incoming) == ToUint32(whole * BASE + incoming)
  {
    ResidueIsCongruent(hash, whole);
    HornerIsCongruent(hash, whole, incoming);
    WordIsResidue(ToUint32(Imul(hash, BASE) + incoming), whole * BASE + incoming);
  }

  lemma SlideIsExact(outgoing: CodeUnit, middle: Text, incoming: CodeUnit, power: Uint32)
    requires power == ToUint32(Power(|middle|))
    ensures Slide(WindowHash([outgoing] + middle), power, outgoing, incoming) == WindowHash(middle + [incoming])
  {
    var w := [outgoing] + middle;
    assert w[1..] == middle;
    SlideOfResidues(WindowHash(w), Polynomial(w), power, Power(|middle|), outgoing, Polynomial(middle), incoming);
    PolynomialSnoc(middle, incoming);
  }

  /** Horner's rule over a window; a position past the end of the text reads as 0. */
  method PolynomialHash(value: Text, start: nat, length: nat) returns (result: Uint32)
    ensures result == WindowHash(Padded(value, start, length))
  {
    result := 0;
    for index := start to start + length
      invariant result == WindowHash(Padded(value, start, index - start))
    {
      var unit := CharCodeAt(value, index);
      var addend: CodeUnit := if unit.Some? then unit.value else 0;
      ghost var before := Padded(value, start, index - start);
      HornerOfResidues(result, Polynomial(before), addend);
      PolynomialSnoc(before, addend);
      assert Padded(value, start, index + 1 - start) == before + [addend];
      result := ToUint32(Imul(result, BASE) + addend);
    }
  }

  function Padded(value: Text, start: nat, length: nat): Text {
    seq(length, i requires 0 <= i => if start + i < |value| then value[start + i] else 0)
  }

  /** `power = 257^(length - 1)`, with every product truncated. */
  method LeadingPower(length: Length) returns (power: Uint32)
    ensures power == ToUint32(Power(length - 1))
  {
    power := 1;
    for index := 1 to length
      invariant power == ToUint32(Power(index - 1))
    {
      HornerOfResidues(power, Power(index - 1), 0);
      power := ToUint32(Imul(power, BASE));
    }
  }

  /** The body of the scan's outer loop: every window of one target length. */
  method ContainsTarget(table: Table, k: nat, decoded: Text, normalized: Text) returns (found: bool)
    requires k < |table.targets|
    ensures found <==> exists start :: Hit(table, decoded, normalized, k, start)
  {
    var target := table.targets[k];
    var length := target.length;
    if |normalized| < length { return false; }
    var hash := PolynomialHash(normalized, 0, length);
    assert Padded(normalized, 0, length) == normalized[0..length];
    if Accepts(table.substrings, target, hash, decoded, 0) {
      assert Hit(table, decoded, normalized, k, 0);
      return true;
    }
    var power := LeadingPower(length);
    for index := length to |normalized|
      invariant hash == WindowHash(normalized[index - length..index])
      invariant forall start :: start <= index - length ==> !Hit(table, decoded, normalized, k, start)
    {
      var outgoing := normalized[index - length];
      var incoming := normalized[index];
      RollForward(normalized, index, length, power);
      hash := ToUint32(hash - Imul(outgoing, power));
      hash := ToUint32(Imul(hash, BASE) + incoming);
      if Accepts(table.substrings, target, hash, decoded, index - length + 1) {
        assert Hit(table, decoded, normalized, k, index - length + 1);
        return true;
      }
    }
    return false;
  }

  method ContainsMarker(table: Table, decoded: Text, normalized: Text) returns (found: bool)
    ensures found <==> Marked(table, decoded, normalized)
  {
    for k := 0 to |table.targets|
      invariant forall j, start :: j < k ==> !Hit(table, decoded, normalized, j, start)
    {
      found := ContainsTarget(table, k, decoded, normalized);
      if found { return; }
    }
    return false;
  }

  /** What one iteration of the scan does to the hash, in terms of windows of the text. */
  lemma RollForward(text: Text, index: nat, length: Length, power: Uint32)
    requires length <= index < |text|
    requires power == ToUint32(Power(length - 1))
    ensures Slide(WindowHash(text[index - length..index]), power, text[index - length], text[index])
         == WindowHash(text[index - length + 1..index + 1])
  {
    var middle := text[index - length + 1..index];
    assert text[index - length..index] == [text[index - length]] + middle;
    assert text[index - length + 1..index + 1] == middle + [text[index]];
    SlideIsExact(text[index - length], middle, text[index], power);
  }

  // ----- which table entries can fire

  /** The scan hits entry k at `start`, in a window with this hash. */
  ghost predicate FiresAt(table: Table, k: int, hash: Uint32, decoded: Text, normalized: Text, start: int) {
    && Hit(table, decoded, normalized, k, start)
    && WindowHash(normalized[start..start + table.targets[k].length]) == hash
  }

  /** The hashes that windows of this length have: one or two 16-bit units do not make every 32-bit number. */
  predicate Reachable(length: Length, hash: Uint32) {
    && (length == 1 ==> hash <= 0xffff)
    && (length == 2 ==> hash <= 0xffff * (BASE + 1))
  }

  /** A window of this length with this hash. */
  function Preimage(length: Length, hash: Uint32): (w: Text)
    requires Reachable(length, hash)
    ensures |w| == length
  {
    if length == 1 then [hash]
    else if length == 2 then
      var first := if hash / BASE <= 0xffff then hash / BASE else 0xffff;
      [first, hash - first * BASE]
    else Zeros(length - 3) + [hash / (BASE * BASE), hash % (BASE * BASE) / BASE, hash % BASE]
  }

  function Zeros(n: nat): (w: Text)
    ensures |w| == n
  {
    if n == 0 then [] else [0] + Zeros(n - 1)
  }

  lemma {:induction false} LeadingZeros(n: nat, w: Text)
    ensures Polynomial(Zeros(n) + w) == Polynomial(w)
  {
    if n == 0 {
      assert Zeros(0) + w == w;
    } else {
      LeadingZeros(n - 1, w);
      assert (Zeros(n) + w)[1..] == Zeros(n - 1) + w;
      assert (Zeros(n) + w)[0] == 0;
    }
  }

  lemma ShortPolynomials(a: CodeUnit, b: CodeUnit, c: CodeUnit)
    ensures Polynomial([a]) == a
    ensures Polynomial([a, b]) == a * BASE + b
    ensures Polynomial([a, b, c]) == (a * BASE + b) * BASE + c
  {
    PolynomialSnoc([], a);
    PolynomialSnoc([a], b);
    PolynomialSnoc([a, b], c);
    assert [] + [a] == [a] && [a] + [b] == [a, b] && [a, b] + [c] == [a, b, c];
  }

  /** Three digits of a 32-bit number in base 257, all of them code units. */
  lemma ThreeDigits(hash: Uint32) returns (a: CodeUnit, b: CodeUnit, c: CodeUnit)
    ensures a == hash / (BASE * BASE) && b == hash % (BASE * BASE) / BASE && c == hash % BASE
    ensures (a * BASE + b) * BASE + c == hash
  {
    a, b, c := hash / (BASE * BASE), hash % (BASE * BASE) / BASE, hash % BASE;
  }

  lemma LongPreimageHashes(length: Length, hash: Uint32)
    requires length >= 3
    ensures Polynomial(Preimage(length, hash)) == hash
  {
    var a, b, c := ThreeDigits(hash);
    ShortPolynomials(a, b, c);
    LeadingZeros(length - 3, [a, b, c]);
    assert Preimage(length, hash) == Zeros(length - 3) + [a, b, c];
  }

  lemma ShortPreimageHashes(length: Length, hash: Uint32)
    requires length <= 2 && Reachable(length, hash)
    ensures Polynomial(Preimage(length, hash)) == hash
  {
    var w := Preimage(length, hash);
    ShortPolynomials(w[0], if length == 2 then w[1] else 0, 0);
  }

  lemma PreimageHashes(length: Length, hash: Uint32)
    requires Reachable(length, hash)
    ensures WindowHash(Preimage(length, hash)) == hash
  {
    if length >= 3 {
      LongPreimageHashes(length, hash);
    } else {
      ShortPreimageHashes(length, hash);
    }
  }

  lemma WindowHashIsReachable(w: Text)
    requires w != []
    ensures Reachable(|w|, WindowHash(w))
  {
    if |w| == 1 {
      ShortPolynomials(w[0], 0, 0);
      assert w == [w[0]];
    } else if |w| == 2 {
      ShortPolynomials(w[0], w[1], 0);
      assert w == [w[0], w[1]];
    }
  }

  /** The substring set of the entry's length, if there is one, holds the hash, and some window has it. */
  predicate Live(table: Table, k: int, hash: Uint32)
    requires 0 <= k < |table.targets|
  {
    var target := table.targets[k];
    && hash in target.hashes
    && (target.length in table.substrings ==> hash in table.substrings[target.length])
    && Reachable(target.length, hash)
  }

  /** In any table, the scan hits an entry by a hash on some pair of texts exactly when the two are live. */
  lemma LiveEntries(table: Table, k: int, hash: Uint32)
    requires 0 <= k < |table.targets|
    ensures (exists decoded, normalized, start :: FiresAt(table, k, hash, decoded, normalized, start))
       <==> Live(table, k, hash)
  {
    if exists decoded, normalized, start :: FiresAt(table, k, hash, decoded, normalized, start) {
      var decoded, normalized, start :| FiresAt(table, k, hash, decoded, normalized, start);
      FiringIsLive(table, k, hash, decoded, normalized, start);
    }
    if Live(table, k, hash) {
      var w := Preimage(table.targets[k].length, hash);
      PreimageHashes(table.targets[k].length, hash);
      assert w[0..|w|] == w;
      assert FiresAt(table, k, hash, w, w, 0);
    }
  }

  lemma FiringIsLive(table: Table, k: int, hash: Uint32, decoded: Text, normalized: Text, start: int)
    requires 0 <= k < |table.targets| && FiresAt(table, k, hash, decoded, normalized, start)
    ensures Live(table, k, hash)
  {
    WindowHashIsReachable(normalized[start..start + table.targets[k].length]);
  }

  // ----- texts on which decoding and lower-casing have nothing to do

  /** The first of 257 ideographs, one for each digit in base 257. */
  const IDEOGRAPH: CodeUnit := 0x4e00

  predicate Caseless(text: Text) {
    forall i | 0 <= i < |text| :: IDEOGRAPH <= text[i] <= IDEOGRAPH + 256
  }

  /** A text function that changes nothing in a text of such ideographs, as escape decoding and lower-casing do not. */
  ghost predicate LeavesCaseless(f: Text -> Text) {
    forall text | Caseless(text) :: f(text) == text
  }

  lemma FourMore(w: Text, a: CodeUnit, b: CodeUnit, c: CodeUnit, d: CodeUnit)
    ensures Polynomial(w + [a, b, c, d]) == (((Polynomial(w) * BASE + a) * BASE + b) * BASE + c) * BASE + d
  {
    PolynomialSnoc(w, a);
    PolynomialSnoc(w + [a], b);
    PolynomialSnoc(w + [a] + [b], c);
    PolynomialSnoc(w + [a] + [b] + [c], d);
    assert w + [a, b, c, d] == w + [a] + [b] + [c] + [d];
  }

  /** Four digits in base 257 spell any 32-bit number. */
  lemma FourDigits(number: Uint32) returns (a: nat, b: nat, c: nat, d: nat)
    ensures a <= 256 && b <= 256 && c <= 256 && d <= 256
    ensures ((a * BASE + b) * BASE + c) * BASE + d == number
  {
    d := number % BASE;
    var rest := number / BASE;
    c := rest % BASE;
    rest := rest / BASE;
    b := rest % BASE;
    a := rest / BASE;
  }

  /** Adding to the last four units adds the number that the addends spell. */
  lemma LastFour(front: Text, unit: CodeUnit, a: nat, b: nat, c: nat, d: nat)
    requires unit + a < 0x1_0000 && unit + b < 0x1_0000 && unit + c < 0x1_0000 && unit + d < 0x1_0000
    ensures Polynomial(front + [unit + a, unit + b, unit + c, unit + d])
         == Polynomial(front + [unit, unit, unit, unit]) + (((a * BASE + b) * BASE + c) * BASE + d)
  {
    FourMore(front, unit + a, unit + b, unit + c, unit + d);
    FourMore(front, unit, unit, unit, unit);
  }

  /** From four units up, ideographs have every hash. */
  lemma CaselessPreimage(length: Length, hash: Uint32) returns (w: Text)
    requires length >= 4
    ensures |w| == length && Caseless(w) && WindowHash(w) == hash
  {
    var front: Text := seq(length - 4, _ => IDEOGRAPH);
    var base := Polynomial(front + [IDEOGRAPH, IDEOGRAPH, IDEOGRAPH, IDEOGRAPH]);
    var a, b, c, d := FourDigits(ToUint32(hash - base));
    LastFour(front, IDEOGRAPH, a, b, c, d);
    w := front + [IDEOGRAPH + a, IDEOGRAPH + b, IDEOGRAPH + c, IDEOGRAPH + d];
    SumOfResidue(base, hash);
  }

  lemma SumOfResidue(base: int, hash: Uint32)
    ensures ToUint32(base + ToUint32(hash - base)) == hash
  {
  }

  /**
  For lengths from four up the pairs can be the two forms of one string: whatever escape
  decoding and lower-casing do elsewhere, the scan hits an entry by a hash on some string
  exactly when the two are live.
   */
  lemma LiveOnStrings(table: Table, k: int, hash: Uint32, decode: Text -> Text, lower: Text -> Text)
    requires 0 <= k < |table.targets| && table.targets[k].length >= 4
    requires LeavesCaseless(decode) && LeavesCaseless(lower)
    ensures (exists value, start :: FiresAt(table, k, hash, decode(value), lower(decode(value)), start))
       <==> Live(table, k, hash)
  {
    if exists value, start :: FiresAt(table, k, hash, decode(value), lower(decode(value)), start) {
      var value, start :| FiresAt(table, k, hash, decode(value), lower(decode(value)), start);
      FiringIsLive(table, k, hash, decode(value), lower(decode(value)), start);
    }
    if Live(table, k, hash) {
      var w := CaselessPreimage(table.targets[k].length, hash);
      assert w[0..|w|] == w;
      assert FiresAt(table, k, hash, decode(w), lower(decode(w)), 0);
    }
  }

  function Pruned(table: Table): Table {
    table.(targets := seq(|table.targets|, k requires 0 <= k < |table.targets| =>
      table.targets[k].(hashes := set hash | hash in table.targets[k].hashes && Live(table, k, hash))))
  }

  /** Deleting the entries that cannot fire changes no verdict, for any table. */
  lemma PrunedTableAgrees(table: Table, decoded: Text, normalized: Text)
    ensures Marked(Pruned(table), decoded, normalized) <==> Marked(table, decoded, normalized)
  {
    forall k, start
      ensures Hit(Pruned(table), decoded, normalized, k, start) <==> Hit(table, decoded, normalized, k, start)
    {
      PrunedHit(table, decoded, normalized, k, start);
    }
    if Marked(table, decoded, normalized) {
      var k, start :| Hit(table, decoded, normalized, k, start);
      assert Hit(Pruned(table), decoded, normalized, k, start);
    }
  }

  lemma PrunedHit(table: Table, decoded: Text, normalized: Text, k: int, start: int)
    ensures Hit(Pruned(table), decoded, normalized, k, start) <==> Hit(table, decoded, normalized, k, start)
  {
    if 0 <= k < |table.targets| && 0 <= start <= |normalized| - table.targets[k].length {
      WindowHashIsReachable(normalized[start..start + table.targets[k].length]);
    }
  }

  /**
  In the shipped table every entry fires on some string except the third length-9 hash. It
  is absent from the length-9 substring set, so neither a substring nor a token of that
  hash is ever reported, although the comment above the set calls such vocabulary token-aware.
   */
  lemma OneShippedEntryIsDead(k: int, hash: Uint32, decode: Text -> Text, lower: Text -> Text)
    requires 0 <= k < |TARGETS| && hash in TARGETS[k].hashes
    requires LeavesCaseless(decode) && LeavesCaseless(lower)
    ensures (exists value, start :: FiresAt(POLICY, k, hash, decode(value), lower(decode(value)), start))
       <==> hash != 1_161_608_401
  {
    LiveOnStrings(POLICY, k, hash, decode, lower);
  }

  /** So pruning the shipped table takes out that hash and nothing else. */
  lemma ShippedTablePruned()
    ensures Pruned(POLICY) == Table(TARGETS[1 := Target(9, {3_847_020_951, 3_847_084_439})], SUBSTRING_TARGETS)
  {
    var pruned, expected := Pruned(POLICY).targets, TARGETS[1 := Target(9, {3_847_020_951, 3_847_084_439})];
    forall k | 0 <= k < |TARGETS|
      ensures pruned[k] == expected[k]
    {
      assert forall hash | hash in TARGETS[k].hashes :: Live(POLICY, k, hash) <==> hash != 1_161_608_401;
      assert pruned[k].hashes == expected[k].hashes;
    }
    assert pruned == expected;
  }
}
