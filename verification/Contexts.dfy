/**
Whether what the scanner finds in a decoded text it also finds in a larger one. The larger
text is lower-cased as a whole, and a unit may be lower-cased differently there.
 */
module Contexts {
  import opened Prelude
  import opened BoundaryPolicy
  import opened NearWindows
  import opened Words

  // ----- lower-casing

  const CAPITAL_SIGMA: CodeUnit := 0x3a3
  const FINAL_SIGMA: CodeUnit := 0x3c2
  const SMALL_SIGMA: CodeUnit := 0x3c3

  type LowSurrogate = unit: CodeUnit | 0xdc00 <= unit <= 0xdfff witness 0xdc00

  /**
  The data of `toLowerCase`: what a unit becomes by itself, which low surrogate takes the
  place of one that follows its high one, and whether a text ends in a cased letter, or
  starts with one, apart from characters that casing ignores.
   */
  datatype Casing = Casing(
    single: CodeUnit -> Text,
    low: (CodeUnit, CodeUnit) -> LowSurrogate,
    endsCased: Text -> bool,
    startsCased: Text -> bool)

  predicate IsHighSurrogate(unit: CodeUnit) {
    0xd800 <= unit <= 0xdbff
  }

  predicate IsLowSurrogate(unit: CodeUnit) {
    0xdc00 <= unit <= 0xdfff
  }

  /** A sigma here stands at the end of a word. */
  predicate IsFinal(casing: Casing, text: Text, i: nat)
    requires i < |text|
  {
    casing.endsCased(text[..i]) && !casing.startsCased(text[i + 1..])
  }

  /** What a low surrogate becomes; without a high one before it, it stays as it is. */
  function LowerLow(casing: Casing, before: Option<CodeUnit>, unit: CodeUnit): CodeUnit {
    if before.Some? && IsHighSurrogate(before.value) then casing.low(before.value, unit) else unit
  }

  /** What unit i becomes; a low surrogate looks at the unit before it, and only a sigma at the whole text. */
  function LowerUnit(casing: Casing, text: Text, i: nat): Text
    requires i < |text|
  {
    if text[i] == CAPITAL_SIGMA then [if IsFinal(casing, text, i) then FINAL_SIGMA else SMALL_SIGMA]
    else if IsLowSurrogate(text[i]) then [LowerLow(casing, CharCodeAt(text, i - 1), text[i])]
    else casing.single(text[i])
  }

  /** What the units from i up to j become. */
  function LowerPart(casing: Casing, text: Text, i: nat, j: nat): Text
    requires i <= j <= |text|
    decreases j - i
  {
    if i == j then [] else LowerPart(casing, text, i, j - 1) + LowerUnit(casing, text, j - 1)
  }

  /** `toLowerCase`. */
  function LowerCase(casing: Casing, text: Text): Text {
    LowerPart(casing, text, 0, |text|)
  }

  lemma {:induction false} PartsJoin(casing: Casing, text: Text, i: nat, j: nat, k: nat)
    requires i <= j <= k <= |text|
    ensures LowerPart(casing, text, i, k) == LowerPart(casing, text, i, j) + LowerPart(casing, text, j, k)
    decreases k - j
  {
    if j < k {
      PartsJoin(casing, text, i, j, k - 1);
    }
  }

  /** Unit i is one that becomes itself, whatever the text around it. */
  predicate Fixed(casing: Casing, text: Text, i: nat)
    requires i < |text|
  {
    text[i] != CAPITAL_SIGMA && !IsLowSurrogate(text[i]) && casing.single(text[i]) == [text[i]]
  }

  lemma {:induction false} FixedPart(casing: Casing, text: Text, i: nat, j: nat)
    requires i <= j <= |text| && forall m | i <= m < j :: Fixed(casing, text, m)
    ensures LowerPart(casing, text, i, j) == text[i..j]
    decreases j - i
  {
    if i < j {
      FixedPart(casing, text, i, j - 1);
      assert Fixed(casing, text, j - 1);
      assert text[i..j] == text[i..j - 1] + [text[j - 1]];
    }
  }

  /** Lower-casing that maps each of the ideographs to itself leaves texts of them alone. */
  lemma LowerCaseLeavesCaseless(casing: Casing)
    requires forall unit: CodeUnit | IDEOGRAPH <= unit <= IDEOGRAPH + 256 :: casing.single(unit) == [unit]
    ensures LeavesCaseless(text => LowerCase(casing, text))
  {
    forall text | Caseless(text)
      ensures LowerCase(casing, text) == text
    {
      FixedPart(casing, text, 0, |text|);
      assert text[0..|text|] == text;
    }
  }

  // ----- a text in the middle of another

  /** If unit i of the text is a sigma, it ends a word in the context if and only if it does so alone. */
  predicate SigmaAgrees(casing: Casing, left: Text, text: Text, right: Text, i: nat)
    requires i < |text|
  {
    text[i] == CAPITAL_SIGMA ==> (IsFinal(casing, left + text + right, |left| + i) <==> IsFinal(casing, text, i))
  }

  /** The text starts with a low surrogate, and what is before it ends in a high one. */
  predicate MakesPair(left: Text, text: Text) {
    left != [] && text != [] && IsHighSurrogate(left[|left| - 1]) && IsLowSurrogate(text[0])
  }

  /** A low surrogate at the start of the text stays as it is, even if the context ends in a high one. */
  predicate SeamAgrees(casing: Casing, left: Text, text: Text)
    requires text != []
  {
    IsLowSurrogate(text[0]) ==> LowerLow(casing, CharCodeAt(left, |left| - 1), text[0]) == text[0]
  }

  predicate UnitAgrees(casing: Casing, left: Text, text: Text, right: Text, i: nat)
    requires i < |text|
  {
    SigmaAgrees(casing, left, text, right, i) && (i == 0 ==> SeamAgrees(casing, left, text))
  }

  /** Every unit of the text is lower-cased in the context as it is alone. */
  predicate UnitsAgree(casing: Casing, left: Text, text: Text, right: Text) {
    forall i | 0 <= i < |text| :: UnitAgrees(casing, left, text, right, i)
  }

  /** Two units are at most this far from each other. */
  predicate AtMost(v: CodeUnit, w: CodeUnit, distance: int) {
    var before: int := v;
    -distance <= w - before <= distance
  }

  /** Unit m of the text, and the unit at that distance from i in the whole, become the same. */
  predicate SameUnits(casing: Casing, text: Text, whole: Text, i: nat, m: nat)
    requires m < |text| && i + m < |whole|
  {
    LowerUnit(casing, text, m) == LowerUnit(casing, whole, i + m)
  }

  /** They become the same, or one unit each, not far apart. */
  predicate NearUnits(casing: Casing, text: Text, whole: Text, i: nat, m: nat)
    requires m < |text| && i + m < |whole|
  {
    var alone, inside := LowerUnit(casing, text, m), LowerUnit(casing, whole, i + m);
    alone == inside || (|alone| == |inside| == 1 && AtMost(alone[0], inside[0], if m == 0 then 1023 else 1))
  }

  /** The text is lower-cased nearly alike at its place i in the whole. */
  predicate InStep(casing: Casing, text: Text, whole: Text, i: nat) {
    i + |text| <= |whole| && forall m | 0 <= m < |text| :: NearUnits(casing, text, whole, i, m)
  }

  lemma LowerUnitInContext(casing: Casing, left: Text, text: Text, right: Text, i: nat)
    requires i < |text|
    ensures NearUnits(casing, text, left + text + right, |left|, i)
    ensures SameUnits(casing, text, left + text + right, |left|, i) <==> UnitAgrees(casing, left, text, right, i)
  {
    var whole := left + text + right;
    assert whole[|left| + i] == text[i];
    if i > 0 {
      assert whole[|left| + i - 1] == text[i - 1];
    } else if left != [] {
      assert whole[|left| - 1] == left[|left| - 1];
    }
  }

  // ----- two parts in step, unit by unit and window by window

  /** Where the units that unit i becomes begin. */
  function PlaceOf(casing: Casing, text: Text, i: nat): nat
    requires i <= |text|
  {
    |LowerPart(casing, text, 0, i)|
  }

  /** Every place in what a part becomes is that of some unit. */
  lemma {:induction false} UnitAt(casing: Casing, text: Text, n: nat, place: nat) returns (i: nat)
    requires n <= |text| && place < PlaceOf(casing, text, n)
    ensures i < n && PlaceOf(casing, text, i) <= place < PlaceOf(casing, text, i) + |LowerUnit(casing, text, i)|
  {
    if place < PlaceOf(casing, text, n - 1) {
      i := UnitAt(casing, text, n - 1, place);
    } else {
      i := n - 1;
    }
  }

  predicate Stands(unit: Text, part: Text, at: nat) {
    at + |unit| <= |part| && forall j | 0 <= j < |unit| :: part[at + j] == unit[j]
  }

  lemma StandsBetween(before: Text, unit: Text, after: Text)
    ensures Stands(unit, before + unit + after, |before|)
  {
  }

  /** What unit j becomes stands after what the units from i up to j become. */
  lemma UnitStands(casing: Casing, text: Text, i: nat, j: nat, k: nat)
    requires i <= j < k <= |text|
    ensures Stands(LowerUnit(casing, text, j), LowerPart(casing, text, i, k), |LowerPart(casing, text, i, j)|)
  {
    PartsJoin(casing, text, i, j + 1, k);
    StandsBetween(LowerPart(casing, text, i, j), LowerUnit(casing, text, j), LowerPart(casing, text, j + 1, k));
  }

  /** Units stand at the same places, counted from the beginnings of the two parts. */
  lemma {:induction false} PlacesAgree(casing: Casing, text: Text, whole: Text, i: nat, n: nat)
    requires InStep(casing, text, whole, i) && n <= |text|
    ensures |LowerPart(casing, whole, i, i + n)| == PlaceOf(casing, text, n)
  {
    if n > 0 {
      PlacesAgree(casing, text, whole, i, n - 1);
      assert NearUnits(casing, text, whole, i, n - 1);
    }
  }

  /** What unit m becomes, found in the two parts at one place. */
  lemma UnitInBoth(casing: Casing, text: Text, whole: Text, i: nat, m: nat)
    requires InStep(casing, text, whole, i) && m < |text|
    ensures Stands(LowerUnit(casing, text, m), LowerCase(casing, text), PlaceOf(casing, text, m))
    ensures Stands(LowerUnit(casing, whole, i + m), LowerPart(casing, whole, i, i + |text|), PlaceOf(casing, text, m))
  {
    UnitStands(casing, text, 0, m, |text|);
    UnitStands(casing, whole, i, i + m, i + |text|);
    PlacesAgree(casing, text, whole, i, m);
  }

  /** At one place the two parts agree, or a unit that stands just there becomes different units. */
  lemma AtOnePlace(casing: Casing, text: Text, whole: Text, i: nat, place: nat) returns (m: nat)
    requires InStep(casing, text, whole, i) && place < |LowerCase(casing, text)|
    requires |LowerPart(casing, whole, i, i + |text|)| == |LowerCase(casing, text)|
    ensures m < |text|
    ensures var v, w := LowerCase(casing, text)[place], LowerPart(casing, whole, i, i + |text|)[place];
            || v == w
            || (&& PlaceOf(casing, text, m) == place && !SameUnits(casing, text, whole, i, m)
                && AtMost(v, w, if place == 0 then 1023 else 1))
  {
    m := UnitAt(casing, text, |text|, place);
    UnitInBoth(casing, text, whole, i, m);
    assert NearUnits(casing, text, whole, i, m);
    var alone, inside := LowerUnit(casing, text, m), LowerUnit(casing, whole, i + m);
    var j := place - PlaceOf(casing, text, m);
    assert LowerCase(casing, text)[place] == alone[j] && LowerPart(casing, whole, i, i + |text|)[place] == inside[j];
  }

  /** Every unit whose place is in the window becomes the same. */
  predicate WindowInStep(casing: Casing, text: Text, whole: Text, i: nat, start: nat, length: nat)
    requires i + |text| <= |whole|
  {
    forall m | 0 <= m < |text| && start <= PlaceOf(casing, text, m) < start + length ::
      SameUnits(casing, text, whole, i, m)
  }

  /** The windows at one place in two parts in step are near, and equal iff they are so unit by unit. */
  lemma WindowsCompare(casing: Casing, text: Text, whole: Text, i: nat, start: nat, length: nat)
    requires InStep(casing, text, whole, i) && start + length <= |LowerCase(casing, text)|
    ensures |LowerPart(casing, whole, i, i + |text|)| == |LowerCase(casing, text)|
    ensures var v := LowerCase(casing, text)[start..start + length];
            var w := LowerPart(casing, whole, i, i + |text|)[start..start + length];
            Near(v, w) && (v == w <==> WindowInStep(casing, text, whole, i, start, length))
  {
    PlacesAgree(casing, text, whole, i, |text|);
    var lowered, part := LowerCase(casing, text), LowerPart(casing, whole, i, i + |text|);
    var v, w := lowered[start..start + length], part[start..start + length];
    forall j | 0 <= j < length
      ensures if j == 0 then Moderate(Gap(v, w, 0)) else Small(Gap(v, w, j))
      ensures WindowInStep(casing, text, whole, i, start, length) ==> v[j] == w[j]
    {
      var m := AtOnePlace(casing, text, whole, i, start + j);
    }
    if v == w {
      forall m | 0 <= m < |text| && start <= PlaceOf(casing, text, m) < start + length
        ensures SameUnits(casing, text, whole, i, m)
      {
        EqualWindows(casing, text, whole, i, start, length, m);
      }
    }
  }

  lemma EqualWindows(casing: Casing, text: Text, whole: Text, i: nat, start: nat, length: nat, m: nat)
    requires InStep(casing, text, whole, i) && start + length <= |LowerCase(casing, text)|
    requires |LowerPart(casing, whole, i, i + |text|)| == |LowerCase(casing, text)|
    requires LowerCase(casing, text)[start..start + length]
          == LowerPart(casing, whole, i, i + |text|)[start..start + length]
    requires m < |text| && start <= PlaceOf(casing, text, m) < start + length
    ensures SameUnits(casing, text, whole, i, m)
  {
    UnitInBoth(casing, text, whole, i, m);
    assert NearUnits(casing, text, whole, i, m);
    var at, lowered, part := PlaceOf(casing, text, m), LowerCase(casing, text), LowerPart(casing, whole, i, i + |text|);
    assert lowered[at] == lowered[start..start + length][at - start];
    assert part[at] == part[start..start + length][at - start];
  }

  // ----- a text in its context

  /** What a text becomes inside a context, and what the two sides of it become there. */
  function LowerInside(casing: Casing, left: Text, text: Text, right: Text): Text {
    LowerPart(casing, left + text + right, |left|, |left| + |text|)
  }

  function LowerLeft(casing: Casing, left: Text, text: Text, right: Text): Text {
    LowerPart(casing, left + text + right, 0, |left|)
  }

  function LowerRight(casing: Casing, left: Text, text: Text, right: Text): Text {
    LowerPart(casing, left + text + right, |left| + |text|, |left + text + right|)
  }

  lemma WholeInThree(casing: Casing, left: Text, text: Text, right: Text)
    ensures LowerCase(casing, left + text + right)
         == LowerLeft(casing, left, text, right) + LowerInside(casing, left, text, right)
            + LowerRight(casing, left, text, right)
  {
    var whole := left + text + right;
    PartsJoin(casing, whole, 0, |left|, |left| + |text|);
    PartsJoin(casing, whole, 0, |left| + |text|, |whole|);
  }

  /** A text is in step with itself in any context, and a unit becomes the same there iff it agrees. */
  lemma TextIsInStep(casing: Casing, left: Text, text: Text, right: Text)
    ensures InStep(casing, text, left + text + right, |left|)
    ensures |LowerInside(casing, left, text, right)| == |LowerCase(casing, text)|
    ensures forall i | 0 <= i < |text| ::
              SameUnits(casing, text, left + text + right, |left|, i) <==> UnitAgrees(casing, left, text, right, i)
  {
    forall i | 0 <= i < |text|
      ensures NearUnits(casing, text, left + text + right, |left|, i)
      ensures SameUnits(casing, text, left + text + right, |left|, i) <==> UnitAgrees(casing, left, text, right, i)
    {
      LowerUnitInContext(casing, left, text, right, i);
    }
    PlacesAgree(casing, text, left + text + right, |left|, |text|);
  }

  /** The units whose places are in the window are lower-cased in the context as they are alone. */
  predicate WindowAgrees(casing: Casing, left: Text, text: Text, right: Text, start: nat, length: nat) {
    forall i | 0 <= i < |text| && start <= PlaceOf(casing, text, i) < start + length ::
      UnitAgrees(casing, left, text, right, i)
  }

  /** The window at a place inside the text, as the context makes it. */
  function WindowInside(casing: Casing, left: Text, text: Text, right: Text, start: nat, length: nat): (window: Text)
    requires start + length <= |LowerCase(casing, text)|
    ensures |window| == length
  {
    TextIsInStep(casing, left, text, right);
    LowerInside(casing, left, text, right)[start..start + length]
  }

  /**
  A window is made alike alone and in the context iff the units that stand in it agree; if
  it is not, the two are near.
   */
  lemma WindowInsideIff(casing: Casing, left: Text, text: Text, right: Text, start: nat, length: nat)
    requires start + length <= |LowerCase(casing, text)|
    ensures WindowInside(casing, left, text, right, start, length) == LowerCase(casing, text)[start..start + length]
       <==> WindowAgrees(casing, left, text, right, start, length)
    ensures Near(LowerCase(casing, text)[start..start + length], WindowInside(casing, left, text, right, start, length))
  {
    TextIsInStep(casing, left, text, right);
    WindowsCompare(casing, text, left + text + right, |left|, start, length);
  }

  /** A unit that does not agree becomes some unit, whose place is in the lower-cased text. */
  lemma AllInOneWindow(casing: Casing, left: Text, text: Text, right: Text)
    ensures WindowAgrees(casing, left, text, right, 0, |LowerCase(casing, text)|)
       <==> UnitsAgree(casing, left, text, right)
  {
    TextIsInStep(casing, left, text, right);
    forall i | 0 <= i < |text| && !UnitAgrees(casing, left, text, right, i)
      ensures PlaceOf(casing, text, i) < |LowerCase(casing, text)|
    {
      assert NearUnits(casing, text, left + text + right, |left|, i);
      UnitStands(casing, text, 0, i, |text|);
    }
  }

  /** A text without a sigma agrees in every context that makes no surrogate pair with it. */
  lemma SigmaFreeTextsAgree(casing: Casing, left: Text, text: Text, right: Text)
    requires CAPITAL_SIGMA !in text && !MakesPair(left, text)
    ensures UnitsAgree(casing, left, text, right)
  {
  }

  /**
  A text is lower-cased inside a context as it is alone iff each of its sigmas ends a word
  there iff it does alone and no new surrogate pair at the left seam changes its first unit.
   */
  lemma LowerInsideIff(casing: Casing, left: Text, text: Text, right: Text)
    ensures LowerInside(casing, left, text, right) == LowerCase(casing, text)
       <==> UnitsAgree(casing, left, text, right)
    ensures |LowerInside(casing, left, text, right)| == |LowerCase(casing, text)|
  {
    var lowered, inside := LowerCase(casing, text), LowerInside(casing, left, text, right);
    TextIsInStep(casing, left, text, right);
    WindowInsideIff(casing, left, text, right, 0, |lowered|);
    AllInOneWindow(casing, left, text, right);
    assert lowered[0..|lowered|] == lowered && inside[0..|lowered|] == inside;
  }

  // ----- detection inside a larger text, for any text function

  /** Whatever follows or precedes the text meets it with something other than an ASCII letter or digit. */
  predicate MeetsCleanly(left: Text, right: Text) {
    && !IsAsciiLetterOrDigit(CharCodeAt(left, |left| - 1))
    && !IsAsciiLetterOrDigit(CharCodeAt(right, 0))
  }

  /**
  A text whose lower-cased form is `lowered`, inside a text whose lower-cased form is
  `lowLeft + lowered + lowRight`. The boundary test reads the decoded text at the position
  of the lower-cased window, so a token needs those positions to agree.
   */
  lemma EmbeddedHit(table: Table, left: Text, text: Text, right: Text,
                    lowLeft: Text, lowered: Text, lowRight: Text, k: nat, start: nat)
    requires Hit(table, text, lowered, k, start)
    requires || table.targets[k].length in table.substrings
             || (MeetsCleanly(left, right) && |lowLeft| == |left| && |lowered| == |text|)
    ensures Hit(table, left + text + right, lowLeft + lowered + lowRight, k, |lowLeft| + start)
  {
    var length := table.targets[k].length;
    var at := |lowLeft| + start;
    assert (lowLeft + lowered + lowRight)[at..at + length] == lowered[start..start + length];
    if length !in table.substrings {
      assert HasTokenBoundaries(text, start, length);
      BoundariesSurvive(left, text, right, start, length);
    }
  }

  lemma BoundariesSurvive(left: Text, text: Text, right: Text, start: nat, length: Length)
    requires MeetsCleanly(left, right)
    requires start + length <= |text| && HasTokenBoundaries(text, start, length)
    ensures HasTokenBoundaries(left + text + right, |left| + start, length)
  {
    var whole := left + text + right;
    forall i | 0 <= i < |text|
      ensures CharCodeAt(whole, |left| + i) == CharCodeAt(text, i)
    {
    }
    assert left != [] ==> CharCodeAt(whole, |left| - 1) == CharCodeAt(left, |left| - 1);
    assert right != [] ==> CharCodeAt(whole, |left| + |text|) == CharCodeAt(right, 0);
  }

  /** A hit at a place in the middle is a matter of the window there and of the decoded text at that place. */
  lemma HitInTheMiddle(table: Table, decoded: Text, before: Text, middle: Text, after: Text, k: nat, start: nat)
    requires k < |table.targets| && start + table.targets[k].length <= |middle|
    ensures var target, at := table.targets[k], |before| + start;
            Hit(table, decoded, before + middle + after, k, at)
            <==> Accepts(table.substrings, target, WindowHash(middle[start..start + target.length]), decoded, at)
  {
    var at, length := |before| + start, table.targets[k].length;
    assert (before + middle + after)[at..at + length] == middle[start..start + length];
  }

  // ----- detection inside a larger text, under lower-casing

  /**
  A marked text stays marked between any two contexts that meet it cleanly, if it is
  lower-cased there as it is alone and neither it nor what is before it changes in length.
   */
  lemma MarksSurvive(table: Table, casing: Casing, left: Text, text: Text, right: Text)
    requires Marked(table, text, LowerCase(casing, text))
    requires MeetsCleanly(left, right) && UnitsAgree(casing, left, text, right)
    requires |LowerLeft(casing, left, text, right)| == |left| && |LowerCase(casing, text)| == |text|
    ensures Marked(table, left + text + right, LowerCase(casing, left + text + right))
  {
    var k: nat, start: nat :| Hit(table, text, LowerCase(casing, text), k, start);
    LowerInsideIff(casing, left, text, right);
    WholeInThree(casing, left, text, right);
    EmbeddedHit(table, left, text, right, LowerLeft(casing, left, text, right), LowerCase(casing, text),
                LowerRight(casing, left, text, right), k, start);
  }

  /** A hit that needs no token boundary survives any context in which the text is lower-cased as it is alone. */
  lemma SubstringsSurvive(table: Table, casing: Casing, left: Text, text: Text, right: Text, k: nat, start: nat)
    requires Hit(table, text, LowerCase(casing, text), k, start) && table.targets[k].length in table.substrings
    requires UnitsAgree(casing, left, text, right)
    ensures Marked(table, left + text + right, LowerCase(casing, left + text + right))
  {
    LowerInsideIff(casing, left, text, right);
    WholeInThree(casing, left, text, right);
    EmbeddedHit(table, left, text, right, LowerLeft(casing, left, text, right), LowerCase(casing, text),
                LowerRight(casing, left, text, right), k, start);
  }

  /** In any context, a hit is found again at its place exactly when the window that now stands there is accepted. */
  lemma HitSurvivesIff(table: Table, casing: Casing, left: Text, text: Text, right: Text, k: nat, start: nat)
    requires Hit(table, text, LowerCase(casing, text), k, start)
    ensures var target, at := table.targets[k], |LowerLeft(casing, left, text, right)| + start;
            var window := WindowInside(casing, left, text, right, start, target.length);
            Hit(table, left + text + right, LowerCase(casing, left + text + right), k, at)
            <==> Accepts(table.substrings, target, WindowHash(window), left + text + right, at)
  {
    LowerInsideIff(casing, left, text, right);
    WholeInThree(casing, left, text, right);
    HitInTheMiddle(table, left + text + right, LowerLeft(casing, left, text, right),
                   LowerInside(casing, left, text, right), LowerRight(casing, left, text, right), k, start);
  }

  /**
  A hit of the shipped table that needs no token boundary is found again at its place in a
  context exactly when the units in its window are lower-cased there as they are alone: no
  other window that a context can make has a hash that is listed for its length.
   */
  lemma ShippedSubstringSurvivesIff(casing: Casing, left: Text, text: Text, right: Text, k: nat, start: nat)
    requires Hit(POLICY, text, LowerCase(casing, text), k, start) && TARGETS[k].length in SUBSTRING_TARGETS
    ensures Hit(POLICY, left + text + right, LowerCase(casing, left + text + right), k,
                |LowerLeft(casing, left, text, right)| + start)
       <==> WindowAgrees(casing, left, text, right, start, TARGETS[k].length)
  {
    var length, lowered := TARGETS[k].length, LowerCase(casing, text);
    var window := WindowInside(casing, left, text, right, start, length);
    HitSurvivesIff(POLICY, casing, left, text, right, k, start);
    WindowInsideIff(casing, left, text, right, start, length);
    SubstringAcceptance(k, WindowHash(lowered[start..start + length]), text, start);
    SubstringAcceptance(k, WindowHash(window), left + text + right, |LowerLeft(casing, left, text, right)| + start);
    ShippedWindowsAreApart(lowered[start..start + length], window);
  }

  /** Where no boundary is needed, a window is accepted iff its hash is in the substring set. */
  lemma SubstringAcceptance(k: nat, hash: Uint32, decoded: Text, start: nat)
    requires k < |TARGETS| && TARGETS[k].length in SUBSTRING_TARGETS
    ensures Accepts(SUBSTRING_TARGETS, TARGETS[k], hash, decoded, start)
       <==> hash in SUBSTRING_TARGETS[TARGETS[k].length]
  {
  }

  /**
  A token is found again at its place in any context exactly when the window that now
  stands there has a listed hash and the decoded text has boundaries at its place; the hash
  is listed if the token is lower-cased there as it is alone.
   */
  lemma TokenSurvivesIff(table: Table, casing: Casing, left: Text, text: Text, right: Text, k: nat, start: nat)
    requires Hit(table, text, LowerCase(casing, text), k, start) && table.targets[k].length !in table.substrings
    ensures var target, at := table.targets[k], |LowerLeft(casing, left, text, right)| + start;
            var hash := WindowHash(WindowInside(casing, left, text, right, start, target.length));
            && (Hit(table, left + text + right, LowerCase(casing, left + text + right), k, at)
                <==> hash in target.hashes && HasTokenBoundaries(left + text + right, at, target.length))
            && (WindowAgrees(casing, left, text, right, start, target.length) ==> hash in target.hashes)
  {
    HitSurvivesIff(table, casing, left, text, right, k, start);
    WindowInsideIff(casing, left, text, right, start, table.targets[k].length);
  }

  // ----- the seams of a token

  /** The outside unit is no word unit, or the pair at the seam steps from lower case or digit to upper case. */
  predicate Separated(outside: Option<CodeUnit>, earlier: Option<CodeUnit>, later: Option<CodeUnit>) {
    IsAsciiLetterOrDigit(outside) ==> IsLowerAsciiOrDigit(earlier) && IsUpperAscii(later)
  }

  /**
  A token-aware hit on a whole text disappears exactly when a context joins it to a word:
  the text alone always has boundaries, and inside `left + text + right` it has them
  iff each side is a clean meeting or a lower-to-upper case change.
   */
  lemma TokenInContext(left: Text, text: Text, right: Text)
    requires text != []
    ensures HasTokenBoundaries(text, 0, |text|)
    ensures HasTokenBoundaries(left + text + right, |left|, |text|)
       <==> && Separated(CharCodeAt(left, |left| - 1), CharCodeAt(left, |left| - 1), CharCodeAt(text, 0))
            && Separated(CharCodeAt(right, 0), CharCodeAt(text, |text| - 1), CharCodeAt(right, 0))
  {
    var whole := left + text + right;
    assert left != [] ==> whole[|left| - 1] == left[|left| - 1];
    assert whole[|left|] == text[0] && whole[|left| + |text| - 1] == text[|text| - 1];
    assert right != [] ==> whole[|left| + |text|] == right[0];
  }
}
