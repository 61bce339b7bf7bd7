/** Texts on which the shipped table misses a token, or a substring in one context, window by window. */
module BoundaryWitnesses {
  import opened BoundaryPolicy
  import opened Contexts
  import opened Horner
  import opened Words
  import Sanitize

  /** Of the shipped lengths only the first four are below 16. */
  lemma LengthsInOrder(k: nat)
    requires k < |TARGETS|
    ensures k < 4 ==> TARGETS[k].length == [5, 9, 10, 11][k]
    ensures k >= 4 ==> TARGETS[k].length >= 16
  {
  }

  /** What Unicode says of the few characters that the texts below are made of. */
  ghost predicate AgreesWithUnicode(casing: Casing) {
    && (forall unit: CodeUnit | 0x61 <= unit <= 0x7a :: casing.single(unit) == [unit])
    && casing.single(0x20) == [0x20] && casing.single(0x65fd) == [0x65fd]
    && casing.single(0x9f67) == [0x9f67] && casing.single(0x9fa3) == [0x9fa3]
    && casing.single(0x4ed9) == [0x4ed9] && casing.single(0x4ea8) == [0x4ea8]
    && casing.single(0x4e88) == [0x4e88] && casing.single(0x4e21) == [0x4e21]
    && casing.single(0x130) == [0x69, 0x307]
    && casing.single(0xd801) == [0xd801] && casing.low(0xd801, 0xdc00) == 0xdc28
    && casing.endsCased([0x65fd, 0x9f67, 0x9fa3, 0x61])
    && casing.startsCased([0x62]) && !casing.startsCased([])
  }

  lemma LettersAreFixed(casing: Casing, text: Text, i: nat, j: nat)
    requires AgreesWithUnicode(casing) && i <= j <= |text|
    requires forall m | i <= m < j :: 0x61 <= text[m] <= 0x7a
    ensures LowerPart(casing, text, i, j) == text[i..j]
  {
    assert forall m | i <= m < j :: Fixed(casing, text, m);
    FixedPart(casing, text, i, j);
  }

  // ----- a token whose hash is listed and dead

  /** A whole token of nine units. */
  const MISSED: Text := [113, 115, 116, 121, 97, 97, 115, 106, 97]

  lemma NumberOfMissed()
    ensures ToUint32(HornerNine(MISSED, 0)) == 1_161_608_401
  {
  }

  lemma NumbersInMissed(start: nat)
    requires start <= 4
    ensures ToUint32(HornerFive(MISSED, start)) != 1_098_742_058
  {
  }

  lemma MissedNowhere(k: int, start: int)
    ensures !Hit(POLICY, MISSED, MISSED, k, start)
  {
    if Hit(POLICY, MISSED, MISSED, k, start) {
      LengthsInOrder(k);
      if k == 0 {
        HashOfFive(MISSED, start);
        NumbersInMissed(start);
      } else {
        HashOfNine(MISSED, start);
        NumberOfMissed();
      }
    }
  }

  lemma MissedIsNotMarked()
    ensures !Marked(POLICY, MISSED, MISSED)
  {
    forall k, start
      ensures !Hit(POLICY, MISSED, MISSED, k, start)
    {
      MissedNowhere(k, start);
    }
  }

  lemma HashOfMissed()
    ensures WindowHash(MISSED) == 1_161_608_401
  {
    HashOfNine(MISSED, 0);
    NumberOfMissed();
    assert MISSED[0..9] == MISSED;
  }

  /** This text is a whole token, its hash is listed for its length, and the scan does not report it. */
  lemma MissedToken()
    ensures TARGETS[1].length == |MISSED| && WindowHash(MISSED) in TARGETS[1].hashes
    ensures HasTokenBoundaries(MISSED, 0, |MISSED|)
    ensures !Marked(POLICY, MISSED, MISSED)
  {
    HashOfMissed();
    MissedIsNotMarked();
  }

  // ----- a token after a letter that grows when it is lower-cased

  const TOKEN: Text := [97, 98, 113, 113, 121, 111, 122, 122, 98, 97]

  /** A capital I with a dot, and a space. */
  const CAPITAL: Text := [0x130, 0x20]

  /** The token after these two, and in lower case. */
  const SHIFTED: Text := [0x130, 0x20, 97, 98, 113, 113, 121, 111, 122, 122, 98, 97]
  const SHIFTED_LOWER: Text := [0x69, 0x307, 0x20, 97, 98, 113, 113, 121, 111, 122, 122, 98, 97]

  lemma NumberOfToken()
    ensures ToUint32(HornerTen(TOKEN, 0)) == 2_895_058_756
  {
  }

  lemma FivesInShifted(start: nat)
    requires start <= 8
    ensures ToUint32(HornerFive(SHIFTED_LOWER, start)) != 1_098_742_058
  {
  }

  lemma NinesInShifted(start: nat)
    requires start <= 4
    ensures ToUint32(HornerNine(SHIFTED_LOWER, start)) !in {3_847_020_951, 3_847_084_439, 1_161_608_401}
  {
  }

  lemma TensInShifted(start: nat)
    requires start <= 2
    ensures ToUint32(HornerTen(SHIFTED_LOWER, start)) !in {2_179_956_528, 2_895_058_756}
  {
  }

  lemma ElevensInShifted(start: nat)
    requires start <= 2
    ensures ToUint32(HornerEleven(SHIFTED_LOWER, start)) != 3_928_627_619
  {
  }

  /** In the decoded text the window's place is one unit past the token's beginning. */
  lemma OutOfStep()
    ensures !HasTokenBoundaries(SHIFTED, 3, 10)
  {
  }

  lemma NoFiveInShifted(start: int)
    ensures !Hit(POLICY, SHIFTED, SHIFTED_LOWER, 0, start)
  {
    if 0 <= start <= 8 {
      HashOfFive(SHIFTED_LOWER, start);
      FivesInShifted(start);
    }
  }

  lemma NoNineInShifted(start: int)
    ensures !Hit(POLICY, SHIFTED, SHIFTED_LOWER, 1, start)
  {
    if 0 <= start <= 4 {
      HashOfNine(SHIFTED_LOWER, start);
      NinesInShifted(start);
    }
  }

  lemma NoTenInShifted(start: int)
    ensures !Hit(POLICY, SHIFTED, SHIFTED_LOWER, 2, start)
  {
    if 0 <= start <= 2 {
      HashOfTen(SHIFTED_LOWER, start);
      TensInShifted(start);
    } else if start == 3 {
      OutOfStep();
    }
  }

  lemma NoElevenInShifted(start: int)
    ensures !Hit(POLICY, SHIFTED, SHIFTED_LOWER, 3, start)
  {
    if 0 <= start <= 2 {
      HashOfEleven(SHIFTED_LOWER, start);
      ElevensInShifted(start);
    }
  }

  lemma ShiftedNowhere(k: int, start: int)
    ensures !Hit(POLICY, SHIFTED, SHIFTED_LOWER, k, start)
  {
    match k
    case 0 => NoFiveInShifted(start);
    case 1 => NoNineInShifted(start);
    case 2 => NoTenInShifted(start);
    case 3 => NoElevenInShifted(start);
    case _ =>
      if 0 <= k < |TARGETS| {
        LengthsInOrder(k);
      }
  }

  lemma TokenAlone()
    ensures Hit(POLICY, TOKEN, TOKEN, 2, 0)
  {
    HashOfTen(TOKEN, 0);
    NumberOfToken();
    LengthsInOrder(2);
  }

  lemma TokenIsLower(casing: Casing)
    requires AgreesWithUnicode(casing)
    ensures LowerCase(casing, TOKEN) == TOKEN
  {
    LettersAreFixed(casing, TOKEN, 0, 10);
    assert TOKEN[0..10] == TOKEN;
  }

  lemma FrontOfShifted(casing: Casing)
    requires AgreesWithUnicode(casing)
    ensures LowerPart(casing, SHIFTED, 0, 2) == [0x69, 0x307, 0x20]
  {
    assert LowerUnit(casing, SHIFTED, 0) == [0x69, 0x307] && LowerUnit(casing, SHIFTED, 1) == [0x20];
  }

  lemma RestOfShifted(casing: Casing)
    requires AgreesWithUnicode(casing)
    ensures LowerPart(casing, SHIFTED, 2, 12) == SHIFTED[2..12] == TOKEN
  {
    assert SHIFTED[2..12] == TOKEN;
    assert forall i | 2 <= i < 12 :: SHIFTED[i] == SHIFTED[2..12][i - 2];
    LettersAreFixed(casing, SHIFTED, 2, 12);
  }

  lemma ShiftedInTwo()
    ensures SHIFTED == CAPITAL + TOKEN && MeetsCleanly(CAPITAL, [])
    ensures SHIFTED_LOWER == [0x69, 0x307, 0x20] + TOKEN
  {
  }

  lemma LowerCaseOfShifted(casing: Casing)
    requires AgreesWithUnicode(casing)
    ensures LowerCase(casing, SHIFTED) == SHIFTED_LOWER
  {
    FrontOfShifted(casing);
    RestOfShifted(casing);
    PartsJoin(casing, SHIFTED, 0, 2, 12);
    ShiftedInTwo();
  }

  lemma TokenIsReported(casing: Casing)
    requires AgreesWithUnicode(casing)
    ensures Marked(POLICY, TOKEN, LowerCase(casing, TOKEN))
  {
    TokenAlone();
    TokenIsLower(casing);
  }

  lemma ShiftedIsNot(casing: Casing)
    requires AgreesWithUnicode(casing)
    ensures !Marked(POLICY, SHIFTED, LowerCase(casing, SHIFTED))
  {
    LowerCaseOfShifted(casing);
    forall k, start
      ensures !Hit(POLICY, SHIFTED, SHIFTED_LOWER, k, start)
    {
      ShiftedNowhere(k, start);
    }
  }

  /**
  The token alone is reported; after a context that meets it with a space, but is one unit
  longer in lower case, it is not.
   */
  lemma ShiftHidesAToken(casing: Casing)
    requires AgreesWithUnicode(casing)
    ensures SHIFTED == CAPITAL + TOKEN && MeetsCleanly(CAPITAL, [])
    ensures Marked(POLICY, TOKEN, LowerCase(casing, TOKEN))
    ensures !Marked(POLICY, SHIFTED, LowerCase(casing, SHIFTED))
  {
    TokenIsReported(casing);
    ShiftedIsNot(casing);
    ShiftedInTwo();
  }

  // ----- a substring whose last letter is a sigma

  /** Three ideographs, a letter and a capital sigma, which ends a word if nothing follows; and in lower case. */
  const WORD: Text := [0x65fd, 0x9f67, 0x9fa3, 0x61, 0x3a3]
  const WORD_LOWER: Text := [0x65fd, 0x9f67, 0x9fa3, 0x61, 0x3c2]

  /** The same with a letter after it. */
  const LONGER: Text := [0x65fd, 0x9f67, 0x9fa3, 0x61, 0x3a3, 0x62]
  const LONGER_LOWER: Text := [0x65fd, 0x9f67, 0x9fa3, 0x61, 0x3c3, 0x62]

  lemma FirstFourOfWord(casing: Casing, text: Text)
    requires AgreesWithUnicode(casing) && |text| >= 4
    requires text[0] == 0x65fd && text[1] == 0x9f67 && text[2] == 0x9fa3 && text[3] == 0x61
    ensures LowerPart(casing, text, 0, 4) == text[..4] == [0x65fd, 0x9f67, 0x9fa3, 0x61]
  {
    FixedPart(casing, text, 0, 4);
  }

  lemma LowerCaseOfWord(casing: Casing)
    requires AgreesWithUnicode(casing)
    ensures LowerCase(casing, WORD) == WORD_LOWER
  {
    FirstFourOfWord(casing, WORD);
    assert WORD[5..] == [];
    assert LowerUnit(casing, WORD, 4) == [FINAL_SIGMA];
  }

  lemma LowerCaseOfLonger(casing: Casing)
    requires AgreesWithUnicode(casing)
    ensures LowerCase(casing, LONGER) == LONGER_LOWER
  {
    FirstFourOfWord(casing, LONGER);
    assert LONGER[5..] == [0x62];
    assert LowerUnit(casing, LONGER, 4) == [SMALL_SIGMA] && LowerUnit(casing, LONGER, 5) == [0x62];
    assert LowerPart(casing, LONGER, 0, 5) == LowerPart(casing, LONGER, 0, 4) + [SMALL_SIGMA];
  }

  lemma NumberOfWord()
    ensures ToUint32(HornerFive(WORD_LOWER, 0)) == 1_098_742_058
  {
  }

  lemma FivesInLonger(start: nat)
    requires start <= 1
    ensures ToUint32(HornerFive(LONGER_LOWER, start)) != 1_098_742_058
  {
  }

  lemma WordAlone()
    ensures Hit(POLICY, WORD, WORD_LOWER, 0, 0)
  {
    HashOfFive(WORD_LOWER, 0);
    NumberOfWord();
    LengthsInOrder(0);
  }

  lemma LongerNowhere(k: int, start: int)
    ensures !Hit(POLICY, LONGER, LONGER_LOWER, k, start)
  {
    if Hit(POLICY, LONGER, LONGER_LOWER, k, start) {
      LengthsInOrder(k);
      HashOfFive(LONGER_LOWER, start);
      FivesInLonger(start);
    }
  }

  lemma WordIsReported(casing: Casing)
    requires AgreesWithUnicode(casing)
    ensures Marked(POLICY, WORD, LowerCase(casing, WORD))
  {
    LowerCaseOfWord(casing);
    WordAlone();
  }

  lemma LongerIsNot(casing: Casing)
    requires AgreesWithUnicode(casing)
    ensures !Marked(POLICY, LONGER, LowerCase(casing, LONGER))
  {
    LowerCaseOfLonger(casing);
    forall k, start
      ensures !Hit(POLICY, LONGER, LONGER_LOWER, k, start)
    {
      LongerNowhere(k, start);
    }
  }

  /**
  The word is reported alone, as a substring of a listed length; followed by a letter it is
  not, because its sigma no longer ends a word and becomes another unit.
   */
  lemma SigmaHidesASubstring(casing: Casing)
    requires AgreesWithUnicode(casing)
    ensures LONGER == WORD + [0x62]
    ensures Marked(POLICY, WORD, LowerCase(casing, WORD))
    ensures !Marked(POLICY, LONGER, LowerCase(casing, LONGER))
  {
    WordIsReported(casing);
    LongerIsNot(casing);
  }

  // ----- a substring whose first unit is a low surrogate

  /** A low surrogate and four ideographs, which lower-casing leaves alone. */
  const HALF: Text := [0xdc00, 0x4ed9, 0x4ea8, 0x4e88, 0x4e21]

  /** After a high surrogate the first two units are U+10400, a capital letter; and in lower case. */
  const JOINED: Text := [0xd801, 0xdc00, 0x4ed9, 0x4ea8, 0x4e88, 0x4e21]
  const JOINED_LOWER: Text := [0xd801, 0xdc28, 0x4ed9, 0x4ea8, 0x4e88, 0x4e21]

  lemma FourIdeographs(casing: Casing, text: Text, at: nat)
    requires AgreesWithUnicode(casing) && |text| == at + 4
    requires text[at] == 0x4ed9 && text[at + 1] == 0x4ea8 && text[at + 2] == 0x4e88 && text[at + 3] == 0x4e21
    ensures LowerPart(casing, text, at, at + 4) == text[at..] == [0x4ed9, 0x4ea8, 0x4e88, 0x4e21]
  {
    FixedPart(casing, text, at, at + 4);
    assert text[at..at + 4] == text[at..];
  }

  lemma LowerCaseOfHalf(casing: Casing)
    requires AgreesWithUnicode(casing)
    ensures LowerCase(casing, HALF) == HALF
  {
    FourIdeographs(casing, HALF, 1);
    PartsJoin(casing, HALF, 0, 1, 5);
    assert LowerUnit(casing, HALF, 0) == [0xdc00];
  }

  lemma LowerCaseOfJoined(casing: Casing)
    requires AgreesWithUnicode(casing)
    ensures LowerCase(casing, JOINED) == JOINED_LOWER
  {
    FourIdeographs(casing, JOINED, 2);
    PartsJoin(casing, JOINED, 0, 2, 6);
    assert LowerUnit(casing, JOINED, 0) == [0xd801] && LowerUnit(casing, JOINED, 1) == [0xdc28];
  }

  lemma NumberOfHalf()
    ensures ToUint32(HornerFive(HALF, 0)) == 1_098_742_058
  {
  }

  lemma FivesInJoined(start: nat)
    requires start <= 1
    ensures ToUint32(HornerFive(JOINED_LOWER, start)) != 1_098_742_058
  {
  }

  lemma HalfIsHit()
    ensures Hit(POLICY, HALF, HALF, 0, 0)
  {
    HashOfFive(HALF, 0);
    NumberOfHalf();
    LengthsInOrder(0);
  }

  lemma HalfIsReported(casing: Casing)
    requires AgreesWithUnicode(casing)
    ensures Marked(POLICY, HALF, LowerCase(casing, HALF))
  {
    LowerCaseOfHalf(casing);
    HalfIsHit();
  }

  lemma JoinedNowhere(k: int, start: int)
    ensures !Hit(POLICY, JOINED, JOINED_LOWER, k, start)
  {
    if Hit(POLICY, JOINED, JOINED_LOWER, k, start) {
      LengthsInOrder(k);
      HashOfFive(JOINED_LOWER, start);
      FivesInJoined(start);
    }
  }

  lemma JoinedIsNot(casing: Casing)
    requires AgreesWithUnicode(casing)
    ensures !Marked(POLICY, JOINED, LowerCase(casing, JOINED))
  {
    LowerCaseOfJoined(casing);
    forall k, start
      ensures !Hit(POLICY, JOINED, JOINED_LOWER, k, start)
    {
      JoinedNowhere(k, start);
    }
  }

  lemma JoinedInTwo()
    ensures JOINED == [0xd801] + HALF && CAPITAL_SIGMA !in HALF
  {
  }

  /**
  The text is reported alone, as a substring of a listed length; after a high surrogate it
  is not, because the two make a capital letter.
   */
  lemma PairHidesASubstring(casing: Casing)
    requires AgreesWithUnicode(casing)
    ensures JOINED == [0xd801] + HALF && CAPITAL_SIGMA !in HALF
    ensures Marked(POLICY, HALF, LowerCase(casing, HALF))
    ensures !Marked(POLICY, JOINED, LowerCase(casing, JOINED))
  {
    JoinedInTwo();
    HalfIsReported(casing);
    JoinedIsNot(casing);
  }

  // ----- through the screen, from the text as it arrives

  /** The token as part of a name with a capital inside, and in lower case. */
  const NAME: Text := [120, 65, 98, 113, 113, 121, 111, 122, 122, 98, 97]
  const NAME_LOWER: Text := [120, 97, 98, 113, 113, 121, 111, 122, 122, 98, 97]

  lemma NameIsHit()
    ensures Hit(POLICY, NAME, NAME_LOWER, 2, 1)
  {
    HashOfTen(NAME_LOWER, 1);
    NumberInName();
    LengthsInOrder(2);
    NameHasBoundaries();
  }

  lemma NumberInName()
    ensures ToUint32(HornerTen(NAME_LOWER, 1)) == 2_895_058_756
  {
  }

  /** The capital opens a token in the name as it was written; in lower case nothing would. */
  lemma NameHasBoundaries()
    ensures HasTokenBoundaries(NAME, 1, 10) && !HasTokenBoundaries(NAME_LOWER, 1, 10)
  {
  }

  /**
  However a text is escaped, the screen decides on what it decodes to: it refuses every
  spelling of a text that is reported, and lets every spelling of one pass that is not. The
  hashes are those of the lower-cased form, the boundaries those of the decoded one.
   */
  lemma SpellingsAreScreened(p: Sanitize.Platform, spelling: Text)
    ensures p.decodeEscapes(spelling) == HALF && p.toLowerCase(HALF) == HALF ==>
              Sanitize.Prohibited(p, spelling) && Sanitize.SanitizeWire(p, Sanitize.String(spelling)).Err?
    ensures p.decodeEscapes(spelling) == MISSED && p.toLowerCase(MISSED) == MISSED ==>
              !Sanitize.Prohibited(p, spelling) && Sanitize.SanitizeWire(p, Sanitize.String(spelling)).Ok?
    ensures p.decodeEscapes(spelling) == NAME && p.toLowerCase(NAME) == NAME_LOWER ==>
              Sanitize.Prohibited(p, spelling)
  {
    HalfIsHit();
    MissedIsNotMarked();
    NameIsHit();
  }
}
