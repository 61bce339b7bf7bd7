/** The excluded prefixes of a workspace binding: which texts are accepted, and which lexical locations they name. */
module WorkspaceBindings {
  import opened Prelude
  import opened BoundaryPolicy

  const SLASH: CodeUnit := 0x2f
  const BACKSLASH: CodeUnit := 0x5c
  const DOT: CodeUnit := 0x2e
  const COLON: CodeUnit := 0x3a

  /** The code units that separate and name components, as they are printed. */
  lemma Separators()
    ensures SLASH == '/' as int && BACKSLASH == '\\' as int && DOT == '.' as int && COLON == ':' as int
  {
  }

  // ----- splitting and joining

  /** `value.split("/")`. */
  function Split(value: Text): (parts: seq<Text>)
    ensures parts != []
  {
    if value == [] then [[]]
    else
      var rest := Split(value[1..]);
      if value[0] == SLASH then [[]] + rest else [[value[0]] + rest[0]] + rest[1..]
  }

  function Join(parts: seq<Text>): Text
    requires parts != []
  {
    if |parts| == 1 then parts[0] else parts[0] + [SLASH] + Join(parts[1..])
  }

  /** Joining the parts gives the text back; hence no two texts split alike. */
  lemma {:induction false} JoinSplit(value: Text)
    ensures Join(Split(value)) == value
  {
    if value != [] {
      JoinSplit(value[1..]);
      var rest := Split(value[1..]);
      if value[0] == SLASH {
        assert Split(value)[1..] == rest;
      } else if |rest| > 1 {
        assert Split(value)[1..] == rest[1..];
      }
    }
  }

  predicate SlashFree(parts: seq<Text>) {
    forall i | 0 <= i < |parts| :: SLASH !in parts[i]
  }

  lemma {:induction false} SplitIsSlashFree(value: Text)
    ensures SlashFree(Split(value))
  {
    if value != [] {
      SplitIsSlashFree(value[1..]);
    }
  }

  lemma {:induction false} SplitPart(part: Text, value: Text)
    requires SLASH !in part
    ensures Split(part) == [part]
    ensures Split(part + [SLASH] + value) == [part] + Split(value)
  {
    if part == [] {
      assert ([SLASH] + value)[1..] == value;
      assert part + [SLASH] + value == [SLASH] + value;
    } else {
      SplitPart(part[1..], value);
      var whole := part + [SLASH] + value;
      assert whole[1..] == part[1..] + [SLASH] + value;
      assert part == [part[0]] + part[1..];
    }
  }

  /** Splitting gives back any slash-free parts that were joined. */
  lemma {:induction false} SplitJoin(parts: seq<Text>)
    requires parts != [] && SlashFree(parts)
    ensures Split(Join(parts)) == parts
  {
    if |parts| == 1 {
      SplitPart(parts[0], []);
    } else {
      SplitJoin(parts[1..]);
      SplitPart(parts[0], Join(parts[1..]));
    }
  }

  lemma SplitIsInjective(value: Text, other: Text)
    ensures Split(value) == Split(other) <==> value == other
  {
    JoinSplit(value);
    JoinSplit(other);
  }

  // ----- lexical resolution

  /** One component applied to a directory: stay, go up (not above the top), or go one level down. */
  function Enter(at: seq<Text>, part: Text): seq<Text> {
    if part == [] || part == [DOT] then at
    else if part == [DOT, DOT] then (if at == [] then [] else at[..|at| - 1])
    else at + [part]
  }

  /** Resolves a list of components under a root. */
  function Walk(root: seq<Text>, parts: seq<Text>): seq<Text> {
    if parts == [] then root else Enter(Walk(root, parts[..|parts| - 1]), parts[|parts| - 1])
  }

  predicate IsSpecial(part: Text) {
    part == [] || part == [DOT] || part == [DOT, DOT]
  }

  predicate NoSpecials(parts: seq<Text>) {
    forall i | 0 <= i < |parts| :: !IsSpecial(parts[i])
  }

  lemma {:induction false} WalkDepth(root: seq<Text>, parts: seq<Text>)
    ensures |Walk(root, parts)| <= |root| + |parts|
    ensures |Walk(root, parts)| == |root| + |parts| <==> NoSpecials(parts)
    ensures NoSpecials(parts) ==> Walk(root, parts) == root + parts
  {
    if parts != [] {
      var front := parts[..|parts| - 1];
      WalkDepth(root, front);
      assert parts == front + [parts[|parts| - 1]];
      assert NoSpecials(parts) <==> NoSpecials(front) && !IsSpecial(parts[|parts| - 1]);
    }
  }

  /** Components lead straight down from a root exactly when none is empty, `.` or `..`. */
  lemma StraightDownIff(root: seq<Text>, parts: seq<Text>)
    ensures Walk(root, parts) == root + parts <==> NoSpecials(parts)
  {
    WalkDepth(root, parts);
  }

  /** A component leads one level down, `.` stays there, and `..` leads back up. */
  lemma DotsStayAndReturn(root: seq<Text>, parts: seq<Text>, part: Text)
    requires !IsSpecial(part)
    ensures var deeper := Walk(root, parts + [part]);
            && deeper == Walk(root, parts) + [part]
            && Walk(root, parts + [part] + [[DOT]]) == deeper
            && Walk(root, parts + [part] + [[DOT, DOT]]) == Walk(root, parts)
  {
    assert (parts + [part])[..|parts|] == parts;
    assert (parts + [part] + [[DOT]])[..|parts| + 1] == parts + [part];
    assert (parts + [part] + [[DOT, DOT]])[..|parts| + 1] == parts + [part];
  }

  // ----- accepted prefixes

  predicate IsControl(c: CodeUnit) {
    c <= 0x1f || c == 0x7f
  }

  predicate HasDriveLetter(value: Text) {
    var first := CharCodeAt(value, 0);
    |value| >= 2 && IsAsciiLetterOrDigit(first) && !IsDigit(first) && value[1] == COLON
  }

  datatype RequestError = InvalidBindingRequest

  /** `canonicalPrefix`. */
  function CanonicalPrefix(value: Text): Result<Text, RequestError> {
    if |value| < 1 || |value| > 4096 || value[0] == SLASH || value[0] == BACKSLASH || BACKSLASH in value
       || (exists c | c in value :: IsControl(c))
       || (exists part | part in Split(value) :: IsSpecial(part))
       || HasDriveLetter(value)
    then Err(InvalidBindingRequest)
    else Ok(value)
  }

  /** Nothing but the way its components resolve could still count against the text. */
  predicate PlainText(value: Text) {
    var first := CharCodeAt(value, 0);
    && 1 <= |value| <= 4096 && BACKSLASH !in value
    && (|value| >= 2 && value[1] == COLON ==>
          !IsUpperAscii(first) && (IsLowerAsciiOrDigit(first) ==> IsDigit(first)))
    && forall c | c in value :: 0x20 <= c && c != 0x7f
  }

  lemma NoSpecialsIff(parts: seq<Text>)
    ensures NoSpecials(parts) <==> !exists part | part in parts :: IsSpecial(part)
  {
    assert forall i | 0 <= i < |parts| :: parts[i] in parts;
  }

  /** A prefix is accepted, unchanged, iff it is plain and its components lead straight down from every root. */
  lemma CanonicalIffStraightDown(value: Text)
    ensures CanonicalPrefix(value) == Ok(value)
       <==> PlainText(value) && forall root :: Walk(root, Split(value)) == root + Split(value)
    ensures CanonicalPrefix(value).Ok? ==> CanonicalPrefix(value).value == value
  {
    var parts := Split(value);
    NoSpecialsIff(parts);
    if value != [] && value[0] == SLASH {
      assert parts[0] == [];
    }
    assert CanonicalPrefix(value).Ok? <==> PlainText(value) && NoSpecials(parts);
    if NoSpecials(parts) {
      forall root
        ensures Walk(root, Split(value)) == root + Split(value)
      {
        StraightDownIff(root, parts);
      }
    } else {
      StraightDownIff([], parts);
      assert Walk([], Split(value)) != [] + Split(value);
    }
  }

  /**
  Step by step an accepted prefix goes exactly one level deeper and never leaves its root;
  resolved at the top it is its own normal form.
   */
  lemma AcceptedPrefixDescends(value: Text, root: seq<Text>, n: nat)
    requires CanonicalPrefix(value).Ok? && n <= |Split(value)|
    ensures Walk(root, Split(value)[..n]) == root + Split(value)[..n]
    ensures Walk([], Split(value)) != [] && Join(Walk([], Split(value))) == value
  {
    var parts := Split(value);
    NoSpecialsIff(parts);
    StraightDownIff(root, parts[..n]);
    StraightDownIff([], parts);
    assert [] + parts == parts;
    JoinSplit(value);
  }

  /** Accepted prefixes name the same location only if they are the same text. */
  lemma DistinctPrefixesDistinctLocations(value: Text, other: Text, root: seq<Text>)
    requires CanonicalPrefix(value).Ok? && CanonicalPrefix(other).Ok?
    ensures Walk(root, Split(value)) == Walk(root, Split(other)) <==> value == other
  {
    AcceptedPrefixDescends(value, root, |Split(value)|);
    AcceptedPrefixDescends(other, root, |Split(other)|);
    assert Split(value)[..|Split(value)|] == Split(value) && Split(other)[..|Split(other)|] == Split(other);
    assert (root + Split(value))[|root|..] == Split(value) && (root + Split(other))[|root|..] == Split(other);
    SplitIsInjective(value, other);
  }

  // ----- the list of a create request

  /** `new Set(values)`. */
  function Elements(values: seq<Text>): set<Text> {
    set value | value in values
  }

  /** The list is short enough, canonical throughout, and `new Set(prefixes)` is as large as the list. */
  function AcceptPrefixes(values: seq<Text>): Result<seq<Text>, RequestError> {
    if |values| > 10_000 || (exists value | value in values :: CanonicalPrefix(value).Err?)
    then Err(InvalidBindingRequest)
    else if |Elements(values)| != |values| then Err(InvalidBindingRequest)
    else Ok(values)
  }

  predicate Distinct(values: seq<Text>) {
    forall i, j | 0 <= i < j < |values| :: values[i] != values[j]
  }

  lemma OneMoreElement(values: seq<Text>, last: Text)
    ensures Elements(values + [last]) == Elements(values) + {last}
    ensures |Elements(values + [last])| == |Elements(values)| + if last in values then 0 else 1
  {
    assert Elements(values + [last]) == Elements(values) + {last};
    if last in values {
      assert Elements(values) + {last} == Elements(values);
    }
  }

  lemma DistinctSnoc(values: seq<Text>, last: Text)
    ensures Distinct(values + [last]) <==> Distinct(values) && last !in values
  {
    var longer := values + [last];
    if Distinct(longer) {
      assert forall i | 0 <= i < |values| :: values[i] == longer[i];
      assert forall i | 0 <= i < |values| :: longer[i] != longer[|values|];
    }
  }

  lemma {:induction false} SetSize(values: seq<Text>)
    ensures |Elements(values)| <= |values|
    ensures |Elements(values)| == |values| <==> Distinct(values)
  {
    if values == [] {
      assert Elements(values) == {};
    } else {
      var front, last := values[..|values| - 1], values[|values| - 1];
      SetSize(front);
      OneMoreElement(front, last);
      DistinctSnoc(front, last);
      assert values == front + [last];
    }
  }

  /**
  A list is accepted iff it is not too long, each prefix is canonical, and no two of them
  resolve to one location.
   */
  lemma AcceptedListIff(values: seq<Text>, root: seq<Text>)
    ensures AcceptPrefixes(values) == Ok(values)
       <==> && |values| <= 10_000
            && (forall value | value in values :: CanonicalPrefix(value).Ok?)
            && forall i, j | 0 <= i < j < |values| :: Walk(root, Split(values[i])) != Walk(root, Split(values[j]))
  {
    SetSize(values);
    if forall value | value in values :: CanonicalPrefix(value).Ok? {
      forall i, j | 0 <= i < j < |values|
        ensures Walk(root, Split(values[i])) == Walk(root, Split(values[j])) <==> values[i] == values[j]
      {
        DistinctPrefixesDistinctLocations(values[i], values[j], root);
      }
    }
  }
}
