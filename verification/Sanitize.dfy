/** The screen that runs the marker scanner over every string of a decoded JSON value. */
module Sanitize {
  import opened Prelude
  import opened BoundaryPolicy

  datatype Json =
    | Null
    | Bool(b: bool)
    | Number(n: real)
    | String(text: Text)
    | Array(items: seq<Json>)
    | Object(entries: seq<Entry>)

  datatype Entry = Entry(key: Text, value: Json)

  /** The two text functions of the platform that the scanner starts from. */
  datatype Platform = Platform(decodeEscapes: Text -> Text, toLowerCase: Text -> Text)

  predicate Prohibited(p: Platform, text: Text) {
    var decoded := p.decodeEscapes(text);
    Marked(POLICY, decoded, p.toLowerCase(decoded))
  }

  /** Only what a text decodes to counts: spellings of one text are prohibited alike. */
  lemma SpellingsAreProhibitedAlike(p: Platform, text: Text, other: Text)
    requires p.decodeEscapes(text) == p.decodeEscapes(other)
    ensures Prohibited(p, text) <==> Prohibited(p, other)
  {
  }

  /** So a spelling with escapes is prohibited exactly when the text that it spells out is. */
  lemma EscapesDoNotHide(p: Platform, escaped: Text, plain: Text)
    requires p.decodeEscapes(escaped) == plain && p.decodeEscapes(plain) == plain
    ensures Prohibited(p, escaped) <==> Prohibited(p, plain)
  {
    SpellingsAreProhibitedAlike(p, escaped, plain);
  }

  method ContainsProhibitedMarker(p: Platform, value: Text) returns (found: bool)
    ensures found <==> Prohibited(p, value)
  {
    var decoded := p.decodeEscapes(value);
    var normalized := p.toLowerCase(decoded);
    found := BoundaryPolicy.ContainsMarker(POLICY, decoded, normalized);
  }

  predicate ContainsMarker(p: Platform, value: Json) {
    match value
    case String(text) => Prohibited(p, text)
    case Array(items) => exists i | 0 <= i < |items| :: ContainsMarker(p, items[i])
    case Object(entries) =>
      exists i | 0 <= i < |entries| :: Prohibited(p, entries[i].key) || ContainsMarker(p, entries[i].value)
    case _ => false
  }

  function SanitizeWire(p: Platform, value: Json): Result<Json, string> {
    if ContainsMarker(p, value) then Err("Unsafe Cuna response.") else Ok(value)
  }

  // ----- the flat reading: walk to any node by a path of positions

  ghost function At(value: Json, path: seq<nat>): Option<Json>
    decreases path
  {
    if path == [] then Some(value)
    else match value
      case Array(items) => if path[0] < |items| then At(items[path[0]], path[1..]) else None
      case Object(entries) => if path[0] < |entries| then At(entries[path[0]].value, path[1..]) else None
      case _ => None
  }

  /** The node itself is a prohibited string or carries a prohibited key. */
  ghost predicate Offends(p: Platform, node: Json) {
    match node
    case String(text) => Prohibited(p, text)
    case Object(entries) => exists i | 0 <= i < |entries| :: Prohibited(p, entries[i].key)
    case _ => false
  }

  ghost predicate OffendsAt(p: Platform, value: Json, path: seq<nat>) {
    At(value, path).Some? && Offends(p, At(value, path).value)
  }

  lemma {:induction false} OffenceIsFound(p: Platform, value: Json, path: seq<nat>)
    requires At(value, path).Some? && ContainsMarker(p, At(value, path).value)
    ensures ContainsMarker(p, value)
    decreases path
  {
    if path != [] {
      match value
      case Array(items) => OffenceIsFound(p, items[path[0]], path[1..]);
      case Object(entries) => OffenceIsFound(p, entries[path[0]].value, path[1..]);
    }
  }

  lemma {:induction false} FindingHasAPath(p: Platform, value: Json) returns (path: seq<nat>)
    requires ContainsMarker(p, value)
    ensures OffendsAt(p, value, path)
    decreases value
  {
    path := [];
    if !Offends(p, value) {
      match value
      case Array(items) =>
        var i :| 0 <= i < |items| && ContainsMarker(p, items[i]);
        var rest := FindingHasAPath(p, items[i]);
        path := [i] + rest;
        assert path[1..] == rest;
      case Object(entries) =>
        var i :| 0 <= i < |entries| && (Prohibited(p, entries[i].key) || ContainsMarker(p, entries[i].value));
        var rest := FindingHasAPath(p, entries[i].value);
        path := [i] + rest;
        assert path[1..] == rest;
    }
  }

  /**
  A value of any depth passes unchanged iff no string and no key anywhere inside it is
  prohibited, and is refused otherwise.
   */
  lemma ScreenIsExact(p: Platform, value: Json)
    ensures SanitizeWire(p, value) == Ok(value) <==> forall path :: !OffendsAt(p, value, path)
    ensures SanitizeWire(p, value).Err? <==> exists path :: OffendsAt(p, value, path)
  {
    if ContainsMarker(p, value) {
      var path := FindingHasAPath(p, value);
      assert OffendsAt(p, value, path);
    }
    forall path | OffendsAt(p, value, path)
      ensures ContainsMarker(p, value)
    {
      OffenceIsFound(p, value, path);
    }
  }

  /** A prohibited string anywhere in a value, and a prohibited key of any object in it, has the value refused. */
  lemma StringsAndKeysAreScreened(p: Platform, value: Json, path: seq<nat>, i: nat)
    requires At(value, path).Some?
    requires match At(value, path).value
      case String(text) => Prohibited(p, text)
      case Object(entries) => i < |entries| && Prohibited(p, entries[i].key)
      case _ => false
    ensures SanitizeWire(p, value).Err?
  {
    assert ContainsMarker(p, At(value, path).value);
    OffenceIsFound(p, value, path);
  }

  /** A value that is refused is refused inside any array, and under any key of any object. */
  lemma ContainersAreScreened(p: Platform, value: Json, i: nat)
    requires match value
      case Array(items) => i < |items| && SanitizeWire(p, items[i]).Err?
      case Object(entries) => i < |entries| && SanitizeWire(p, entries[i].value).Err?
      case _ => false
    ensures SanitizeWire(p, value).Err?
  {
  }

  /** Whatever is inside a value that passed would pass on its own. */
  lemma {:induction false} PartsOfACleanValueAreClean(p: Platform, value: Json, path: seq<nat>)
    requires SanitizeWire(p, value).Ok? && At(value, path).Some?
    ensures SanitizeWire(p, At(value, path).value).Ok?
  {
    if ContainsMarker(p, At(value, path).value) {
      OffenceIsFound(p, value, path);
    }
  }
}
