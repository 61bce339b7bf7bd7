/**
Canonical base64 (sections 3.5 and 4 of RFC 4648) as a downloaded sync chunk must be
written, and the decoder of that chunk.
 */
module Base64 {
  import opened Prelude
  import opened BodyReader

  type Sextet = v: int | 0 <= v < 64

  // ----- the alphabet

  predicate IsAlphabet(c: char) {
    'A' <= c <= 'Z' || 'a' <= c <= 'z' || '0' <= c <= '9' || c == '+' || c == '/'
  }

  /** Table 1 of RFC 4648. */
  function CharOf(v: Sextet): (c: char)
    ensures IsAlphabet(c) && SextetOf(c) == v
  {
    if v < 26 then ('A' as int + v) as char
    else if v < 52 then ('a' as int + (v - 26)) as char
    else if v < 62 then ('0' as int + (v - 52)) as char
    else if v == 62 then '+'
    else '/'
  }

  function SextetOf(c: char): Sextet
    requires IsAlphabet(c)
  {
    if 'A' <= c <= 'Z' then c as int - 'A' as int
    else if 'a' <= c <= 'z' then c as int - 'a' as int + 26
    else if '0' <= c <= '9' then c as int - '0' as int + 52
    else if c == '+' then 62
    else 63
  }

  const UPPER := "ABCDEFGHIJKLMNOPQRSTUVWXYZ"
  const LOWER := "abcdefghijklmnopqrstuvwxyz"
  const DIGITS := "0123456789"

  /** The 64 characters as table 1 prints them, in order of value. */
  const TABLE_1 := UPPER + LOWER + DIGITS + "+/"

  /** The arithmetic on character codes spells the printed table. */
  lemma AlphabetIsTable1(v: Sextet)
    ensures |TABLE_1| == 64 && CharOf(v) == TABLE_1[v]
  {
  }

  lemma CharOfSextet(c: char)
    requires IsAlphabet(c)
    ensures CharOf(SextetOf(c)) == c
  {
  }

  // ----- groups of one, two and three bytes

  function Group3(a: Byte, b: Byte, c: Byte): string {
    [CharOf(a / 4), CharOf(a % 4 * 16 + b / 16), CharOf(b % 16 * 4 + c / 64), CharOf(c % 64)]
  }

  function Group2(a: Byte, b: Byte): string {
    [CharOf(a / 4), CharOf(a % 4 * 16 + b / 16), CharOf(b % 16 * 4), '=']
  }

  function Group1(a: Byte): string {
    [CharOf(a / 4), CharOf(a % 4 * 16), '=', '=']
  }

  /** `buffer.toString("base64")`. */
  function Encode(bytes: seq<Byte>): string {
    if bytes == [] then ""
    else if |bytes| == 1 then Group1(bytes[0])
    else if |bytes| == 2 then Group2(bytes[0], bytes[1])
    else Group3(bytes[0], bytes[1], bytes[2]) + Encode(bytes[3..])
  }

  // ----- the shape the decoder insists on, and decoding

  predicate AllAlphabet(s: string) {
    forall i | 0 <= i < |s| :: IsAlphabet(s[i])
  }

  predicate PaddedGroup(s: string) {
    |s| == 4 && s[3] == '=' && IsAlphabet(s[0]) && IsAlphabet(s[1]) && (s[2] == '=' || IsAlphabet(s[2]))
  }

  /** The shape regex: full groups of four, then at most one padded group. */
  predicate Shape(s: string) {
    || s == ""
    || PaddedGroup(s)
    || (|s| >= 4 && AllAlphabet(s[..4]) && Shape(s[4..]))
  }

  /** `Buffer.from(s, "base64")` on a text of that shape: surplus bits are dropped. */
  function Decode(s: string): seq<Byte>
    requires Shape(s)
  {
    if s == "" then []
    else if s[2] == '=' then [FirstByte(SextetOf(s[0]), SextetOf(s[1]))]
    else if s[3] == '=' then
      [FirstByte(SextetOf(s[0]), SextetOf(s[1])), SecondByte(SextetOf(s[1]), SextetOf(s[2]))]
    else
      [FirstByte(SextetOf(s[0]), SextetOf(s[1])), SecondByte(SextetOf(s[1]), SextetOf(s[2])),
       ThirdByte(SextetOf(s[2]), SextetOf(s[3]))]
      + Decode(s[4..])
  }

  function FirstByte(p: Sextet, q: Sextet): Byte {
    var high: int := p;
    high * 4 + q / 16
  }

  function SecondByte(q: Sextet, r: Sextet): Byte {
    var middle: int := q % 16;
    middle * 16 + r / 4
  }

  function ThirdByte(r: Sextet, t: Sextet): Byte {
    var low: int := r % 4;
    low * 64 + t
  }

  /** The sextets of a group give its bytes back. */
  lemma BytesOfGroup(a: Byte, b: Byte, c: Byte)
    ensures FirstByte(a / 4, a % 4 * 16 + b / 16) == a
    ensures SecondByte(a % 4 * 16 + b / 16, b % 16 * 4 + c / 64) == b
    ensures ThirdByte(b % 16 * 4 + c / 64, c % 64) == c
  {
  }

  /** Four characters of the alphabet in front of a text are a full group of it. */
  lemma GroupInFront(group: string, rest: string)
    requires |group| == 4 && AllAlphabet(group) && Shape(rest)
    ensures Shape(group + rest)
    ensures Decode(group + rest)
         == [FirstByte(SextetOf(group[0]), SextetOf(group[1])), SecondByte(SextetOf(group[1]), SextetOf(group[2])),
             ThirdByte(SextetOf(group[2]), SextetOf(group[3]))]
            + Decode(rest)
  {
    var s := group + rest;
    assert s[..4] == group && s[4..] == rest;
  }

  lemma DecodeThreeMore(a: Byte, b: Byte, c: Byte, rest: string)
    requires Shape(rest)
    ensures Shape(Group3(a, b, c) + rest) && Decode(Group3(a, b, c) + rest) == [a, b, c] + Decode(rest)
  {
    GroupInFront(Group3(a, b, c), rest);
    BytesOfGroup(a, b, c);
  }

  /** A padded group has one byte, or two. */
  lemma PaddedGroupAlone(group: string)
    requires PaddedGroup(group)
    ensures Decode(group)
         == [FirstByte(SextetOf(group[0]), SextetOf(group[1]))]
            + if group[2] == '=' then [] else [SecondByte(SextetOf(group[1]), SextetOf(group[2]))]
  {
  }

  lemma DecodeShort(a: Byte, b: Byte)
    ensures Decode(Group1(a)) == [a] && Decode(Group2(a, b)) == [a, b]
  {
    PaddedGroupAlone(Group1(a));
    PaddedGroupAlone(Group2(a, b));
    BytesOfGroup(a, 0, 0);
    BytesOfGroup(a, b, 0);
  }

  lemma EncodeThreeMore(a: Byte, b: Byte, c: Byte, rest: seq<Byte>)
    ensures Encode([a, b, c] + rest) == Group3(a, b, c) + Encode(rest)
  {
    assert ([a, b, c] + rest)[3..] == rest;
  }

  lemma RoundTripThreeMore(a: Byte, b: Byte, c: Byte, rest: seq<Byte>)
    requires Shape(Encode(rest)) && Decode(Encode(rest)) == rest
    ensures Shape(Encode([a, b, c] + rest)) && Decode(Encode([a, b, c] + rest)) == [a, b, c] + rest
  {
    EncodeThreeMore(a, b, c, rest);
    DecodeThreeMore(a, b, c, Encode(rest));
  }

  lemma FirstThree(bytes: seq<Byte>)
    requires |bytes| >= 3
    ensures bytes == [bytes[0], bytes[1], bytes[2]] + bytes[3..]
  {
  }

  /** Decoding undoes encoding, for all bytes. */
  lemma {:induction false} DecodeEncode(bytes: seq<Byte>)
    ensures Shape(Encode(bytes)) && Decode(Encode(bytes)) == bytes
  {
    if |bytes| >= 3 {
      DecodeEncode(bytes[3..]);
      FirstThree(bytes);
      RoundTripThreeMore(bytes[0], bytes[1], bytes[2], bytes[3..]);
    } else if |bytes| > 0 {
      DecodeShort(bytes[0], bytes[|bytes| - 1]);
    }
  }

  /** The groups of the examples in section 10 of RFC 4648. */
  lemma GroupsOfSection10()
    ensures Group1(0x66) == "Zg==" && Group2(0x66, 0x6f) == "Zm8="
    ensures Group3(0x66, 0x6f, 0x6f) == "Zm9v" && Group3(0x62, 0x61, 0x72) == "YmFy"
  {
  }

  /** "foo" and any bytes after it. */
  lemma FooAndMore(rest: seq<Byte>)
    ensures Encode([0x66, 0x6f, 0x6f] + rest) == "Zm9v" + Encode(rest)
  {
    GroupsOfSection10();
    EncodeThreeMore(0x66, 0x6f, 0x6f, rest);
  }

  /** The bytes of "bar". */
  lemma Bar()
    ensures Encode([0x62, 0x61, 0x72]) == "YmFy"
  {
    GroupsOfSection10();
    EncodeThreeMore(0x62, 0x61, 0x72, []);
    assert [0x62, 0x61, 0x72] + [] == [0x62, 0x61, 0x72];
  }

  /** The examples of section 10 of RFC 4648: "", "f", "fo", "foo" and "foobar". */
  lemma Section10()
    ensures Encode([]) == "" && Encode([0x66]) == "Zg==" && Encode([0x66, 0x6f]) == "Zm8="
    ensures Encode([0x66, 0x6f, 0x6f]) == "Zm9v"
    ensures Encode([0x66, 0x6f, 0x6f] + [0x62, 0x61, 0x72]) == "Zm9v" + "YmFy"
  {
    GroupsOfSection10();
    Bar();
    FooAndMore([0x62, 0x61, 0x72]);
    FooAndMore([]);
    assert [0x66, 0x6f, 0x6f] + [] == [0x66, 0x6f, 0x6f];
  }

  // ----- canonical texts

  /** The bits that padding leaves unused in the last group are zero. */
  predicate ZeroPadBits(s: string)
    requires Shape(s)
  {
    if |s| < 4 then true
    else
      var last := s[|s| - 4..];
      ShapeOfLast(s);
      (last[2] == '=' ==> SextetOf(last[1]) % 16 == 0)
      && (last[2] != '=' && last[3] == '=' ==> SextetOf(last[2]) % 4 == 0)
  }

  lemma {:induction false} ShapeOfLast(s: string)
    requires Shape(s) && |s| >= 4
    ensures var last := s[|s| - 4..];
            Shape(last) && (PaddedGroup(last) || AllAlphabet(last))
    decreases |s|
  {
    if !PaddedGroup(s) && |s| > 4 {
      ShapeHasFours(s[4..]);
      ShapeOfLast(s[4..]);
      assert s[4..][|s| - 8..] == s[|s| - 4..];
    } else {
      assert s[|s| - 4..] == s;
      assert s[4..] == "";
      assert !PaddedGroup(s) ==> s[..4] == s;
    }
  }

  lemma {:induction false} ShapeHasFours(s: string)
    requires Shape(s)
    ensures |s| % 4 == 0
  {
    if |s| >= 4 && !PaddedGroup(s) {
      ShapeHasFours(s[4..]);
    }
  }

  /** The re-encode check. */
  predicate Canonical(s: string) {
    Shape(s) && Encode(Decode(s)) == s
  }

  /** The accepted texts are exactly the encodings. */
  lemma CanonicalIsImage(s: string)
    ensures Canonical(s) <==> exists bytes :: s == Encode(bytes)
  {
    if Canonical(s) {
      assert s == Encode(Decode(s));
    }
    forall bytes | s == Encode(bytes)
      ensures Canonical(s)
    {
      DecodeEncode(bytes);
    }
  }

  /** Four sextets make three bytes, and these make the same four sextets again. */
  lemma GroupRoundTrip(p: Sextet, q: Sextet, r: Sextet, t: Sextet)
    ensures Group3(FirstByte(p, q), SecondByte(q, r), ThirdByte(r, t)) == [CharOf(p), CharOf(q), CharOf(r), CharOf(t)]
  {
    var a, b, c := FirstByte(p, q), SecondByte(q, r), ThirdByte(r, t);
    assert a / 4 == p && a % 4 * 16 + b / 16 == q && b % 16 * 4 + c / 64 == r && c % 64 == t;
  }

  /** Four characters of the alphabet are how some three bytes are written. */
  lemma GroupOfBytes(group: string) returns (a: Byte, b: Byte, c: Byte)
    requires |group| == 4 && AllAlphabet(group)
    ensures a == FirstByte(SextetOf(group[0]), SextetOf(group[1]))
    ensures b == SecondByte(SextetOf(group[1]), SextetOf(group[2]))
    ensures c == ThirdByte(SextetOf(group[2]), SextetOf(group[3]))
    ensures group == Group3(a, b, c)
  {
    var p, q, r, t := SextetOf(group[0]), SextetOf(group[1]), SextetOf(group[2]), SextetOf(group[3]);
    a, b, c := FirstByte(p, q), SecondByte(q, r), ThirdByte(r, t);
    GroupRoundTrip(p, q, r, t);
    CharOfSextet(group[0]);
    CharOfSextet(group[1]);
    CharOfSextet(group[2]);
    CharOfSextet(group[3]);
  }

  lemma DecodeFullGroup(s: string) returns (a: Byte, b: Byte, c: Byte)
    requires Shape(s) && |s| >= 4 && AllAlphabet(s[..4])
    ensures Shape(s[4..])
    ensures Decode(s) == [a, b, c] + Decode(s[4..]) && s[..4] == Group3(a, b, c)
  {
    assert s[..4][3] == s[3];
    a, b, c := GroupOfBytes(s[..4]);
    GroupInFront(s[..4], s[4..]);
    assert s == s[..4] + s[4..];
  }

  /** A full group in front makes no difference to whether a text is canonical. */
  lemma FullGroupIsCanonical(s: string)
    requires Shape(s) && |s| >= 4 && AllAlphabet(s[..4])
    ensures Shape(s[4..]) && (Canonical(s) <==> Canonical(s[4..]))
  {
    var a, b, c := DecodeFullGroup(s);
    var rest := s[4..];
    EncodeThreeMore(a, b, c, Decode(rest));
    SameAfterPrefix(s[..4], Encode(Decode(rest)), rest);
    assert s == s[..4] + rest;
  }

  lemma ShortGroupsRoundTrip(p: Sextet, q: Sextet, r: Sextet)
    ensures var a, b := FirstByte(p, q), SecondByte(q, r);
            && Group1(a)[0] == Group2(a, b)[0] == CharOf(p)
            && (Group1(a)[1] == CharOf(q) <==> q % 16 == 0)
            && Group2(a, b)[1] == CharOf(q)
            && (Group2(a, b)[2] == CharOf(r) <==> r % 4 == 0)
  {
    var a, b := FirstByte(p, q), SecondByte(q, r);
    assert a / 4 == p && a % 4 * 16 + b / 16 == q;
    assert a % 4 * 16 == q <==> q % 16 == 0;
    assert b % 16 * 4 == r <==> r % 4 == 0;
  }

  lemma PaddedGroupRoundTrip(s: string)
    requires PaddedGroup(s)
    ensures Canonical(s) <==> ZeroPadBits(s)
  {
    assert s[|s| - 4..] == s;
    CharOfSextet(s[0]);
    CharOfSextet(s[1]);
    var p, q := SextetOf(s[0]), SextetOf(s[1]);
    var a := FirstByte(p, q);
    if s[2] == '=' {
      ShortGroupsRoundTrip(p, q, 0);
      assert Encode(Decode(s)) == Group1(a);
    } else {
      CharOfSextet(s[2]);
      var r := SextetOf(s[2]);
      ShortGroupsRoundTrip(p, q, r);
      assert Encode(Decode(s)) == Group2(a, SecondByte(q, r));
    }
  }

  lemma PadBitsOfRest(s: string)
    requires Shape(s) && s != "" && !PaddedGroup(s)
    ensures Shape(s[4..]) && (ZeroPadBits(s) <==> ZeroPadBits(s[4..]))
  {
    var rest := s[4..];
    ShapeHasFours(rest);
    if |rest| >= 4 {
      assert rest[|rest| - 4..] == s[|s| - 4..];
    } else {
      var last := s[|s| - 4..];
      assert last == s[..4];
      assert IsAlphabet(last[2]) && IsAlphabet(last[3]);
    }
  }

  lemma SameAfterPrefix(prefix: string, x: string, y: string)
    ensures prefix + x == prefix + y <==> x == y
  {
    assert (prefix + x)[|prefix|..] == x && (prefix + y)[|prefix|..] == y;
  }

  /** A text of the right shape passes the re-encode check exactly when its pad bits are zero. */
  lemma {:induction false} CanonicalIffZeroPadBits(s: string)
    requires Shape(s)
    ensures Canonical(s) <==> ZeroPadBits(s)
  {
    if PaddedGroup(s) {
      PaddedGroupRoundTrip(s);
    } else if s != "" {
      FullGroupIsCanonical(s);
      PadBitsOfRest(s);
      CanonicalIffZeroPadBits(s[4..]);
    }
  }

  // ----- sizes and values

  /** `n` bytes make a group of four characters per three bytes or part of three. */
  function EncodedSize(n: nat): nat {
    (n + 2) / 3 * 4
  }

  lemma SizeOfThreeMore(n: nat)
    ensures EncodedSize(n + 3) == 4 + EncodedSize(n)
  {
  }

  lemma {:induction false} EncodedLength(bytes: seq<Byte>)
    ensures |Encode(bytes)| == EncodedSize(|bytes|)
  {
    if |bytes| >= 3 {
      EncodedLength(bytes[3..]);
      SizeOfThreeMore(|bytes| - 3);
    }
  }

  /** A number written in digits of the given base, most significant first. */
  function Value(digits: seq<int>, base: int): int {
    if digits == [] then 0 else Value(digits[..|digits| - 1], base) * base + digits[|digits| - 1]
  }

  function Sextets(s: string): seq<int>
    requires AllAlphabet(s)
  {
    seq(|s|, i requires 0 <= i < |s| => SextetOf(s[i]) as int)
  }

  /** A full group is the 24-bit number of its three bytes. */
  lemma FullGroupKeepsTheNumber(a: Byte, b: Byte, c: Byte)
    ensures Value(Sextets(Group3(a, b, c)), 64) == Value([a, b, c], 256)
  {
    Value4(a / 4, a % 4 * 16 + b / 16, b % 16 * 4 + c / 64, c % 64, 64);
    Value4(0, a, b, c, 256);
    assert Sextets(Group3(a, b, c)) == [a / 4, a % 4 * 16 + b / 16, b % 16 * 4 + c / 64, c % 64];
  }

  /** In a short group the number of its bytes is followed by two or four zero bits. */
  lemma ShortGroupsKeepTheNumber(a: Byte, b: Byte)
    ensures Value(Sextets(Group2(a, b)[..3]), 64) == Value([a, b], 256) * 4
    ensures Value(Sextets(Group1(a)[..2]), 64) == Value([a], 256) * 16
  {
    Value4(0, a / 4, a % 4 * 16 + b / 16, b % 16 * 4, 64);
    Value4(a / 4, a % 4 * 16, 0, 0, 64);
    Value4(a, b, 0, 0, 256);
    assert Sextets(Group2(a, b)[..3]) == [a / 4, a % 4 * 16 + b / 16, b % 16 * 4];
    assert Sextets(Group1(a)[..2]) == [a / 4, a % 4 * 16];
  }

  lemma Value4(p: int, q: int, r: int, t: int, base: int)
    ensures Value([p], base) == p && Value([p, q], base) == p * base + q
    ensures Value([q, r, t], base) == (q * base + r) * base + t
    ensures Value([p, q, r, t], base) == ((p * base + q) * base + r) * base + t
  {
    assert [p][..0] == [] && [q][..0] == [] && [p, q][..1] == [p] && [q, r][..1] == [q];
    assert [q, r, t][..2] == [q, r] && [p, q, r, t][..3] == [p, q, r] && [p, q, r][..2] == [p, q];
    assert Value([q], base) == q && Value([q, r], base) == q * base + r && Value([p, q], base) == p * base + q;
  }

  // ----- the chunk decoder

  const MAX_CHUNK_BYTES := 8_388_608
  const MAX_CONTENT_LENGTH := 11_184_812

  datatype ChunkFields = ChunkFields(
    selectedProtocol: int,
    digest: string,
    byteLength: nat,
    minimumReader: nat,
    contentBase64: string)

  datatype ChunkContent = ChunkContent(
    selectedProtocol: int,
    digest: string,
    byteLength: nat,
    minimumReader: nat,
    bytes: seq<Byte>)

  datatype DecodeFailure = MalformedChunk

  /** `syncChunkContent` once its fields have their types; `sha256` gives the hexadecimal digest. */
  function SyncChunkContent(sha256: seq<Byte> -> string, source: ChunkFields): Result<ChunkContent, DecodeFailure> {
    if source.minimumReader < 1 || source.byteLength > MAX_CHUNK_BYTES || source.minimumReader > 2
       || source.minimumReader > source.selectedProtocol || !Shape(source.contentBase64)
    then Err(MalformedChunk)
    else
      var decoded := Decode(source.contentBase64);
      if |decoded| != source.byteLength || Encode(decoded) != source.contentBase64 || sha256(decoded) != source.digest
      then Err(MalformedChunk)
      else Ok(ChunkContent(source.selectedProtocol, source.digest, source.byteLength, source.minimumReader, decoded))
  }

  /** How a sender writes a chunk. */
  function WriteChunk(sha256: seq<Byte> -> string, bytes: seq<Byte>, protocol: int, minimumReader: nat): ChunkFields {
    ChunkFields(protocol, sha256(bytes), |bytes|, minimumReader, Encode(bytes))
  }

  /**
  A chunk is accepted exactly when a sender wrote it from some bytes within the limits, and
  then it comes out with those bytes, their number and their digest, under the protocol and
  the minimum reader that it was written with.
   */
  lemma ChunkRoundTrip(sha256: seq<Byte> -> string, source: ChunkFields, content: ChunkContent)
    ensures SyncChunkContent(sha256, source) == Ok(content)
       <==> && source == WriteChunk(sha256, content.bytes, content.selectedProtocol, content.minimumReader)
            && content.digest == sha256(content.bytes)
            && content.byteLength == |content.bytes| <= MAX_CHUNK_BYTES
            && 1 <= content.minimumReader <= 2 && content.minimumReader <= content.selectedProtocol
  {
    DecodeEncode(content.bytes);
  }

  /** What a sender writes within the limits comes out, field by field. */
  lemma WrittenChunkIsRead(sha256: seq<Byte> -> string, bytes: seq<Byte>, protocol: int, minimumReader: nat)
    requires |bytes| <= MAX_CHUNK_BYTES && 1 <= minimumReader <= 2 && minimumReader <= protocol
    ensures SyncChunkContent(sha256, WriteChunk(sha256, bytes, protocol, minimumReader))
         == Ok(ChunkContent(protocol, sha256(bytes), |bytes|, minimumReader, bytes))
  {
    ChunkRoundTrip(sha256, WriteChunk(sha256, bytes, protocol, minimumReader),
                   ChunkContent(protocol, sha256(bytes), |bytes|, minimumReader, bytes));
  }

  lemma LargestSize(n: nat)
    requires n <= MAX_CHUNK_BYTES
    ensures EncodedSize(n) <= MAX_CONTENT_LENGTH == EncodedSize(MAX_CHUNK_BYTES)
  {
  }

  /** Every accepted text fits the length that the wire contract allows for it. */
  lemma AcceptedTextFitsTheWire(sha256: seq<Byte> -> string, source: ChunkFields)
    requires SyncChunkContent(sha256, source).Ok?
    ensures |source.contentBase64| <= MAX_CONTENT_LENGTH
  {
    var content := SyncChunkContent(sha256, source).value;
    ChunkRoundTrip(sha256, source, content);
    EncodedLength(content.bytes);
    LargestSize(|content.bytes|);
  }

  /**
  And the bound is reached: any bytes of the maximal number, as a sender writes them, are
  accepted at exactly that length.
   */
  lemma LargestChunkIsAccepted(sha256: seq<Byte> -> string, bytes: seq<Byte>, protocol: int, minimumReader: nat)
    requires |bytes| == MAX_CHUNK_BYTES
    requires 1 <= minimumReader <= 2 && minimumReader <= protocol
    ensures var source := WriteChunk(sha256, bytes, protocol, minimumReader);
            && SyncChunkContent(sha256, source).Ok? && SyncChunkContent(sha256, source).value.bytes == bytes
            && |source.contentBase64| == MAX_CONTENT_LENGTH
  {
    WrittenChunkIsRead(sha256, bytes, protocol, minimumReader);
    EncodedLength(bytes);
    LargestSize(|bytes|);
  }
}
