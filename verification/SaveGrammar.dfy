/** The sections of a Repentance save: abstract syntax, printing and parsing. */
module SaveGrammar {
  import opened Bytes

  const SECTION_COUNT := 11
  const SUBTYPES: seq<nat> := [4, 2, 3, 1]

  /** Sections 1 to 10, each with its three-word header, then the bestiary section 11 and the trailer. */
  datatype Body =
    | More(blockSize: nat, count: nat, data: seq<byte>, rest: Body)
    | Last(parts: seq<Part>, spare: seq<byte>, checksum: seq<byte>)

  /** A bestiary subsection: its encoded count, and twice as many bytes. */
  datatype Part = Part(count: nat, data: seq<byte>)

  function DataSize(t: nat, blockSize: nat, count: nat): nat {
    if t == 1 then blockSize
    else if t == 2 || t == 3 || t == 8 || t == 9 then 4 * count
    else count
  }

  /** The sum of the encoded counts of the bestiary subsections. */
  function Payload(parts: seq<Part>): nat {
    if parts == [] then 0 else parts[0].count + Payload(parts[1..])
  }

  ghost predicate PartOk(part: Part) {
    part.count % 4 == 0 && part.count < WORD_LIMIT && |part.data| == 2 * part.count
  }

  ghost predicate PartsOk(parts: seq<Part>) {
    parts == [] || (PartOk(parts[0]) && PartsOk(parts[1..]))
  }

  ghost predicate SmallWords(words: seq<nat>) {
    words == [] || (words[0] < WORD_LIMIT && SmallWords(words[1..]))
  }

  /** The body is well formed when its first section has type t. */
  ghost predicate WellFormed(b: Body, t: nat) {
    match b
    case More(blockSize, count, data, rest) =>
      && 1 <= t < SECTION_COUNT
      && blockSize < WORD_LIMIT && count < WORD_LIMIT
      && |data| == DataSize(t, blockSize, count)
      && WellFormed(rest, t + 1)
    case Last(parts, spare, checksum) =>
      && t == SECTION_COUNT
      && |parts| == 4 && PartsOk(parts) && Payload(parts) < WORD_LIMIT
      && |spare| == 4 && |checksum| == 4
  }

  // ----- Printing -----

  function Header(t: nat, blockSize: nat, count: nat): (s: seq<byte>)
    requires t < WORD_LIMIT && blockSize < WORD_LIMIT && count < WORD_LIMIT
    ensures |s| == 12
  {
    WordBytes(t) + WordBytes(blockSize) + WordBytes(count)
  }

  function PrintPart(subtype: nat, part: Part): seq<byte>
    requires subtype < WORD_LIMIT && part.count < WORD_LIMIT
  {
    WordBytes(subtype) + WordBytes(part.count) + part.data
  }

  function PrintParts(subtypes: seq<nat>, parts: seq<Part>): seq<byte>
    requires |subtypes| == |parts| && PartsOk(parts)
    requires SmallWords(subtypes)
  {
    if parts == [] then []
    else PrintPart(subtypes[0], parts[0]) + PrintParts(subtypes[1..], parts[1..])
  }

  function Print(b: Body, t: nat): seq<byte>
    requires WellFormed(b, t)
  {
    match b
    case More(blockSize, count, data, rest) =>
      Header(t, blockSize, count) + (data + Print(rest, t + 1))
    case Last(parts, spare, checksum) =>
      SubtypesSmall();
      Header(t, Payload(parts), 4) + (PrintParts(SUBTYPES, parts) + (spare + checksum))
  }

  // ----- Parsing -----

  datatype Parts = Parts(parts: seq<Part>, rest: seq<byte>)

  function ParseParts(s: seq<byte>, subtypes: seq<nat>): (r: Option<Parts>)
    decreases |subtypes|
  {
    if subtypes == [] then Some(Parts([], s))
    else if |s| < 8 then None
    else
      var n := WordAt(s, 4);
      if WordAt(s, 0) != subtypes[0] || n % 4 != 0 || 2 * n > |s| - 8 then None
      else
        match ParseParts(s[8 + 2 * n..], subtypes[1..])
        case None => None
        case Some(Parts(parts, rest)) => Some(Parts([Part(n, s[8..8 + 2 * n])] + parts, rest))
  }

  function ParseLast(s: seq<byte>, blockSize: nat, count: nat): Option<Body> {
    if count != 4 then None
    else
      match ParseParts(s, SUBTYPES)
      case None => None
      case Some(Parts(parts, rest)) =>
        if Payload(parts) != blockSize || |rest| != 8 then None
        else Some(Last(parts, rest[..4], rest[4..]))
  }

  function Parse(s: seq<byte>, t: nat): (r: Option<Body>)
    requires 1 <= t <= SECTION_COUNT
    decreases SECTION_COUNT - t
  {
    if |s| < 12 || WordAt(s, 0) != t then None
    else if t == SECTION_COUNT then ParseLast(s[12..], WordAt(s, 4), WordAt(s, 8))
    else
      var size := DataSize(t, WordAt(s, 4), WordAt(s, 8));
      if size > |s| - 12 then None
      else
        match Parse(s[12 + size..], t + 1)
        case None => None
        case Some(rest) => Some(More(WordAt(s, 4), WordAt(s, 8), s[12..12 + size], rest))
  }

  // ----- Printing and parsing are inverse -----

  lemma HeaderWords(t: nat, blockSize: nat, count: nat, rest: seq<byte>)
    requires t < WORD_LIMIT && blockSize < WORD_LIMIT && count < WORD_LIMIT
    ensures var s := Header(t, blockSize, count) + rest;
            WordAt(s, 0) == t && WordAt(s, 4) == blockSize && WordAt(s, 8) == count && s[12..] == rest
  {
    hide WordAt, WordBytes;
    var s := Header(t, blockSize, count) + rest;
    assert s == WordBytes(t) + (WordBytes(blockSize) + (WordBytes(count) + rest));
    WordRoundTrip(t, WordBytes(blockSize) + (WordBytes(count) + rest));
    WordShift(s, 4, 0);
    assert s[4..] == WordBytes(blockSize) + (WordBytes(count) + rest);
    WordRoundTrip(blockSize, WordBytes(count) + rest);
    WordShift(s, 8, 0);
    assert s[8..] == WordBytes(count) + rest;
    WordRoundTrip(count, rest);
  }

  lemma HeaderPrint(s: seq<byte>)
    requires 12 <= |s|
    ensures Header(WordAt(s, 0), WordAt(s, 4), WordAt(s, 8)) + s[12..] == s
  {
    hide WordAt, WordBytes;
    WordPrint(s, 0);
    WordPrint(s, 4);
    WordPrint(s, 8);
    assert s[0..4] + s[4..8] + s[8..12] + s[12..] == s;
  }

  lemma PartWords(subtype: nat, part: Part, rest: seq<byte>)
    requires subtype < WORD_LIMIT && PartOk(part)
    ensures var s := PrintPart(subtype, part) + rest;
            && WordAt(s, 0) == subtype && WordAt(s, 4) == part.count
            && s[8..8 + 2 * part.count] == part.data && s[8 + 2 * part.count..] == rest
  {
    hide WordAt, WordBytes;
    var s := PrintPart(subtype, part) + rest;
    assert s == WordBytes(subtype) + (WordBytes(part.count) + (part.data + rest));
    WordRoundTrip(subtype, WordBytes(part.count) + (part.data + rest));
    WordShift(s, 4, 0);
    assert s[4..] == WordBytes(part.count) + (part.data + rest);
    WordRoundTrip(part.count, part.data + rest);
  }

  function Prepend(part: Part, r: Option<Parts>): Option<Parts> {
    match r
    case None => None
    case Some(Parts(parts, rest)) => Some(Parts([part] + parts, rest))
  }

  lemma ParsePart(s: seq<byte>, subtypes: seq<nat>, part: Part)
    requires subtypes != [] && 8 + 2 * part.count <= |s| && part.count % 4 == 0
    requires WordAt(s, 0) == subtypes[0] && WordAt(s, 4) == part.count
    requires part.data == s[8..8 + 2 * part.count]
    ensures ParseParts(s, subtypes) == Prepend(part, ParseParts(s[8 + 2 * part.count..], subtypes[1..]))
  {
    hide WordAt;
  }

  lemma {:induction false} ParsePrintParts(subtypes: seq<nat>, parts: seq<Part>, rest: seq<byte>)
    requires |subtypes| == |parts| && PartsOk(parts)
    requires SmallWords(subtypes)
    ensures ParseParts(PrintParts(subtypes, parts) + rest, subtypes) == Some(Parts(parts, rest))
  {
    if parts == [] {
      assert [] + rest == rest;
    } else {
      hide WordAt, WordBytes, PrintPart, ParseParts;
      var part := parts[0];
      var tail := PrintParts(subtypes[1..], parts[1..]) + rest;
      var s := PrintPart(subtypes[0], part) + tail;
      assert PrintParts(subtypes, parts) + rest == s;
      PartWords(subtypes[0], part, tail);
      ParsePart(s, subtypes, part);
      ParsePrintParts(subtypes[1..], parts[1..], rest);
      assert parts == [part] + parts[1..];
    }
  }

  lemma PartWhole(s: seq<byte>, n: nat)
    requires 8 + 2 * n <= |s| && WordAt(s, 4) == n
    ensures PrintPart(WordAt(s, 0), Part(n, s[8..8 + 2 * n])) + s[8 + 2 * n..] == s
  {
    hide WordAt, WordBytes;
    WordPrint(s, 0);
    WordPrint(s, 4);
    assert s[0..4] + s[4..8] + s[8..8 + 2 * n] + s[8 + 2 * n..] == s;
  }

  lemma {:induction false} PrintParseParts(s: seq<byte>, subtypes: seq<nat>)
    requires ParseParts(s, subtypes).Some?
    requires SmallWords(subtypes)
    ensures var r := ParseParts(s, subtypes).value;
            |r.parts| == |subtypes| && PartsOk(r.parts) && PrintParts(subtypes, r.parts) + r.rest == s
    decreases |subtypes|
  {
    if subtypes == [] {
      assert [] + s == s;
    } else {
      hide WordAt, PrintPart, WordBytes;
      var n := WordAt(s, 4);
      PrintParseParts(s[8 + 2 * n..], subtypes[1..]);
      PrintParsePart(s, subtypes, n, ParseParts(s[8 + 2 * n..], subtypes[1..]).value);
    }
  }

  lemma PartsCons(subtypes: seq<nat>, part: Part, parts: seq<Part>)
    requires subtypes != [] && SmallWords(subtypes) && |parts| == |subtypes| - 1 && PartOk(part) && PartsOk(parts)
    ensures PartsOk([part] + parts)
    ensures PrintParts(subtypes, [part] + parts) == PrintPart(subtypes[0], part) + PrintParts(subtypes[1..], parts)
  {
    hide PrintPart;
    assert ([part] + parts)[1..] == parts;
  }

  lemma Joined(head: seq<byte>, tail: seq<byte>, rest: seq<byte>, after: seq<byte>, s: seq<byte>)
    requires tail + rest == after && head + after == s
    ensures (head + tail) + rest == s
  {
  }

  lemma PrintParsePart(s: seq<byte>, subtypes: seq<nat>, n: nat, r: Parts)
    requires subtypes != [] && SmallWords(subtypes) && 8 + 2 * n <= |s|
    requires WordAt(s, 0) == subtypes[0] && WordAt(s, 4) == n && n % 4 == 0
    requires |r.parts| == |subtypes| - 1 && PartsOk(r.parts)
    requires PrintParts(subtypes[1..], r.parts) + r.rest == s[8 + 2 * n..]
    ensures var parts := [Part(n, s[8..8 + 2 * n])] + r.parts;
            PartsOk(parts) && PrintParts(subtypes, parts) + r.rest == s
  {
    var part := Part(n, s[8..8 + 2 * n]);
    assert PartOk(part);
    hide WordAt, WordBytes, PrintPart, PrintParts, PartOk, PartsOk, SmallWords;
    PartsCons(subtypes, part, r.parts);
    PartWhole(s, n);
    Joined(PrintPart(subtypes[0], part), PrintParts(subtypes[1..], r.parts), r.rest, s[8 + 2 * n..], s);
  }

  lemma SubtypesSmall()
    ensures SmallWords(SUBTYPES)
  {
    assert SmallWords([]) && SmallWords([1]) && SmallWords([3, 1]);
    assert [2, 3, 1][1..] == [3, 1] && SmallWords([2, 3, 1]);
    assert SUBTYPES[1..] == [2, 3, 1];
  }

  function Extend(blockSize: nat, count: nat, data: seq<byte>, r: Option<Body>): Option<Body> {
    match r
    case None => None
    case Some(rest) => Some(More(blockSize, count, data, rest))
  }

  /** Parsing a section header and its data, whatever follows. */
  lemma ParseMore(t: nat, blockSize: nat, count: nat, data: seq<byte>, u: seq<byte>)
    requires 1 <= t < SECTION_COUNT && blockSize < WORD_LIMIT && count < WORD_LIMIT
    requires |data| == DataSize(t, blockSize, count)
    ensures Parse(Header(t, blockSize, count) + (data + u), t) == Extend(blockSize, count, data, Parse(u, t + 1))
  {
    hide WordAt, WordBytes, Header, DataSize, ParseLast;
    var s := Header(t, blockSize, count) + (data + u);
    HeaderWords(t, blockSize, count, data + u);
    Suffix(s, 12, |data|);
    assert (data + u)[..|data|] == data && (data + u)[|data|..] == u;
  }

  lemma ParsePrintLast(b: Body)
    requires b.Last? && WellFormed(b, SECTION_COUNT)
    ensures Parse(Print(b, SECTION_COUNT), SECTION_COUNT) == Some(b)
  {
    hide WordAt, WordBytes, Header, PrintParts, ParseParts, SmallWords, PartsOk, Payload;
    SubtypesSmall();
    var tail := b.spare + b.checksum;
    HeaderWords(SECTION_COUNT, Payload(b.parts), 4, PrintParts(SUBTYPES, b.parts) + tail);
    ParsePrintParts(SUBTYPES, b.parts, tail);
    assert tail[..4] == b.spare && tail[4..] == b.checksum;
  }

  /** Parsing undoes printing. */
  lemma {:induction false} ParsePrint(b: Body, t: nat)
    requires 1 <= t <= SECTION_COUNT && WellFormed(b, t)
    ensures Parse(Print(b, t), t) == Some(b)
  {
    hide Parse, Header, DataSize, PrintParts, Payload, PartsOk;
    match b
    case More(blockSize, count, data, rest) =>
      ParsePrint(rest, t + 1);
      ParseMore(t, blockSize, count, data, Print(rest, t + 1));
    case Last(_, _, _) =>
      ParsePrintLast(b);
  }

  lemma PrintParseLast(s: seq<byte>)
    requires 12 <= |s| && WordAt(s, 0) == SECTION_COUNT && ParseLast(s[12..], WordAt(s, 4), WordAt(s, 8)).Some?
    ensures var b := ParseLast(s[12..], WordAt(s, 4), WordAt(s, 8)).value;
            WellFormed(b, SECTION_COUNT) && Print(b, SECTION_COUNT) == s
  {
    hide WordAt, WordBytes, Header, PrintParts, ParseParts, SmallWords, PartsOk, Payload;
    SubtypesSmall();
    PrintParseParts(s[12..], SUBTYPES);
    var rest := ParseParts(s[12..], SUBTYPES).value.rest;
    assert rest == rest[..4] + rest[4..];
    HeaderPrint(s);
  }

  lemma PrintMore(s: seq<byte>, t: nat, size: nat, rest: Body)
    requires 1 <= t < SECTION_COUNT && 12 + size <= |s| && WordAt(s, 0) == t
    requires size == DataSize(t, WordAt(s, 4), WordAt(s, 8))
    requires WellFormed(rest, t + 1) && Print(rest, t + 1) == s[12 + size..]
    ensures var b := More(WordAt(s, 4), WordAt(s, 8), s[12..12 + size], rest);
            WellFormed(b, t) && Print(b, t) == s
  {
    hide WordAt, WordBytes, Header, DataSize, PrintParts, PartsOk, Payload;
    HeaderPrint(s);
    assert s[12..] == s[12..12 + size] + s[12 + size..];
  }

  lemma ParsedMore(s: seq<byte>, t: nat)
    requires 1 <= t < SECTION_COUNT && Parse(s, t).Some?
    ensures 12 <= |s| && WordAt(s, 0) == t
    ensures var size := DataSize(t, WordAt(s, 4), WordAt(s, 8));
            && 12 + size <= |s| && Parse(s[12 + size..], t + 1).Some?
            && Parse(s, t) == Some(More(WordAt(s, 4), WordAt(s, 8), s[12..12 + size], Parse(s[12 + size..], t + 1).value))
  {
    hide WordAt, DataSize, ParseLast;
  }

  lemma ParsedLast(s: seq<byte>)
    requires Parse(s, SECTION_COUNT).Some?
    ensures 12 <= |s| && WordAt(s, 0) == SECTION_COUNT
    ensures Parse(s, SECTION_COUNT) == ParseLast(s[12..], WordAt(s, 4), WordAt(s, 8))
  {
    hide WordAt, DataSize, ParseLast;
  }

  /** Printing undoes parsing, and only well-formed bodies are parsed. */
  lemma {:induction false} PrintParse(s: seq<byte>, t: nat)
    requires 1 <= t <= SECTION_COUNT && Parse(s, t).Some?
    ensures WellFormed(Parse(s, t).value, t) && Print(Parse(s, t).value, t) == s
    decreases SECTION_COUNT - t
  {
    hide *;
    if t == SECTION_COUNT {
      ParsedLast(s);
      PrintParseLast(s);
    } else {
      ParsedMore(s, t);
      var size := DataSize(t, WordAt(s, 4), WordAt(s, 8));
      PrintParse(s[12 + size..], t + 1);
      PrintMore(s, t, size, Parse(s[12 + size..], t + 1).value);
    }
  }
}
