/** Repentance saves: the validator, the canonical form and what the checksum detects. */
module IsaacFormat {
  import opened Bytes
  import opened BitVectors
  import opened IsaacCrc
  import opened Lz4
  import Grammar = SaveGrammar

  /** "ISAACNGSAVE09R  ". */
  const REPENTANCE_MAGIC: seq<byte> :=
    [0x49, 0x53, 0x41, 0x41, 0x43, 0x4E, 0x47, 0x53, 0x41, 0x56, 0x45, 0x30, 0x39, 0x52, 0x20, 0x20]
  const CHECKSUM_SEED: bv32 := 0xFEDC_BA76
  const TRAILER_SIZE := 8

  // ----- What a valid save is -----

  datatype Save = Save(stamp: seq<byte>, body: Grammar.Body)

  ghost predicate IsSave(s: Save) {
    |s.stamp| == 4 && Grammar.WellFormed(s.body, 1)
  }

  function PrintSave(s: Save): seq<byte>
    requires IsSave(s)
  {
    REPENTANCE_MAGIC + s.stamp + Grammar.Print(s.body, 1)
  }

  function Le(b0: bv8, b1: bv8, b2: bv8, b3: bv8): bv32 {
    (b0 as bv32) | ((b1 as bv32) << 8) | ((b2 as bv32) << 16) | ((b3 as bv32) << 24)
  }

  function LeWord(s: seq<byte>): bv32
    requires |s| == 4
  {
    Le(s[0] as bv8, s[1] as bv8, s[2] as bv8, s[3] as bv8)
  }

  /** The last four bytes hold the checksum of everything between the magic and themselves. */
  predicate ChecksumMatches(bytes: seq<byte>)
    requires 20 <= |bytes|
  {
    LeWord(bytes[|bytes| - 4..]) == Checksum(bytes[16..|bytes| - 4], CHECKSUM_SEED)
  }

  predicate StartsWith(bytes: seq<byte>, prefix: seq<byte>) {
    |prefix| <= |bytes| && bytes[..|prefix|] == prefix
  }

  predicate Accepts(bytes: seq<byte>) {
    && |bytes| <= MAX_SAVE_SIZE
    && StartsWith(bytes, REPENTANCE_MAGIC)
    && 20 <= |bytes|
    && Grammar.Parse(bytes[20..], 1).Some?
    && ChecksumMatches(bytes)
  }

  ghost predicate Represents(s: Save, bytes: seq<byte>) {
    && IsSave(s)
    && PrintSave(s) == bytes
    && |bytes| <= MAX_SAVE_SIZE
    && ChecksumMatches(bytes)
  }

  /** The validator's language is the set of printings of abstract saves with the right checksum. */
  lemma AcceptsIffRepresents(bytes: seq<byte>)
    ensures Accepts(bytes) <==> exists s :: Represents(s, bytes)
  {
    hide Grammar.Parse, Grammar.Print, Grammar.WellFormed, ChecksumMatches;
    if Accepts(bytes) {
      Grammar.PrintParse(bytes[20..], 1);
      var s := Save(bytes[16..20], Grammar.Parse(bytes[20..], 1).value);
      assert bytes == bytes[..16] + bytes[16..20] + bytes[20..];
      assert Represents(s, bytes);
    }
    if s :| Represents(s, bytes) {
      assert bytes[..16] == REPENTANCE_MAGIC;
      assert bytes[20..] == Grammar.Print(s.body, 1);
      Grammar.ParsePrint(s.body, 1);
    }
  }

  /** No bytes are the printing of two different saves. */
  lemma RepresentsUnique(s: Save, s': Save, bytes: seq<byte>)
    requires Represents(s, bytes) && Represents(s', bytes)
    ensures s == s'
  {
    hide Grammar.Parse, Grammar.Print, Grammar.WellFormed, ChecksumMatches;
    assert bytes[16..20] == s.stamp == s'.stamp;
    assert bytes[20..] == Grammar.Print(s.body, 1) == Grammar.Print(s'.body, 1);
    Grammar.ParsePrint(s.body, 1);
    Grammar.ParsePrint(s'.body, 1);
  }

  // ----- The validator -----

  method ReadU32(bytes: seq<byte>, cursor: nat) returns (r: Option<nat>, end: nat)
    ensures r.Some? <==> cursor + 4 <= |bytes| && cursor + 4 < USIZE_LIMIT
    ensures r.Some? ==> end == cursor + 4 && r.value == WordAt(bytes, cursor)
  {
    end := cursor;
    var next := CheckedAdd(cursor, 4);
    if next.None? || next.value > |bytes| {
      return None, end;
    }
    return Some(WordAt(bytes, cursor)), next.value;
  }

  method Advance(bytes: seq<byte>, cursor: nat, amount: Option<nat>) returns (ok: bool, end: nat)
    ensures ok <==> amount.Some? && cursor + amount.value <= |bytes| && cursor + amount.value < USIZE_LIMIT
    ensures ok ==> end == cursor + amount.value
  {
    end := cursor;
    if amount.None? {
      return false, end;
    }
    var next := CheckedAdd(cursor, amount.value);
    if next.None? || next.value > |bytes| {
      return false, end;
    }
    return true, next.value;
  }

  datatype Outcome = Outcome(payload: nat, rest: seq<byte>)

  ghost function Summary(r: Option<Grammar.Parts>, payload: nat): Option<Outcome> {
    match r
    case None => None
    case Some(Parts(parts, rest)) => Some(Outcome(payload + Grammar.Payload(parts), rest))
  }

  lemma SummaryStep(part: Grammar.Part, r: Option<Grammar.Parts>, payload: nat)
    ensures Summary(Grammar.Prepend(part, r), payload) == Summary(r, payload + part.count)
  {
    if r.Some? {
      assert ([part] + r.value.parts)[1..] == r.value.parts;
    }
  }

  /** The loop over the four bestiary subsections. */
  method ReadBestiary(bytes: seq<byte>, start: nat) returns (r: Option<nat>, cursor: nat)
    requires start <= |bytes| <= MAX_SAVE_SIZE
    ensures start <= cursor <= |bytes|
    ensures Summary(Grammar.ParseParts(bytes[start..], Grammar.SUBTYPES), 0)
         == if r.None? then None else Some(Outcome(r.value, bytes[cursor..]))
  {
    hide Grammar.ParseParts, Summary, WordAt;
    cursor := start;
    var payload: nat := 0;
    for i := 0 to 4
      invariant start <= cursor <= |bytes| && payload <= i * WORD_LIMIT
      invariant Summary(Grammar.ParseParts(bytes[start..], Grammar.SUBTYPES), 0)
             == Summary(Grammar.ParseParts(bytes[cursor..], Grammar.SUBTYPES[i..]), payload)
    {
      ghost var s, subtypes := bytes[cursor..], Grammar.SUBTYPES[i..];
      if |s| < 8 || WordAt(s, 0) != subtypes[0] || WordAt(s, 4) % 4 != 0 || 2 * WordAt(s, 4) > |s| - 8 {
        BadPart(s, subtypes, payload);
      }
      var subtype, end := ReadU32(bytes, cursor);
      if subtype.None? {
        return None, cursor;
      }
      WordShift(bytes, cursor, 0);
      var count;
      count, end := ReadU32(bytes, end);
      if count.None? {
        return None, cursor;
      }
      WordShift(bytes, cursor, 4);
      if subtype.value != Grammar.SUBTYPES[i] || count.value % 4 != 0 {
        return None, cursor;
      }
      var sum := CheckedAdd(payload, count.value);
      if sum.None? {
        return None, cursor;
      }
      var ok;
      ok, end := Advance(bytes, end, CheckedMul(count.value, 2));
      if !ok {
        return None, cursor;
      }
      ghost var part := Grammar.Part(count.value, s[8..8 + 2 * count.value]);
      Grammar.ParsePart(s, subtypes, part);
      SummaryStep(part, Grammar.ParseParts(s[8 + 2 * part.count..], subtypes[1..]), payload);
      Suffix(bytes, cursor, 8 + 2 * part.count);
      assert subtypes[1..] == Grammar.SUBTYPES[i + 1..];
      payload := sum.value;
      cursor := end;
    }
    AllParts(bytes[cursor..], payload);
    r := Some(payload);
  }

  lemma BadPart(s: seq<byte>, subtypes: seq<nat>, payload: nat)
    requires subtypes != []
    requires |s| < 8 || WordAt(s, 0) != subtypes[0] || WordAt(s, 4) % 4 != 0 || 2 * WordAt(s, 4) > |s| - 8
    ensures Summary(Grammar.ParseParts(s, subtypes), payload) == None
  {
    hide WordAt;
  }

  lemma AllParts(s: seq<byte>, payload: nat)
    ensures Summary(Grammar.ParseParts(s, []), payload) == Some(Outcome(payload, s))
  {
  }

  /** What the sections from t on must still satisfy; t is 12 once they are all read. */
  ghost predicate Remaining(s: seq<byte>, t: nat)
    requires 1 <= t <= 12
  {
    if t == 12 then |s| == TRAILER_SIZE else Grammar.Parse(s, t).Some?
  }

  function BodySize(t: nat, blockSize: nat, count: nat): Option<nat> {
    match t
    case 1 => Some(blockSize)
    case 2 => CheckedMul(count, 4)
    case 3 => CheckedMul(count, 4)
    case 8 => CheckedMul(count, 4)
    case 9 => CheckedMul(count, 4)
    case 4 => Some(count)
    case 5 => Some(count)
    case 6 => Some(count)
    case 7 => Some(count)
    case 10 => Some(count)
    case _ => None
  }

  lemma BodySizeFits(t: nat, blockSize: nat, count: nat)
    requires 1 <= t < 11 && blockSize < WORD_LIMIT && count < WORD_LIMIT
    ensures BodySize(t, blockSize, count) == Some(Grammar.DataSize(t, blockSize, count))
    ensures Grammar.DataSize(t, blockSize, count) <= 4 * WORD_LIMIT
  {
  }

  lemma SectionStep(s: seq<byte>, t: nat)
    requires 1 <= t < 11 && 12 <= |s|
    ensures var size := Grammar.DataSize(t, WordAt(s, 4), WordAt(s, 8));
            Remaining(s, t) <==> WordAt(s, 0) == t && size <= |s| - 12 && Remaining(s[12 + size..], t + 1)
  {
    hide WordAt, Grammar.DataSize, Grammar.ParseLast;
  }

  lemma BestiaryStep(s: seq<byte>)
    requires 12 <= |s|
    ensures var r := Summary(Grammar.ParseParts(s[12..], Grammar.SUBTYPES), 0);
            Remaining(s, 11) <==>
              && WordAt(s, 0) == 11 && WordAt(s, 8) == 4
              && r.Some? && r.value.payload == WordAt(s, 4) && Remaining(r.value.rest, 12)
  {
    hide WordAt, Grammar.ParseParts;
  }

  lemma ShortSection(s: seq<byte>, t: nat)
    requires 1 <= t <= 11 && |s| < 12
    ensures !Remaining(s, t)
  {
  }

  method ValidateSections(bytes: seq<byte>) returns (r: Option<nat>)
    requires |bytes| <= MAX_SAVE_SIZE
    ensures r.Some? ==> 20 <= r.value <= |bytes|
    ensures 20 <= |bytes| && Grammar.Parse(bytes[20..], 1).Some?
        <==> r.Some? && |bytes| - r.value == TRAILER_SIZE
  {
    hide WordAt, Grammar.Parse, Remaining, Grammar.DataSize, BodySize, Grammar.ParseParts, Summary;
    if |bytes| < 20 {
      var word, _ := ReadU32(bytes, 20);
      return None;
    }
    var cursor := 20;
    RemainingStarts(bytes[20..]);
    for expected := 1 to 12
      invariant 20 <= cursor <= |bytes|
      invariant Remaining(bytes[20..], 1) == Remaining(bytes[cursor..], expected)
    {
      ghost var s := bytes[cursor..];
      if |s| < 12 {
        ShortSection(s, expected);
      }
      var sectionType, blockSize, count;
      var end;
      sectionType, end := ReadU32(bytes, cursor);
      if sectionType.None? {
        return None;
      }
      blockSize, end := ReadU32(bytes, end);
      if blockSize.None? {
        return None;
      }
      count, end := ReadU32(bytes, end);
      if count.None? {
        return None;
      }
      WordShift(bytes, cursor, 0);
      WordShift(bytes, cursor, 4);
      WordShift(bytes, cursor, 8);
      Suffix(bytes, cursor, 12);
      if expected == 11 {
        BestiaryStep(s);
      } else {
        SectionStep(s, expected);
      }
      if sectionType.value != expected {
        return None;
      }
      if sectionType.value == 11 {
        if count.value != 4 {
          return None;
        }
        var payload;
        payload, end := ReadBestiary(bytes, end);
        if payload.None? || payload.value != blockSize.value {
          return None;
        }
      } else {
        BodySizeFits(expected, blockSize.value, count.value);
        var bodySize := BodySize(sectionType.value, blockSize.value, count.value);
        if bodySize.None? {
          return None;
        }
        Suffix12(bytes, cursor, bodySize.value);
        var ok;
        ok, end := Advance(bytes, end, bodySize);
        if !ok {
          return None;
        }
      }
      cursor := end;
    }
    RemainingEnds(bytes[cursor..]);
    r := Some(cursor);
  }

  lemma Suffix12(s: seq<byte>, a: nat, b: nat)
    requires a + 12 <= |s|
    ensures a + 12 + b <= |s| ==> s[a..][12 + b..] == s[a + 12 + b..]
  {
  }

  lemma RemainingStarts(s: seq<byte>)
    ensures Remaining(s, 1) == Grammar.Parse(s, 1).Some?
  {
  }

  lemma RemainingEnds(s: seq<byte>)
    ensures Remaining(s, 12) == (|s| == TRAILER_SIZE)
  {
  }

  method ValidateCanonical(bytes: seq<byte>) returns (ok: bool)
    ensures ok <==> Accepts(bytes)
  {
    hide Grammar.Parse, LeWord, Checksum;
    if |bytes| > MAX_SAVE_SIZE || !StartsWith(bytes, REPENTANCE_MAGIC) {
      return false;
    }
    var cursor := ValidateSections(bytes);
    if cursor.None? || |bytes| - cursor.value != TRAILER_SIZE {
      return false;
    }
    var checksumOffset := |bytes| - 4;
    var stored := LeWord(bytes[checksumOffset..]);
    var computed := IsaacCrc32(bytes[16..checksumOffset], CHECKSUM_SEED);
    return stored == computed;
  }

  // ----- Error detection -----

  lemma LeParts(b0: bv8, b1: bv8, b2: bv8, b3: bv8)
    ensures var w := Le(b0, b1, b2, b3);
            && Low(w) == b0 && Low(Shift(w)) == b1 && Low(Shift(Shift(w))) == b2
            && Low(Shift(Shift(Shift(w)))) == b3 && Shift(Shift(Shift(Shift(w)))) == 0
  {
  }

  lemma NotIsXor(c: bv32)
    ensures Not(c) == Xor(c, 0xFFFF_FFFF)
  {
  }

  lemma NotXor(c: bv32, d: bv32)
    ensures Xor(Not(c), Not(d)) == Xor(c, d)
  {
    hide Xor, Not;
    NotIsXor(c);
    NotIsXor(d);
    Regroup(c, 0xFFFF_FFFF, d, 0xFFFF_FFFF);
    XorUnits(0xFFFF_FFFF);
    XorUnits(Xor(c, d));
  }

  /** Folding the bytes of a word from that word leaves nothing. */
  lemma FoldWord(a: bv8, b: bv8, c: bv8, d: bv8)
    ensures Fold([a, b, c, d], Le(a, b, c, d)) == 0
  {
    hide Step, Shift, Low, Fold, Le;
    var w := Le(a, b, c, d);
    LeParts(a, b, c, d);
    LowStep(w);
    LowStep(Shift(w));
    LowStep(Shift(Shift(w)));
    LowStep(Shift(Shift(Shift(w))));
    FoldFour(a, b, c, d, w);
  }

  lemma LeXor(a: bv8, b: bv8, c: bv8, d: bv8, a': bv8, b': bv8, c': bv8, d': bv8)
    ensures Xor(Le(a, b, c, d), Le(a', b', c', d'))
         == Le(XorByte(a, a'), XorByte(b, b'), XorByte(c, c'), XorByte(d, d'))
  {
  }

  /** Two stored checksums differ from each other as their computed ones do: the whole strings collide. */
  lemma TrailersCancel(t: seq<byte>, u: seq<byte>, c: bv32, d: bv32)
    requires |t| == 4 && |u| == 4 && LeWord(t) == Not(c) && LeWord(u) == Not(d)
    ensures Fold(Difference(Bits(t), Bits(u)), Xor(c, d)) == 0
  {
    hide Step, Xor, XorByte, Fold, Le, Not;
    NotXor(c, d);
    var e := Difference(Bits(t), Bits(u));
    assert e == [e[0], e[1], e[2], e[3]];
    LeXor(t[0] as bv8, t[1] as bv8, t[2] as bv8, t[3] as bv8, u[0] as bv8, u[1] as bv8, u[2] as bv8, u[3] as bv8);
    FoldWord(e[0], e[1], e[2], e[3]);
  }

  lemma ByteBits(x: byte, y: byte)
    ensures XorByte(x as bv8, y as bv8) == 0 <==> x == y
  {
    hide XorByte;
    ByteAsBits(x);
    ByteAsBits(y);
    XorByteUnits(x as bv8, y as bv8);
  }

  lemma XorByteUnits(a: bv8, b: bv8)
    ensures XorByte(a, b) == 0 <==> a == b
  {
  }

  /** The bitwise difference of two equally long strings, byte by byte. */
  function Changes(a: seq<byte>, b: seq<byte>): (e: seq<bv8>)
    requires |a| == |b|
    ensures |e| == |a|
  {
    Difference(Bits(a), Bits(b))
  }

  lemma ChangesAt(a: seq<byte>, b: seq<byte>, k: nat)
    requires |a| == |b| && k < |a|
    ensures Changes(a, b)[k] == 0 <==> a[k] == b[k]
  {
    ByteBits(a[k], b[k]);
  }

  lemma ChangesSlice(a: seq<byte>, b: seq<byte>, i: nat, j: nat)
    requires |a| == |b| && i <= j <= |a|
    ensures Changes(a[i..j], b[i..j]) == Changes(a, b)[i..j]
  {
    hide XorByte;
  }

  /** The difference of the covered regions is the difference of their checksum states. */
  lemma CoveredChanges(a: seq<byte>, b: seq<byte>, seed: bv32)
    requires |a| == |b|
    ensures Fold(Changes(a, b), 0) == Xor(Fold(Bits(a), seed), Fold(Bits(b), seed))
  {
    hide Step, Xor, XorByte, Fold, Difference, Bits;
    XorUnits(seed);
    FoldDifference(Bits(a), Bits(b), seed, seed);
  }

  lemma ChecksumPair(a: seq<byte>, b: seq<byte>)
    requires |a| == |b| && 20 <= |a|
    requires ChecksumMatches(a) && ChecksumMatches(b)
    ensures Fold(Changes(a, b)[16..], 0) == 0
  {
    hide Step, Xor, XorByte, Fold, Difference, Bits, LeWord, Not;
    var m := |a| - 4;
    var e := Changes(a, b);
    assert a[m..] == a[m..|a|] && b[m..] == b[m..|a|] && e[m..] == e[m..|a|];
    CoveredChanges(a[16..m], b[16..m], Not(CHECKSUM_SEED));
    TrailersCancel(a[m..], b[m..], Fold(Bits(a[16..m]), Not(CHECKSUM_SEED)), Fold(Bits(b[16..m]), Not(CHECKSUM_SEED)));
    ChangesSlice(a, b, 16, m);
    ChangesSlice(a, b, m, |a|);
    FoldConcat(e[16..m], e[m..], 0);
    assert e[16..] == e[16..m] + e[m..];
  }

  /** The two strings agree outside the n positions from i on. */
  ghost predicate AgreeOutside(a: seq<byte>, b: seq<byte>, i: nat, n: nat) {
    && |a| == |b|
    && forall k :: 0 <= k < |a| && (k < i || i + n <= k) ==> a[k] == b[k]
  }

  lemma ChangesBurst(a: seq<byte>, b: seq<byte>, i: nat)
    requires AgreeOutside(a, b, i, 4) && 16 <= i && i + 4 <= |a|
    ensures Burst(Changes(a, b)[16..], i - 16, 4)
  {
    hide XorByte, Difference, Bits, Changes;
    var e := Changes(a, b);
    forall k | 0 <= k < |e[16..]| && (k < i - 16 || i - 12 <= k)
      ensures e[16..][k] == 0
    {
      ChangesAt(a, b, k + 16);
    }
  }

  /** Two saves with matching checksums that agree outside four bytes are equal there or differ by
      one of the three invisible errors. */
  lemma FourByteChange(a: seq<byte>, b: seq<byte>, i: nat)
    requires 20 <= |a| && AgreeOutside(a, b, i, 4) && 16 <= i && i + 4 <= |a|
    requires ChecksumMatches(a) && ChecksumMatches(b)
    ensures Invisible(Changes(a, b)[i..i + 4])
  {
    hide ChecksumMatches, Fold, Changes, Invisible;
    ChecksumPair(a, b);
    ChangesBurst(a, b, i);
    BurstMissed(Changes(a, b)[16..], i - 16);
    assert Changes(a, b)[16..][i - 16..i - 12] == Changes(a, b)[i..i + 4];
  }

  lemma InvisibleBytes(e: seq<bv8>)
    requires |e| == 4 && Invisible(e) && (e[0] == 0 || e[1] == 0 || e[2] == 0 || e[3] == 0)
    ensures e[0] == 0 && e[1] == 0 && e[2] == 0 && e[3] == 0
  {
  }

  lemma BurstHarmless(a: seq<byte>, b: seq<byte>, i: nat, n: nat)
    requires Accepts(a) && Accepts(b) && AgreeOutside(a, b, i, n) && n <= 3
    ensures a == b
  {
    hide Grammar.Parse, ChecksumMatches, Changes, Invisible;
    assert forall k :: 0 <= k < 16 ==> a[k] == a[..16][k] && b[k] == b[..16][k];
    var j := if i < 16 then 16 else Min(i, |a| - 4);
    assert AgreeOutside(a, b, j, 4);
    FourByteChange(a, b, j);
    var e := Changes(a, b)[j..j + 4];
    ChangesAt(a, b, j);
    ChangesAt(a, b, j + 1);
    ChangesAt(a, b, j + 2);
    ChangesAt(a, b, j + 3);
    InvisibleBytes(e);
  }

  /** Changing one, two or three consecutive bytes of an accepted save, wherever they lie, always
      yields bytes that are rejected. */
  lemma BurstDetected(a: seq<byte>, b: seq<byte>, i: nat, n: nat)
    requires Accepts(a) && AgreeOutside(a, b, i, n) && n <= 3 && a != b
    ensures !Accepts(b)
  {
    hide Accepts;
    if Accepts(b) {
      BurstHarmless(a, b, i, n);
    }
  }

  /** The checksum misses a change of four consecutive bytes exactly when it is an invisible one, also when
      it reaches into the stored checksum; changing the stored checksum alone is never missed. */
  lemma FourByteMissed(a: seq<byte>, b: seq<byte>, i: nat)
    requires 20 <= |a| && AgreeOutside(a, b, i, 4) && 16 <= i && i + 4 <= |a|
    requires ChecksumMatches(a)
    ensures ChecksumMatches(b) <==> if i < |a| - 4 then Invisible(Changes(a, b)[i..i + 4]) else a == b
  {
    hide ChecksumMatches, Changes, Invisible;
    if ChecksumMatches(b) {
      FourByteChange(a, b, i);
    }
    if i == |a| - 4 {
      TrailerOnly(a, b);
    } else if Invisible(Changes(a, b)[i..i + 4]) {
      if i + 4 <= |a| - 4 {
        CoveredInvisible(a, b, i, Not(CHECKSUM_SEED));
        SameTrailer(a, b, i);
      } else {
        StraddlingInvisible(a, b, i);
      }
    }
  }

  lemma SameBody(a: seq<byte>, b: seq<byte>)
    requires 20 <= |a| && AgreeOutside(a, b, |a| - 4, 4)
    ensures |a| == |b| && a[16..|a| - 4] == b[16..|a| - 4] && (a == b <==> a[|a| - 4..] == b[|a| - 4..])
  {
    var m := |a| - 4;
    assert a == a[..m] + a[m..] && b == b[..m] + b[m..];
    assert a[..m] == b[..m];
  }

  lemma TrailerOnly(a: seq<byte>, b: seq<byte>)
    requires 20 <= |a| && AgreeOutside(a, b, |a| - 4, 4) && ChecksumMatches(a)
    ensures ChecksumMatches(b) <==> a == b
  {
    var m := |a| - 4;
    SameBody(a, b);
    hide Checksum, LeWord, AgreeOutside;
    if ChecksumMatches(b) {
      SameWord(a[m..], b[m..]);
    }
  }

  /** A little-endian word is its four bytes. */
  lemma SameWord(t: seq<byte>, u: seq<byte>)
    requires |t| == 4 && |u| == 4 && LeWord(t) == LeWord(u)
    ensures t == u
  {
    hide Le, Low, Shift;
    LeParts(t[0] as bv8, t[1] as bv8, t[2] as bv8, t[3] as bv8);
    LeParts(u[0] as bv8, u[1] as bv8, u[2] as bv8, u[3] as bv8);
    forall k | 0 <= k < 4
      ensures t[k] == u[k]
    {
      ByteAsBits(t[k]);
      ByteAsBits(u[k]);
    }
  }

  lemma SameParts(v: bv32, w: bv32)
    requires Low(v) == Low(w) && Low(Shift(v)) == Low(Shift(w))
    requires Low(Shift(Shift(v))) == Low(Shift(Shift(w))) && Low(Shift(Shift(Shift(v)))) == Low(Shift(Shift(Shift(w))))
    ensures v == w
  {
  }

  lemma XorFollows(p: bv32, q: bv32, c: bv32, d: bv32)
    requires p == Not(c) && Xor(p, q) == Xor(c, d)
    ensures q == Not(d)
  {
  }

  /** A stored checksum that changes by the difference of the computed ones still matches. */
  lemma TrailerFollows(t: seq<byte>, u: seq<byte>, c: bv32, d: bv32)
    requires |t| == 4 && |u| == 4 && LeWord(t) == Not(c) && Difference(Bits(t), Bits(u)) == WordParts(Xor(c, d))
    ensures LeWord(u) == Not(d)
  {
    hide Shift, Low, Xor, XorByte, Le, Not;
    var p, q, w := LeWord(t), LeWord(u), Xor(c, d);
    LeParts(t[0] as bv8, t[1] as bv8, t[2] as bv8, t[3] as bv8);
    LeParts(u[0] as bv8, u[1] as bv8, u[2] as bv8, u[3] as bv8);
    XorSplits(p, q);
    XorSplits(Shift(p), Shift(q));
    XorSplits(Shift(Shift(p)), Shift(Shift(q)));
    XorSplits(Shift(Shift(Shift(p))), Shift(Shift(Shift(q))));
    var e := Difference(Bits(t), Bits(u));
    assert e[0] == Low(w) && e[1] == Low(Shift(w)) && e[2] == Low(Shift(Shift(w)))
        && e[3] == Low(Shift(Shift(Shift(w))));
    SameParts(Xor(p, q), w);
    XorFollows(p, q, c, d);
  }

  lemma StraddlingInvisible(a: seq<byte>, b: seq<byte>, i: nat)
    requires 20 <= |a| && AgreeOutside(a, b, i, 4) && 16 <= i && |a| - 8 < i < |a| - 4
    requires ChecksumMatches(a) && Invisible(Changes(a, b)[i..i + 4])
    ensures ChecksumMatches(b)
  {
    hide Fold, Invisible, Bits, Xor, XorByte, Difference, LeWord, Not, WordParts, Changes;
    var m := |a| - 4;
    StraddlingState(a, b, i);
    StraddlingRest(a, b, i);
    CoveredChanges(a[16..m], b[16..m], Not(CHECKSUM_SEED));
    ChangesSlice(a, b, 16, m);
    ChangesSlice(a, b, m, |a|);
    assert a[m..] == a[m..|a|] && b[m..] == b[m..|a|];
    TrailerWords(a[m..], b[m..], Fold(Bits(a[16..m]), Not(CHECKSUM_SEED)), Fold(Bits(b[16..m]), Not(CHECKSUM_SEED)));
  }

  lemma TrailerWords(t: seq<byte>, u: seq<byte>, c: bv32, d: bv32)
    requires |t| == 4 && |u| == 4 && LeWord(t) == Not(c) && Changes(t, u) == WordParts(Xor(c, d))
    ensures LeWord(u) == Not(d)
  {
    hide Xor, Difference, Bits, LeWord, WordParts;
    TrailerFollows(t, u, c, d);
  }

  lemma StraddlingState(a: seq<byte>, b: seq<byte>, i: nat)
    requires 20 <= |a| && AgreeOutside(a, b, i, 4) && 16 <= i && |a| - 8 < i < |a| - 4
    ensures var m := |a| - 4;
            Fold(Changes(a, b)[16..m], 0) == Fold(Changes(a, b)[i..i + 4][..m - i], 0)
  {
    hide Fold, Changes;
    var m := |a| - 4;
    var e := Changes(a, b);
    forall k | 0 <= k < |e[16..i]|
      ensures e[16..i][k] == 0
    {
      ChangesAt(a, b, k + 16);
    }
    LowAndShift(0);
    FoldQuiet(e[16..i], 0);
    FoldConcat(e[16..i], e[i..m], 0);
    assert e[16..m] == e[16..i] + e[i..m];
    assert e[i..i + 4][..m - i] == e[i..m];
  }

  lemma StraddlingRest(a: seq<byte>, b: seq<byte>, i: nat)
    requires 20 <= |a| && AgreeOutside(a, b, i, 4) && 16 <= i && |a| - 8 < i < |a| - 4
    requires Invisible(Changes(a, b)[i..i + 4])
    ensures var m := |a| - 4;
            Changes(a, b)[m..|a|] == WordParts(Fold(Changes(a, b)[i..i + 4][..m - i], 0))
  {
    hide Fold, Changes, Invisible, WordParts;
    var m := |a| - 4;
    var e := Changes(a, b);
    var k := m - i;
    InvisibleRest(e[i..i + 4], k);
    forall j | 0 <= j < 4
      ensures e[m..|a|][j] == (e[i..i + 4] + [0, 0, 0])[k..k + 4][j]
    {
      ChangesAt(a, b, m + j);
    }
    assert e[m..|a|] == (e[i..i + 4] + [0, 0, 0])[k..k + 4];
  }

  lemma SameTrailer(a: seq<byte>, b: seq<byte>, i: nat)
    requires 20 <= |a| && AgreeOutside(a, b, i, 4) && 16 <= i && i + 4 <= |a| - 4
    requires Fold(Bits(a[16..|a| - 4]), Not(CHECKSUM_SEED)) == Fold(Bits(b[16..|a| - 4]), Not(CHECKSUM_SEED))
    ensures ChecksumMatches(a) == ChecksumMatches(b)
  {
    hide Checksum, LeWord, Fold, Bits, Not;
    ChecksumOfState(a[16..|a| - 4], b[16..|a| - 4], CHECKSUM_SEED);
    assert a[|a| - 4..] == b[|a| - 4..];
  }

  lemma ChecksumOfState(a: seq<byte>, b: seq<byte>, start: bv32)
    requires Fold(Bits(a), Not(start)) == Fold(Bits(b), Not(start))
    ensures Checksum(a, start) == Checksum(b, start)
  {
    hide Fold, Bits, Not;
  }

  lemma CoveredInvisible(a: seq<byte>, b: seq<byte>, i: nat, seed: bv32)
    requires 20 <= |a| && AgreeOutside(a, b, i, 4) && 16 <= i && i + 4 <= |a| - 4
    requires Invisible(Changes(a, b)[i..i + 4])
    ensures Fold(Bits(a[16..|a| - 4]), seed) == Fold(Bits(b[16..|a| - 4]), seed)
  {
    hide Fold, Changes, Invisible, Bits, Xor;
    var m := |a| - 4;
    var e := Changes(a, b)[16..];
    ChangesBurst(a, b, i);
    BurstMissed(e, i - 16);
    assert e[i - 16..i - 12] == Changes(a, b)[i..i + 4];
    assert e == e[..m - 16] + e[m - 16..];
    FoldConcat(e[..m - 16], e[m - 16..], 0);
    QuietTail(e, i - 16, m - 16);
    ChangesSlice(a, b, 16, m);
    assert e[..m - 16] == Changes(a, b)[16..m];
    CoveredChanges(a[16..m], b[16..m], seed);
    XorZero(Fold(Bits(a[16..m]), seed), Fold(Bits(b[16..m]), seed));
  }

  lemma QuietTail(e: seq<bv8>, i: nat, m: nat)
    requires Burst(e, i, 4) && i + 4 <= m <= |e|
    ensures Fold(e[m..], Fold(e[..m], 0)) == 0 <==> Fold(e[..m], 0) == 0
  {
    hide Fold, TopAgree;
    LowAndShift(0);
    FoldTop(e[..m], 0);
    FoldQuiet(e[m..], Fold(e[..m], 0));
  }

  lemma XorZero(a: bv32, b: bv32)
    requires Xor(a, b) == 0
    ensures a == b
  {
  }

  // ----- Canonical form -----

  datatype SaveEncoding = SteamCanonical | IosRawLz4

  datatype CanonicalSave = CanonicalSave(bytes: seq<byte>, encoding: SaveEncoding)

  function Canonical(input: seq<byte>): Option<CanonicalSave> {
    if StartsWith(input, REPENTANCE_MAGIC) then
      if Accepts(input) then Some(CanonicalSave(input, SteamCanonical)) else None
    else
      match Decoded(input)
      case None => None
      case Some(decoded) => if Accepts(decoded) then Some(CanonicalSave(decoded, IosRawLz4)) else None
  }

  method CanonicalizeSave(input: seq<byte>) returns (r: Option<CanonicalSave>)
    ensures r == Canonical(input)
  {
    hide Accepts, Decoded;
    if StartsWith(input, REPENTANCE_MAGIC) {
      var ok := ValidateCanonical(input);
      if !ok {
        return None;
      }
      return Some(CanonicalSave(input, SteamCanonical));
    }
    var decoded := DecodeRawLz4(input);
    if decoded.None? {
      return None;
    }
    var ok := ValidateCanonical(decoded.value);
    if !ok {
      return None;
    }
    return Some(CanonicalSave(decoded.value, IosRawLz4));
  }

  /** The magic is not the start of any LZ4 block: its first match would reach before the output. */
  lemma MagicIsNotLz4(input: seq<byte>)
    requires StartsWith(input, REPENTANCE_MAGIC)
    ensures Decoded(input) == None
  {
    hide Finish, FinishMatch;
    if |input| <= MAX_SAVE_SIZE {
      assert forall k :: 0 <= k < 16 ==> input[k] == input[..16][k];
      FinishSequence(input, []);
      assert ParseLength(input[1..], 4) == Some(Read(4, input[1..]));
      var l, u := input[1..][..4], input[1..][4..];
      assert u[0] == 0x4E && u[1] == 0x47;
      FarMatch([] + l, 9, u);
    }
  }

  lemma FarMatch(out: seq<byte>, nibble: nat, u: seq<byte>)
    requires 2 <= |u| && |out| < u[0] as int + 0x100 * u[1] as int
    ensures FinishMatch(out, nibble, u) == None
  {
  }

  /** Canonicalizing is idempotent, its result is a valid save, and the encoding tells the two forms apart. */
  lemma CanonicalIdempotent(input: seq<byte>)
    requires Canonical(input).Some?
    ensures var c := Canonical(input).value;
            && Accepts(c.bytes)
            && Canonical(c.bytes) == Some(CanonicalSave(c.bytes, SteamCanonical))
            && (c.encoding == SteamCanonical <==> c.bytes == input)
            && (c.encoding == SteamCanonical <==> Decoded(input) == None)
  {
    hide Decoded, Grammar.Parse, ChecksumMatches;
    var c := Canonical(input).value;
    if c.encoding == SteamCanonical {
      MagicIsNotLz4(input);
    }
  }

  /** Every valid save whose literal-only LZ4 form fits is read back from it as the same save. */
  lemma CanonicalOfLz4(bytes: seq<byte>, spare: nat)
    requires Accepts(bytes) && spare < 16 && |Print(Literals(bytes, spare))| <= MAX_SAVE_SIZE
    ensures Canonical(Print(Literals(bytes, spare))) == Some(CanonicalSave(bytes, IosRawLz4))
  {
    hide Decoded, Accepts;
    LiteralOnlyRoundTrip(bytes, spare);
    if StartsWith(Print(Literals(bytes, spare)), REPENTANCE_MAGIC) {
      MagicIsNotLz4(Print(Literals(bytes, spare)));
    }
  }
}
