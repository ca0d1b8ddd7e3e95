/** Reading achievement unlocks from the first section of a save. */
module SaveAchievements {
  import opened Bytes
  import opened IsaacFormat
  import Lz4
  import Grammar = SaveGrammar

  const SECTION_TABLE_OFFSET := 0x14
  const SECTION_HEADER_SIZE := 12
  const MAX_REPENTANCE_ACHIEVEMENT_ID := 637

  /** Achievement n is unlocked when byte n of the section's data is 1; byte 0 is not an achievement. */
  ghost function UnlockedIn(data: seq<byte>): set<nat> {
    set id: nat | 1 <= id < |data| && id <= MAX_REPENTANCE_ACHIEVEMENT_ID && data[id] == 1 :: id
  }

  /** Marking one byte with 1 unlocks its achievement alone, if it is one of 1 to 637; any other mark locks it. */
  lemma MarkUnlocks(data: seq<byte>, id: nat, mark: byte)
    requires id < |data|
    ensures UnlockedIn(data[id := mark])
         == if mark == 1 && 1 <= id <= 637 then UnlockedIn(data) + {id} else UnlockedIn(data) - {id}
  {
    var now := data[id := mark];
    assert forall k :: 0 <= k < |data| && k != id ==> now[k] == data[k];
    assert forall k: nat :: k != id ==> (k in UnlockedIn(now) <==> k in UnlockedIn(data));
    assert now[id] == mark;
  }

  ghost function UnlockedFromCanonical(bytes: seq<byte>): Option<set<nat>> {
    if |bytes| < 32 || WordAt(bytes, 20) != 1 then None
    else
      var size := WordAt(bytes, 24);
      if size != WordAt(bytes, 28) || 32 + size > |bytes| then None
      else Some(UnlockedIn(bytes[32..32 + size]))
  }

  method UnlockedAchievementIdsFromCanonical(bytes: seq<byte>) returns (r: Option<set<nat>>)
    ensures r == UnlockedFromCanonical(bytes)
  {
    hide WordAt;
    var headerEnd := SECTION_TABLE_OFFSET + SECTION_HEADER_SIZE;
    if |bytes| < headerEnd {
      return None;
    }
    var sectionType, _ := ReadU32(bytes, SECTION_TABLE_OFFSET);
    if sectionType != Some(1) {
      return None;
    }
    var blockSize, _ := ReadU32(bytes, SECTION_TABLE_OFFSET + 4);
    var entryCount, _ := ReadU32(bytes, SECTION_TABLE_OFFSET + 8);
    if blockSize.None? || entryCount.None? || blockSize.value != entryCount.value {
      return None;
    }
    var sectionStart := headerEnd;
    var sectionEnd := CheckedAdd(sectionStart, blockSize.value);
    if sectionEnd.None? || sectionEnd.value > |bytes| {
      return None;
    }
    ghost var data := bytes[32..32 + blockSize.value];
    var maxId := Min(if entryCount.value == 0 then 0 else entryCount.value - 1, MAX_REPENTANCE_ACHIEVEMENT_ID);
    var unlocked: set<nat> := {};
    for id := 1 to maxId + 1
      invariant forall k :: k in unlocked <==> 1 <= k < id && data[k] == 1
    {
      if bytes[sectionStart + id] == 1 {
        unlocked := unlocked + {id};
      }
    }
    assert unlocked == UnlockedIn(data);
    r := Some(unlocked);
  }

  method UnlockedAchievementIds(raw: seq<byte>) returns (r: Option<set<nat>>)
    ensures r == match Canonical(raw) case None => None case Some(c) => UnlockedFromCanonical(c.bytes)
  {
    hide Canonical, UnlockedFromCanonical;
    var canonical := CanonicalizeSave(raw);
    if canonical.None? {
      return None;
    }
    r := UnlockedAchievementIdsFromCanonical(canonical.value.bytes);
  }

  /** On a valid save the reader fails only when section 1's size and count differ; otherwise it returns
      exactly the marked identifiers of section 1. */
  lemma UnlockedOfSave(s: Save, bytes: seq<byte>)
    requires Represents(s, bytes)
    ensures s.body.More?
    ensures UnlockedFromCanonical(bytes)
         == if s.body.blockSize != s.body.count then None else Some(UnlockedIn(s.body.data))
  {
    hide WordAt, ChecksumMatches, Grammar.Header, Grammar.PrintParts, UnlockedIn;
    var b := s.body;
    var tail := Grammar.Print(b.rest, 2);
    Grammar.HeaderWords(1, b.blockSize, b.count, b.data + tail);
    var t := bytes[20..];
    assert t == Grammar.Header(1, b.blockSize, b.count) + (b.data + tail);
    WordShift(bytes, 20, 0);
    WordShift(bytes, 20, 4);
    WordShift(bytes, 20, 8);
    Suffix(bytes, 20, 12);
    assert t[12..] == b.data + tail;
    assert bytes[32..32 + |b.data|] == bytes[32..][..|b.data|] == b.data;
  }

  /** The unlocks read from a native LZ4 save are those of the save it encodes. */
  lemma UnlockedThroughLz4(s: Save, bytes: seq<byte>, raw: seq<byte>)
    requires Represents(s, bytes)
    requires raw == bytes || (!StartsWith(raw, REPENTANCE_MAGIC) && Lz4.Decoded(raw) == Some(bytes))
    ensures Canonical(raw).Some? && Canonical(raw).value.bytes == bytes
    ensures UnlockedFromCanonical(Canonical(raw).value.bytes)
         == if s.body.blockSize != s.body.count then None else Some(UnlockedIn(s.body.data))
  {
    hide Represents, Accepts, Lz4.Decoded, UnlockedFromCanonical, UnlockedIn;
    UnlockedOfSave(s, bytes);
    AcceptsIffRepresents(bytes);
    AcceptedMagic(bytes);
  }

  lemma AcceptedMagic(bytes: seq<byte>)
    requires Accepts(bytes)
    ensures StartsWith(bytes, REPENTANCE_MAGIC)
  {
  }
}
