/** Where everything lies in an accepted save, word by word. */
module SaveLayout {
  import opened Bytes
  import opened IsaacFormat
  import opened Lz4
  import Grammar = SaveGrammar

  // ----- Sections and subsections -----

  /** A section of type t with its three header words starts here, and its data ends there: section 1 says
      the size of its data, sections 2, 3, 8 and 9 count words, and the others count bytes. */
  ghost predicate SectionAt(bytes: seq<byte>, start: nat, t: nat, end: nat) {
    && start + 12 <= |bytes| && WordAt(bytes, start) == t
    && end == start + 12 + (if t == 1 then WordAt(bytes, start + 4)
                            else if t in {2, 3, 8, 9} then 4 * WordAt(bytes, start + 8)
                            else WordAt(bytes, start + 8))
    && end <= |bytes|
  }

  /** A bestiary subsection with its two header words starts here, and its data, two bytes for each of the
      counted ones, ends there; the count is a multiple of four. */
  ghost predicate SubsectionAt(bytes: seq<byte>, start: nat, subtype: nat, end: nat) {
    && start + 8 <= |bytes| && WordAt(bytes, start) == subtype && WordAt(bytes, start + 4) % 4 == 0
    && end == start + 8 + 2 * WordAt(bytes, start + 4) && end <= |bytes|
  }

  /** Four subsections, of types 4, 2, 3 and 1, follow each other. */
  ghost predicate SubsectionsAt(bytes: seq<byte>, q: seq<nat>) {
    && |q| == 5
    && SubsectionAt(bytes, q[0], 4, q[1]) && SubsectionAt(bytes, q[1], 2, q[2])
    && SubsectionAt(bytes, q[2], 3, q[3]) && SubsectionAt(bytes, q[3], 1, q[4])
  }

  ghost function CountSum(bytes: seq<byte>, q: seq<nat>): nat
    requires SubsectionsAt(bytes, q)
  {
    WordAt(bytes, q[0] + 4) + WordAt(bytes, q[1] + 4) + WordAt(bytes, q[2] + 4) + WordAt(bytes, q[3] + 4)
  }

  /** Section 11 has count 4, its subsections, whose counts add up to its size, and the trailer behind it. */
  ghost predicate BestiaryAt(bytes: seq<byte>, start: nat, q: seq<nat>) {
    && start + 12 <= |bytes| && WordAt(bytes, start) == 11 && WordAt(bytes, start + 8) == 4
    && SubsectionsAt(bytes, q) && q[0] == start + 12
    && CountSum(bytes, q) == WordAt(bytes, start + 4)
    && q[4] + 8 == |bytes|
  }

  /** From section t on, the sections start at these positions, the last one being the bestiary. */
  ghost predicate SectionsAt(bytes: seq<byte>, at: seq<nat>, t: nat, q: seq<nat>) {
    && 1 <= t <= 11 && |at| == 12 - t
    && (forall i :: 0 <= i < 11 - t ==> SectionAt(bytes, at[i], t + i, at[i + 1]))
    && BestiaryAt(bytes, at[11 - t], q)
  }

  /** The whole file: the magic and the stamp, eleven sections from byte 20 on, and the trailer. */
  ghost predicate LaidOut(bytes: seq<byte>, at: seq<nat>, q: seq<nat>) {
    && 20 <= |bytes| <= MAX_SAVE_SIZE && bytes[..16] == REPENTANCE_MAGIC
    && SectionsAt(bytes, at, 1, q) && at[0] == 20
  }

  // ----- The bestiary -----

  /** One subsection of the loop over the bestiary. */
  lemma SubsectionStep(bytes: seq<byte>, start: nat, subtypes: seq<nat>, payload: nat)
    requires subtypes != [] && start <= |bytes|
    ensures var r := Summary(Grammar.ParseParts(bytes[start..], subtypes), payload);
            if start + 8 <= |bytes| && SubsectionAt(bytes, start, subtypes[0], start + 8 + 2 * WordAt(bytes, start + 4))
            then var n := WordAt(bytes, start + 4);
                 r == Summary(Grammar.ParseParts(bytes[start + 8 + 2 * n..], subtypes[1..]), payload + n)
            else r == None
  {
    hide WordAt, Summary, Grammar.ParseParts;
    var s := bytes[start..];
    if start + 8 <= |bytes| {
      WordShift(bytes, start, 0);
      WordShift(bytes, start, 4);
      var n := WordAt(bytes, start + 4);
      if SubsectionAt(bytes, start, subtypes[0], start + 8 + 2 * n) {
        var part := Grammar.Part(n, s[8..8 + 2 * n]);
        Grammar.ParsePart(s, subtypes, part);
        SummaryStep(part, Grammar.ParseParts(s[8 + 2 * n..], subtypes[1..]), payload);
        Suffix(bytes, start, 8 + 2 * n);
      } else {
        BadPart(s, subtypes, payload);
      }
    } else {
      BadPart(s, subtypes, payload);
    }
  }

  lemma Subtypes()
    ensures Grammar.SUBTYPES[1..] == [2, 3, 1] && Grammar.SUBTYPES[2..] == [3, 1] && Grammar.SUBTYPES[3..] == [1]
    ensures Grammar.SUBTYPES == [4, 2, 3, 1] && [4, 2, 3, 1][1..] == [2, 3, 1] && [2, 3, 1][1..] == [3, 1]
    ensures [3, 1][1..] == [1] && [1][1..] == []
  {
  }

  /** Subsections that follow each other are what the loop reads. */
  lemma SubsectionsRead(bytes: seq<byte>, q: seq<nat>)
    requires SubsectionsAt(bytes, q)
    ensures Summary(Grammar.ParseParts(bytes[q[0]..], Grammar.SUBTYPES), 0)
         == Some(Outcome(CountSum(bytes, q), bytes[q[4]..]))
  {
    Subtypes();
    hide WordAt, Summary, Grammar.ParseParts;
    SubsectionStep(bytes, q[0], [4, 2, 3, 1], 0);
    var n0 := WordAt(bytes, q[0] + 4);
    SubsectionStep(bytes, q[1], [2, 3, 1], n0);
    var n1 := n0 + WordAt(bytes, q[1] + 4);
    SubsectionStep(bytes, q[2], [3, 1], n1);
    var n2 := n1 + WordAt(bytes, q[2] + 4);
    SubsectionStep(bytes, q[3], [1], n2);
    AllParts(bytes[q[4]..], n2 + WordAt(bytes, q[3] + 4));
  }

  /** What the loop reads are subsections that follow each other. */
  lemma ReadSubsections(bytes: seq<byte>, start: nat) returns (q: seq<nat>)
    requires start <= |bytes| && Summary(Grammar.ParseParts(bytes[start..], Grammar.SUBTYPES), 0).Some?
    ensures SubsectionsAt(bytes, q) && q[0] == start
  {
    Subtypes();
    hide WordAt, Summary, Grammar.ParseParts;
    SubsectionStep(bytes, start, [4, 2, 3, 1], 0);
    var n0 := WordAt(bytes, start + 4);
    var q1 := start + 8 + 2 * n0;
    SubsectionStep(bytes, q1, [2, 3, 1], n0);
    var n1 := WordAt(bytes, q1 + 4);
    var q2 := q1 + 8 + 2 * n1;
    SubsectionStep(bytes, q2, [3, 1], n0 + n1);
    var n2 := WordAt(bytes, q2 + 4);
    var q3 := q2 + 8 + 2 * n2;
    SubsectionStep(bytes, q3, [1], n0 + n1 + n2);
    q := [start, q1, q2, q3, q3 + 8 + 2 * WordAt(bytes, q3 + 4)];
  }

  lemma BestiaryIff(bytes: seq<byte>, start: nat)
    requires start <= |bytes|
    ensures Remaining(bytes[start..], 11) <==> exists q :: BestiaryAt(bytes, start, q)
  {
    hide WordAt, Summary, Grammar.ParseParts, Remaining, SubsectionsAt, CountSum;
    var s := bytes[start..];
    if |s| < 12 {
      ShortSection(s, 11);
    } else {
      BestiaryStep(s);
      WordShift(bytes, start, 0);
      WordShift(bytes, start, 4);
      WordShift(bytes, start, 8);
      Suffix(bytes, start, 12);
      if Remaining(s, 11) {
        var q := ReadSubsections(bytes, start + 12);
        SubsectionsRead(bytes, q);
        EndsAt(bytes, q);
        assert BestiaryAt(bytes, start, q);
      }
      if q :| BestiaryAt(bytes, start, q) {
        SubsectionsRead(bytes, q);
        EndsAt(bytes, q);
      }
    }
  }

  lemma EndsAt(bytes: seq<byte>, q: seq<nat>)
    requires SubsectionsAt(bytes, q)
    ensures q[4] <= |bytes| && (Remaining(bytes[q[4]..], 12) <==> q[4] + 8 == |bytes|)
  {
    hide WordAt;
  }

  // ----- All sections -----

  lemma SectionSize(bytes: seq<byte>, start: nat, t: nat, end: nat)
    requires 1 <= t < 11 && start + 12 <= |bytes|
    ensures SectionAt(bytes, start, t, end)
       <==> && WordAt(bytes, start) == t
            && end == start + 12 + Grammar.DataSize(t, WordAt(bytes, start + 4), WordAt(bytes, start + 8))
            && end <= |bytes|
  {
    hide WordAt;
  }

  lemma SectionIff(bytes: seq<byte>, start: nat, t: nat)
    requires 1 <= t < 11 && start <= |bytes|
    ensures Remaining(bytes[start..], t)
       <==> exists end: nat :: SectionAt(bytes, start, t, end) && Remaining(bytes[end..], t + 1)
  {
    hide WordAt, Remaining, Grammar.DataSize;
    var s := bytes[start..];
    if |s| < 12 {
      ShortSection(s, t);
    } else {
      SectionStep(s, t);
      WordShift(bytes, start, 0);
      WordShift(bytes, start, 4);
      WordShift(bytes, start, 8);
      var size := Grammar.DataSize(t, WordAt(s, 4), WordAt(s, 8));
      Suffix12(bytes, start, size);
      forall end: nat
        ensures SectionAt(bytes, start, t, end)
           <==> WordAt(s, 0) == t && end == start + 12 + size && end <= |bytes|
      {
        SectionSize(bytes, start, t, end);
      }
      hide SectionAt;
      if Remaining(s, t) {
        assert SectionAt(bytes, start, t, start + 12 + size);
      }
    }
  }

  /** What is parsed from some section on is laid out from there. */
  lemma {:induction false} ParsedIsLaidOut(bytes: seq<byte>, start: nat, t: nat) returns (at: seq<nat>, q: seq<nat>)
    requires 1 <= t <= 11 && start <= |bytes| && Remaining(bytes[start..], t)
    ensures SectionsAt(bytes, at, t, q) && at[0] == start
    decreases 11 - t
  {
    hide WordAt, Remaining, BestiaryAt;
    if t == 11 {
      BestiaryIff(bytes, start);
      q :| BestiaryAt(bytes, start, q);
      at := [start];
    } else {
      SectionIff(bytes, start, t);
      var end: nat :| SectionAt(bytes, start, t, end) && Remaining(bytes[end..], t + 1);
      var rest;
      rest, q := ParsedIsLaidOut(bytes, end, t + 1);
      at := [start] + rest;
      hide SectionAt;
      forall i | 0 <= i < 11 - t
        ensures SectionAt(bytes, at[i], t + i, at[i + 1])
      {
        if i > 0 {
          assert SectionAt(bytes, rest[i - 1], t + 1 + (i - 1), rest[i]);
        }
      }
    }
  }

  lemma SectionsTail(bytes: seq<byte>, at: seq<nat>, t: nat, q: seq<nat>)
    requires t < 11 && SectionsAt(bytes, at, t, q)
    ensures SectionAt(bytes, at[0], t, at[1]) && SectionsAt(bytes, at[1..], t + 1, q)
  {
    hide SectionAt, BestiaryAt;
    assert SectionAt(bytes, at[0], t + 0, at[0 + 1]);
    forall i | 0 <= i < 11 - (t + 1)
      ensures SectionAt(bytes, at[1..][i], t + 1 + i, at[1..][i + 1])
    {
      assert SectionAt(bytes, at[i + 1], t + (i + 1), at[i + 1 + 1]);
    }
  }

  lemma {:induction false} LaidOutIsParsed(bytes: seq<byte>, at: seq<nat>, t: nat, q: seq<nat>)
    requires SectionsAt(bytes, at, t, q)
    ensures at[0] <= |bytes| && Remaining(bytes[at[0]..], t)
    decreases 11 - t
  {
    hide WordAt, Remaining;
    if t == 11 {
      BestiaryIff(bytes, at[0]);
    } else {
      SectionsTail(bytes, at, t, q);
      LaidOutIsParsed(bytes, at[1..], t + 1, q);
      SectionIff(bytes, at[0], t);
    }
  }

  /** The validator accepts a file exactly when it is laid out like this and its checksum is right. */
  lemma AcceptsIffLaidOut(bytes: seq<byte>)
    ensures Accepts(bytes) <==> 20 <= |bytes| && ChecksumMatches(bytes) && exists at, q :: LaidOut(bytes, at, q)
  {
    hide WordAt, Grammar.Parse, ChecksumMatches, SectionsAt;
    if 20 <= |bytes| {
      RemainingStarts(bytes[20..]);
      if Accepts(bytes) {
        hide Remaining;
        var at, q := ParsedIsLaidOut(bytes, 20, 1);
        assert LaidOut(bytes, at, q);
      }
      if at, q :| LaidOut(bytes, at, q) {
        hide Remaining;
        LaidOutIsParsed(bytes, at, 1, q);
      }
    }
  }
}
