/** Exactly one checksum seals a save, and exactly which small damage goes unnoticed. */
module SaveIntegrity {
  import opened Bytes
  import opened BitVectors
  import opened IsaacCrc
  import opened IsaacFormat
  import opened Lz4
  import Grammar = SaveGrammar

  // ----- Sealing -----

  function LeBytes(w: bv32): (s: seq<byte>)
    ensures |s| == 4
  {
    [Low(w) as int, Low(Shift(w)) as int, Low(Shift(Shift(w))) as int, Low(Shift(Shift(Shift(w)))) as int]
  }

  lemma LeWhole(w: bv32)
    ensures Le(Low(w), Low(Shift(w)), Low(Shift(Shift(w))), Low(Shift(Shift(Shift(w))))) == w
  {
  }

  lemma LeBytesWord(w: bv32)
    ensures LeWord(LeBytes(w)) == w
  {
    hide Le, Low, Shift;
    LeWhole(w);
    BitsAsByte(Low(w));
    BitsAsByte(Low(Shift(w)));
    BitsAsByte(Low(Shift(Shift(w))));
    BitsAsByte(Low(Shift(Shift(Shift(w)))));
  }

  /** The body with another stored checksum. */
  function WithChecksum(b: Grammar.Body, checksum: seq<byte>): Grammar.Body {
    match b
    case More(blockSize, count, data, rest) => Grammar.More(blockSize, count, data, WithChecksum(rest, checksum))
    case Last(parts, spare, _) => Grammar.Last(parts, spare, checksum)
  }

  function Sealed(s: Save, checksum: seq<byte>): Save {
    s.(body := WithChecksum(s.body, checksum))
  }

  lemma {:induction false} SealedPrint(b: Grammar.Body, t: nat, checksum: seq<byte>)
    requires Grammar.WellFormed(b, t) && |checksum| == 4
    ensures Grammar.WellFormed(WithChecksum(b, checksum), t)
    ensures var p := Grammar.Print(b, t);
            4 <= |p| && Grammar.Print(WithChecksum(b, checksum), t) == p[..|p| - 4] + checksum
  {
    hide Grammar.Header, Grammar.PrintParts, Grammar.DataSize, Grammar.PartsOk, Grammar.Payload;
    match b
    case More(blockSize, count, data, rest) =>
      SealedPrint(rest, t + 1, checksum);
      var head := Grammar.Header(t, blockSize, count) + data;
      var p, q := Grammar.Print(rest, t + 1), Grammar.Print(WithChecksum(rest, checksum), t + 1);
      assert Grammar.Print(b, t) == head + p;
      assert (head + p)[..|head + p| - 4] == head + p[..|p| - 4];
      assert Grammar.Print(WithChecksum(b, checksum), t) == head + q;
    case Last(parts, spare, was) =>
      var head := Grammar.Header(t, Grammar.Payload(parts), 4) + (Grammar.PrintParts(Grammar.SUBTYPES, parts) + spare);
      assert Grammar.Print(b, t) == head + was;
      assert (head + was)[..|head|] == head;
      assert Grammar.Print(WithChecksum(b, checksum), t) == head + checksum;
  }

  /** The one checksum that makes the save valid. */
  function SealOf(s: Save): (checksum: seq<byte>)
    requires IsSave(s)
    ensures |checksum| == 4
  {
    SealedPrint(s.body, 1, [0, 0, 0, 0]);
    var bytes := PrintSave(s);
    LeBytes(Checksum(bytes[16..|bytes| - 4], CHECKSUM_SEED))
  }

  lemma ResealedPrint(s: Save, checksum: seq<byte>)
    requires IsSave(s) && |checksum| == 4
    ensures IsSave(Sealed(s, checksum))
    ensures var p := PrintSave(s);
            24 <= |p| && PrintSave(Sealed(s, checksum)) == p[..|p| - 4] + checksum
  {
    SealedPrint(s.body, 1, checksum);
    hide Grammar.Print, Grammar.WellFormed, WithChecksum;
    var q := Grammar.Print(s.body, 1);
    var head := REPENTANCE_MAGIC + s.stamp;
    assert PrintSave(s) == head + q;
    assert (head + q)[..|head + q| - 4] == head + q[..|q| - 4];
  }

  lemma SealMatches(p: seq<byte>, checksum: seq<byte>)
    requires 20 <= |p| && |checksum| == 4
    ensures ChecksumMatches(p[..|p| - 4] + checksum)
       <==> checksum == LeBytes(Checksum(p[16..|p| - 4], CHECKSUM_SEED))
  {
    hide Checksum, LeBytes, LeWord;
    var bytes := p[..|p| - 4] + checksum;
    assert bytes[|bytes| - 4..] == checksum && bytes[16..|bytes| - 4] == p[16..|p| - 4];
    var computed := Checksum(p[16..|p| - 4], CHECKSUM_SEED);
    LeBytesWord(computed);
    if LeWord(checksum) == computed {
      SameWord(checksum, LeBytes(computed));
    }
  }

  /** Every stamp and list of sections that fits is accepted with exactly one stored checksum. */
  lemma SealedOnce(s: Save, checksum: seq<byte>)
    requires IsSave(s) && |PrintSave(s)| <= MAX_SAVE_SIZE && |checksum| == 4
    ensures IsSave(Sealed(s, checksum))
    ensures Accepts(PrintSave(Sealed(s, checksum))) <==> checksum == SealOf(s)
  {
    hide Checksum, ChecksumMatches, Grammar.Parse, PrintSave, Sealed, IsSave, LeWord, LeBytes, StartsWith;
    ResealedPrint(s, checksum);
    SealedGrammar(Sealed(s, checksum));
    SealMatches(PrintSave(s), checksum);
  }

  lemma Pieces(a: seq<byte>, b: seq<byte>, c: seq<byte>)
    requires |a| == 16 && |b| == 4
    ensures (a + b + c)[..16] == a && (a + b + c)[16..20] == b && (a + b + c)[20..] == c
  {
  }

  lemma SealedGrammar(s: Save)
    requires IsSave(s)
    ensures var bytes := PrintSave(s);
            && StartsWith(bytes, REPENTANCE_MAGIC) && 20 <= |bytes|
            && bytes[16..20] == s.stamp && bytes[20..] == Grammar.Print(s.body, 1)
            && Grammar.Parse(bytes[20..], 1) == Some(s.body)
  {
    hide Grammar.Print, Grammar.Parse, Grammar.WellFormed;
    Grammar.ParsePrint(s.body, 1);
    Pieces(REPENTANCE_MAGIC, s.stamp, Grammar.Print(s.body, 1));
  }

  // ----- Damage -----

  /** Of all changes of an accepted save within four consecutive bytes the validator accepts exactly the
      invisible ones, outside the magic and not of the stored checksum alone, that leave the sections
      readable. */
  lemma FourByteAccepted(a: seq<byte>, b: seq<byte>, i: nat)
    requires Accepts(a) && AgreeOutside(a, b, i, 4) && i + 4 <= |a|
    ensures Accepts(b) <==>
              || a == b
              || (16 <= i < |a| - 4 && Invisible(Changes(a, b)[i..i + 4]) && Grammar.Parse(b[20..], 1).Some?)
  {
    hide Grammar.Parse, ChecksumMatches, Changes, Invisible;
    if i < 16 {
      if Accepts(b) {
        assert forall k :: 0 <= k < 16 ==> a[k] == a[..16][k] && b[k] == b[..16][k];
        assert AgreeOutside(a, b, 16, 3);
        BurstHarmless(a, b, 16, 3);
      }
    } else {
      FourByteMissed(a, b, i);
      assert forall k :: 0 <= k < 16 ==> a[k] == b[k];
      assert a[..16] == b[..16];
    }
  }

  /** The first four bytes of section 1's data changed by the first invisible error. */
  function Blot(data: seq<byte>): (d: seq<byte>)
    requires 4 <= |data|
    ensures |d| == |data|
  {
    [XorByte(data[0] as bv8, 0x45) as int, XorByte(data[1] as bv8, 0x1F) as int,
     XorByte(data[2] as bv8, 0xB5) as int, XorByte(data[3] as bv8, 0xB6) as int] + data[4..]
  }

  lemma XorTwice(x: bv8, y: bv8)
    ensures XorByte(x, XorByte(x, y)) == y
  {
  }

  lemma BlotChange(x: byte, e: bv8)
    ensures XorByte(x as bv8, (XorByte(x as bv8, e) as int) as bv8) == e
  {
    hide XorByte;
    BitsAsByte(XorByte(x as bv8, e));
    XorTwice(x as bv8, e);
  }

  function Blotted(s: Save): Save
    requires s.body.More? && 4 <= |s.body.data|
  {
    s.(body := s.body.(data := Blot(s.body.data)))
  }

  /** Whatever its first section holds, if that is at least four bytes, an accepted save has a different
      accepted save that agrees with it outside those four bytes. */
  lemma BlotUnnoticed(s: Save)
    requires IsSave(s) && Accepts(PrintSave(s)) && s.body.More? && 4 <= |s.body.data|
    ensures IsSave(Blotted(s)) && Accepts(PrintSave(Blotted(s))) && PrintSave(Blotted(s)) != PrintSave(s)
    ensures AgreeOutside(PrintSave(s), PrintSave(Blotted(s)), 32, 4)
  {
    hide PrintSave, Accepts, Invisible, Changes, Grammar.Parse, IsSave, Blot, Blotted;
    BlotPlace(s);
    SealedGrammar(Blotted(s));
    var a, b := PrintSave(s), PrintSave(Blotted(s));
    BlotInvisible(a, b, s.body.data);
    FourByteAccepted(a, b, 32);
  }

  lemma DataPlace(head: seq<byte>, d: seq<byte>, d': seq<byte>, tail: seq<byte>)
    requires |head| == 32 && 4 <= |d| == |d'| && d[4..] == d'[4..] && 8 <= |tail|
    ensures var a, b := head + d + tail, head + d' + tail;
            && AgreeOutside(a, b, 32, 4) && 44 <= |a|
            && a[32..36] == d[..4] && b[32..36] == d'[..4]
  {
    var a, b := head + d + tail, head + d' + tail;
    forall k | 0 <= k < |a| && (k < 32 || 36 <= k)
      ensures a[k] == b[k]
    {
      if 36 <= k < 32 + |d| {
        assert d[k - 32] == d[4..][k - 36] && d'[k - 32] == d'[4..][k - 36];
      }
    }
  }

  /** The two printings differ in the first four bytes of section 1's data alone. */
  lemma BlotPlace(s: Save)
    requires IsSave(s) && s.body.More? && 4 <= |s.body.data|
    ensures IsSave(Blotted(s))
    ensures var a, b := PrintSave(s), PrintSave(Blotted(s));
            && AgreeOutside(a, b, 32, 4) && 44 <= |a|
            && a[32..36] == s.body.data[..4] && b[32..36] == Blot(s.body.data)[..4]
  {
    var d := s.body.data;
    assert Blot(d)[4..] == d[4..];
    hide Grammar.Header, Grammar.Print, Blot, Grammar.DataSize, PrintSave;
    assert IsSave(Blotted(s));
    TailLength(s.body.rest, 2);
    PrintHead(s);
    PrintHead(Blotted(s));
    DataPlace(REPENTANCE_MAGIC + s.stamp + Grammar.Header(1, s.body.blockSize, s.body.count), d, Blot(d),
              Grammar.Print(s.body.rest, 2));
  }

  lemma PrintHead(s: Save)
    requires IsSave(s) && s.body.More?
    ensures PrintSave(s) == REPENTANCE_MAGIC + s.stamp + Grammar.Header(1, s.body.blockSize, s.body.count)
                            + s.body.data + Grammar.Print(s.body.rest, 2)
  {
    hide Grammar.Header, Grammar.DataSize;
  }

  lemma TailLength(b: Grammar.Body, t: nat)
    requires Grammar.WellFormed(b, t)
    ensures 12 <= |Grammar.Print(b, t)|
  {
    hide Grammar.Header, Grammar.PrintParts, Grammar.DataSize;
  }

  lemma Window(a: seq<byte>, d: seq<byte>)
    requires 36 <= |a| && 4 <= |d| && a[32..36] == d[..4]
    ensures a[32] == d[0] && a[33] == d[1] && a[34] == d[2] && a[35] == d[3]
  {
    assert a[32..36][0] == d[0] && a[32..36][1] == d[1] && a[32..36][2] == d[2] && a[32..36][3] == d[3];
  }

  lemma BlotInvisible(a: seq<byte>, b: seq<byte>, d: seq<byte>)
    requires 4 <= |d| && |a| == |b| && 40 <= |a|
    requires a[32..36] == d[..4] && b[32..36] == Blot(d)[..4]
    ensures Invisible(Changes(a, b)[32..36]) && a != b
  {
    BlotByte(a, b, d[0], 32, 0x45);
    BlotByte(a, b, d[1], 33, 0x1F);
    BlotByte(a, b, d[2], 34, 0xB5);
    BlotByte(a, b, d[3], 35, 0xB6);
    Window(a, d);
    Window(b, Blot(d));
    hide XorByte, Changes;
    assert Changes(a, b)[32..36] == [0x45, 0x1F, 0xB5, 0xB6];
    ChangesAt(a, b, 32);
  }

  lemma BlotByte(a: seq<byte>, b: seq<byte>, x: byte, k: nat, e: bv8)
    requires k < |a| == |b|
    ensures a[k] == x && b[k] == XorByte(x as bv8, e) as int ==> Changes(a, b)[k] == e
  {
    hide XorByte;
    BlotChange(x, e);
  }

  /** Sections t to 11, all empty. */
  function Empty(t: nat): Grammar.Body
    requires 1 <= t <= Grammar.SECTION_COUNT
    decreases Grammar.SECTION_COUNT - t
  {
    if t == Grammar.SECTION_COUNT then
      var none := Grammar.Part(0, []);
      Grammar.Last([none, none, none, none], [0, 0, 0, 0], [0, 0, 0, 0])
    else Grammar.More(0, 0, [], Empty(t + 1))
  }

  lemma {:induction false} EmptyPrint(t: nat)
    requires 1 <= t <= Grammar.SECTION_COUNT
    ensures Grammar.WellFormed(Empty(t), t)
    ensures |Grammar.Print(Empty(t), t)| <= 12 * (Grammar.SECTION_COUNT - t) + 52
    decreases Grammar.SECTION_COUNT - t
  {
    hide Grammar.Header, Grammar.PrintParts;
    if t == Grammar.SECTION_COUNT {
      var none := Grammar.Part(0, []);
      EmptyParts(Grammar.SUBTYPES, [none, none, none, none]);
    } else {
      EmptyPrint(t + 1);
    }
  }

  lemma EmptyParts(subtypes: seq<nat>, parts: seq<Grammar.Part>)
    requires |subtypes| == |parts| && Grammar.SmallWords(subtypes)
    requires forall k :: 0 <= k < |parts| ==> parts[k] == Grammar.Part(0, [])
    ensures Grammar.PartsOk(parts) && Grammar.Payload(parts) == 0
    ensures |Grammar.PrintParts(subtypes, parts)| == 8 * |parts|
  {
    if parts == [] {
    } else {
      EmptyParts(subtypes[1..], parts[1..]);
    }
  }

  /** There are two different accepted saves that agree outside four bytes of section 1. */
  lemma DamagedAccepted() returns (a: seq<byte>, b: seq<byte>)
    ensures Accepts(a) && Accepts(b) && a != b && AgreeOutside(a, b, 32, 4)
  {
    EmptyPrint(2);
    hide Grammar.Print, Grammar.Header, Empty, Accepts, Blot, Checksum, LeBytes, AgreeOutside;
    var s := Save([0, 0, 0, 0], Grammar.More(4, 4, [0, 0, 0, 0], Empty(2)));
    assert IsSave(s);
    PrintHead(s);
    assert |PrintSave(s)| <= MAX_SAVE_SIZE;
    hide PrintSave, SealOf;
    var whole := Sealed(s, SealOf(s));
    SealedOnce(s, SealOf(s));
    BlotUnnoticed(whole);
    a, b := PrintSave(whole), PrintSave(Blotted(whole));
  }
}
