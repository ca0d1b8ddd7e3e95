/** The game's table-driven 32-bit checksum. */
module IsaacCrc {
  import opened Bytes

  // ----- The checksum -----

  function Xor(a: bv32, b: bv32): bv32 {
    a ^ b
  }

  function Not(w: bv32): bv32 {
    !w
  }

  function XorByte(a: bv8, b: bv8): bv8 {
    a ^ b
  }

  function Shift(crc: bv32): bv32 {
    crc >> 8
  }

  function Low(crc: bv32): bv8 {
    (crc & 0xFF) as bv8
  }

  function Hi(i: bv8): (h: bv8)
    ensures h < 16
  {
    i >> 4
  }

  function Lo(i: bv8): (c: bv8)
    ensures c < 16
  {
    i & 0x0F
  }

  function Pick(c: bv8, w0: bv32, w1: bv32, w2: bv32, w3: bv32, w4: bv32, w5: bv32, w6: bv32, w7: bv32,
                w8: bv32, w9: bv32, wA: bv32, wB: bv32, wC: bv32, wD: bv32, wE: bv32, wF: bv32): bv32 {
    match c
    case 0 => w0 case 1 => w1 case 2 => w2 case 3 => w3 case 4 => w4 case 5 => w5 case 6 => w6 case 7 => w7
    case 8 => w8 case 9 => w9 case 10 => wA case 11 => wB case 12 => wC case 13 => wD case 14 => wE case _ => wF
  }

  /** The entries at 16h + c for the first eight rows h. */
  function FirstRows(h: bv8, c: bv8): bv32 {
    match h
    case 0 => Pick(c,
      0x00000000, 0x09073096, 0x120E612C, 0x1B0951BA, 0xFF6DC419, 0xF66AF48F, 0xED63A535, 0xE46495A3,
      0xFEDB8832, 0xF7DCB8A4, 0xECD5E91E, 0xE5D2D988, 0x01B64C2B, 0x08B17CBD, 0x13B82D07, 0x1ABF1D91)
    case 1 => Pick(c,
      0xFDB71064, 0xF4B020F2, 0xEFB97148, 0xE6BE41DE, 0x02DAD47D, 0x0BDDE4EB, 0x10D4B551, 0x19D385C7,
      0x036C9856, 0x0A6BA8C0, 0x1162F97A, 0x1865C9EC, 0xFC015C4F, 0xF5066CD9, 0xEE0F3D63, 0xE7080DF5)
    case 2 => Pick(c,
      0xFB6E20C8, 0xF269105E, 0xE96041E4, 0xE0677172, 0x0403E4D1, 0x0D04D447, 0x160D85FD, 0x1F0AB56B,
      0x05B5A8FA, 0x0CB2986C, 0x17BBC9D6, 0x1EBCF940, 0xFAD86CE3, 0xF3DF5C75, 0xE8D60DCF, 0xE1D13D59)
    case 3 => Pick(c,
      0x06D930AC, 0x0FDE003A, 0x14D75180, 0x1DD06116, 0xF9B4F4B5, 0xF0B3C423, 0xEBBA9599, 0xE2BDA50F,
      0xF802B89E, 0xF1058808, 0xEA0CD9B2, 0xE30BE924, 0x076F7C87, 0x0E684C11, 0x15611DAB, 0x1C662D3D)
    case 4 => Pick(c,
      0xF6DC4190, 0xFFDB7106, 0xE4D220BC, 0xEDD5102A, 0x09B18589, 0x00B6B51F, 0x1BBFE4A5, 0x12B8D433,
      0x0807C9A2, 0x0100F934, 0x1A09A88E, 0x130E9818, 0xF76A0DBB, 0xFE6D3D2D, 0xE5646C97, 0xEC635C01)
    case 5 => Pick(c,
      0x0B6B51F4, 0x026C6162, 0x196530D8, 0x1062004E, 0xF40695ED, 0xFD01A57B, 0xE608F4C1, 0xEF0FC457,
      0xF5B0D9C6, 0xFCB7E950, 0xE7BEB8EA, 0xEEB9887C, 0x0ADD1DDF, 0x03DA2D49, 0x18D37CF3, 0x11D44C65)
    case 6 => Pick(c,
      0x0DB26158, 0x04B551CE, 0x1FBC0074, 0x16BB30E2, 0xF2DFA541, 0xFBD895D7, 0xE0D1C46D, 0xE9D6F4FB,
      0xF369E96A, 0xFA6ED9FC, 0xE1678846, 0xE860B8D0, 0x0C042D73, 0x05031DE5, 0x1E0A4C5F, 0x170D7CC9)
    case _ => Pick(c,
      0xF005713C, 0xF90241AA, 0xE20B1010, 0xEB0C2086, 0x0F68B525, 0x066F85B3, 0x1D66D409, 0x1461E49F,
      0x0EDEF90E, 0x07D9C998, 0x1CD09822, 0x15D7A8B4, 0xF1B33D17, 0xF8B40D81, 0xE3BD5C3B, 0xEABA6CAD)
  }

  /** The entries at 16h + c for the last eight rows h. */
  function LastRows(h: bv8, c: bv8): bv32 {
    match h
    case 8 => Pick(c,
      0xEDB88320, 0xE4BFB3B6, 0xFFB6E20C, 0xF6B1D29A, 0x12D54739, 0x1BD277AF, 0x00DB2615, 0x09DC1683,
      0x13630B12, 0x1A643B84, 0x016D6A3E, 0x086A5AA8, 0xEC0ECF0B, 0xE509FF9D, 0xFE00AE27, 0xF7079EB1)
    case 9 => Pick(c,
      0x100F9344, 0x1908A3D2, 0x0201F268, 0x0B06C2FE, 0xEF62575D, 0xE66567CB, 0xFD6C3671, 0xF46B06E7,
      0xEED41B76, 0xE7D32BE0, 0xFCDA7A5A, 0xF5DD4ACC, 0x11B9DF6F, 0x18BEEFF9, 0x03B7BE43, 0x0AB08ED5)
    case 10 => Pick(c,
      0x16D6A3E8, 0x1FD1937E, 0x04D8C2C4, 0x0DDFF252, 0xE9BB67F1, 0xE0BC5767, 0xFBB506DD, 0xF2B2364B,
      0xE80D2BDA, 0xE10A1B4C, 0xFA034AF6, 0xF3047A60, 0x1760EFC3, 0x1E67DF55, 0x056E8EEF, 0x0C69BE79)
    case 11 => Pick(c,
      0xEB61B38C, 0xE266831A, 0xF96FD2A0, 0xF068E236, 0x140C7795, 0x1D0B4703, 0x060216B9, 0x0F05262F,
      0x15BA3BBE, 0x1CBD0B28, 0x07B45A92, 0x0EB36A04, 0xEAD7FFA7, 0xE3D0CF31, 0xF8D99E8B, 0xF1DEAE1D)
    case 12 => Pick(c,
      0x1B64C2B0, 0x1263F226, 0x096AA39C, 0x006D930A, 0xE40906A9, 0xED0E363F, 0xF6076785, 0xFF005713,
      0xE5BF4A82, 0xECB87A14, 0xF7B12BAE, 0xFEB61B38, 0x1AD28E9B, 0x13D5BE0D, 0x08DCEFB7, 0x01DBDF21)
    case 13 => Pick(c,
      0xE6D3D2D4, 0xEFD4E242, 0xF4DDB3F8, 0xFDDA836E, 0x19BE16CD, 0x10B9265B, 0x0BB077E1, 0x02B74777,
      0x18085AE6, 0x110F6A70, 0x0A063BCA, 0x03010B5C, 0xE7659EFF, 0xEE62AE69, 0xF56BFFD3, 0xFC6CCF45)
    case 14 => Pick(c,
      0xE00AE278, 0xE90DD2EE, 0xF2048354, 0xFB03B3C2, 0x1F672661, 0x166016F7, 0x0D69474D, 0x046E77DB,
      0x1ED16A4A, 0x17D65ADC, 0x0CDF0B66, 0x05D83BF0, 0xE1BCAE53, 0xE8BB9EC5, 0xF3B2CF7F, 0xFAB5FFE9)
    case _ => Pick(c,
      0x1DBDF21C, 0x14BAC28A, 0x0FB39330, 0x06B4A3A6, 0xE2D03605, 0xEBD70693, 0xF0DE5729, 0xF9D967BF,
      0xE3667A2E, 0xEA614AB8, 0xF1681B02, 0xF86F2B94, 0x1C0BBE37, 0x150C8EA1, 0x0E05DF1B, 0x0702EF8D)
  }

  /** Sixteen rows of sixteen entries. */
  function Row(h: bv8, c: bv8): bv32 {
    if h < 8 then FirstRows(h, c) else LastRows(h, c)
  }

  function IsaacCrcTable(index: bv8): bv32 {
    Row(Hi(index), Lo(index))
  }

  /** One round of the checksum loop. */
  function Step(crc: bv32, b: bv8): bv32 {
    Xor(Shift(crc), IsaacCrcTable(XorByte(b, Low(crc))))
  }

  function Fold(bits: seq<bv8>, crc: bv32): bv32 {
    if bits == [] then crc else Fold(bits[1..], Step(crc, bits[0]))
  }

  function Bits(s: seq<byte>): (bits: seq<bv8>)
    ensures |bits| == |s|
    ensures forall k :: 0 <= k < |s| ==> bits[k] == s[k] as bv8
  {
    seq(|s|, k requires 0 <= k < |s| => s[k] as bv8)
  }

  function Checksum(bytes: seq<byte>, start: bv32): bv32 {
    Not(Fold(Bits(bytes), Not(start)))
  }

  method IsaacCrc32(bytes: seq<byte>, start: bv32) returns (checksum: bv32)
    ensures checksum == Checksum(bytes, start)
  {
    hide Step, Not;
    var crc := Not(start);
    for i := 0 to |bytes|
      invariant Fold(Bits(bytes), Not(start)) == Fold(Bits(bytes)[i..], crc)
    {
      crc := Step(crc, bytes[i] as bv8);
    }
    checksum := Not(crc);
  }

  /** Checksumming a concatenation resumes from the state after its first part. */
  lemma {:induction false} FoldConcat(a: seq<bv8>, b: seq<bv8>, crc: bv32)
    ensures Fold(a + b, crc) == Fold(b, Fold(a, crc))
  {
    hide Step;
    if a == [] {
      assert a + b == b;
    } else {
      assert (a + b)[1..] == a[1..] + b;
      FoldConcat(a[1..], b, Step(crc, a[0]));
    }
  }

  // ----- The checksum as a law of strings -----

  lemma NotNot(w: bv32)
    ensures Not(Not(w)) == w
    ensures Not(0xFFFF_FFFF) == 0 && Not(0) == 0xFFFF_FFFF
  {
  }

  lemma BitsConcat(a: seq<byte>, b: seq<byte>)
    ensures Bits(a + b) == Bits(a) + Bits(b)
  {
  }

  /** Nothing is added by no bytes. */
  lemma ChecksumEmpty(start: bv32)
    ensures Checksum([], start) == start
  {
    NotNot(start);
  }

  /** A checksum can be resumed: that of a concatenation starts the second part from that of the first. */
  lemma ChecksumConcat(a: seq<byte>, b: seq<byte>, start: bv32)
    ensures Checksum(a + b, start) == Checksum(b, Checksum(a, start))
  {
    hide Fold, Not, Bits;
    BitsConcat(a, b);
    FoldConcat(Bits(a), Bits(b), Not(start));
    NotNot(Fold(Bits(a), Not(start)));
  }

  // ----- Exclusive or -----

  lemma XorCommutes(a: bv32, b: bv32)
    ensures Xor(a, b) == Xor(b, a)
  {
  }

  lemma XorAssociates(a: bv32, b: bv32, c: bv32)
    ensures Xor(a, Xor(b, c)) == Xor(Xor(a, b), c)
  {
  }

  lemma XorUnits(w: bv32)
    ensures Xor(w, w) == 0
    ensures Xor(w, 0) == w
    ensures Xor(0, w) == w
  {
  }

  lemma Regroup(a: bv32, b: bv32, c: bv32, d: bv32)
    ensures Xor(Xor(a, b), Xor(c, d)) == Xor(Xor(a, c), Xor(b, d))
  {
    hide Xor;
    XorAssociates(Xor(a, b), c, d);
    XorAssociates(a, b, c);
    XorCommutes(b, c);
    XorAssociates(a, c, b);
    XorAssociates(Xor(a, c), b, d);
  }

  lemma XorByteCommutes(a: bv8, b: bv8)
    ensures XorByte(a, b) == XorByte(b, a)
  {
  }

  lemma XorByteAssociates(a: bv8, b: bv8, c: bv8)
    ensures XorByte(a, XorByte(b, c)) == XorByte(XorByte(a, b), c)
  {
  }

  lemma RegroupBytes(a: bv8, b: bv8, c: bv8, d: bv8)
    ensures XorByte(XorByte(a, b), XorByte(c, d)) == XorByte(XorByte(a, c), XorByte(b, d))
  {
    hide XorByte;
    XorByteAssociates(XorByte(a, b), c, d);
    XorByteAssociates(a, b, c);
    XorByteCommutes(b, c);
    XorByteAssociates(a, c, b);
    XorByteAssociates(XorByte(a, c), b, d);
  }

  lemma XorSplits(a: bv32, b: bv32)
    ensures Shift(Xor(a, b)) == Xor(Shift(a), Shift(b))
    ensures Low(Xor(a, b)) == XorByte(Low(a), Low(b))
  {
  }

  lemma XorByteSplits(a: bv8, b: bv8)
    ensures Hi(XorByte(a, b)) == XorByte(Hi(a), Hi(b))
    ensures Lo(XorByte(a, b)) == XorByte(Lo(a), Lo(b))
  {
  }

  // ----- The table is linear over exclusive or -----

  function Select(on: bool, word: bv32): bv32 {
    if on then word else 0
  }

  /** The exclusive or of the words chosen by the bits of a nibble. */
  function Span(c: bv8, w1: bv32, w2: bv32, w4: bv32, w8: bv32): bv32 {
    Xor(Xor(Select(Bit1(c), w1), Select(Bit2(c), w2)), Xor(Select(Bit4(c), w4), Select(Bit8(c), w8)))
  }

  predicate Bit1(c: bv8) {
    c & 1 != 0
  }

  predicate Bit2(c: bv8) {
    c & 2 != 0
  }

  predicate Bit4(c: bv8) {
    c & 4 != 0
  }

  predicate Bit8(c: bv8) {
    c & 8 != 0
  }

  lemma BitsXor(a: bv8, b: bv8)
    ensures Bit1(XorByte(a, b)) == (Bit1(a) != Bit1(b))
    ensures Bit2(XorByte(a, b)) == (Bit2(a) != Bit2(b))
    ensures Bit4(XorByte(a, b)) == (Bit4(a) != Bit4(b))
    ensures Bit8(XorByte(a, b)) == (Bit8(a) != Bit8(b))
  {
  }

  lemma SelectXor(p: bool, q: bool, both: bool, w: bv32)
    requires both == (p != q)
    ensures Select(both, w) == Xor(Select(p, w), Select(q, w))
  {
    hide Xor;
    XorUnits(w);
    XorUnits(0);
  }

  lemma SpanXor(a: bv8, b: bv8, w1: bv32, w2: bv32, w4: bv32, w8: bv32)
    ensures Span(XorByte(a, b), w1, w2, w4, w8) == Xor(Span(a, w1, w2, w4, w8), Span(b, w1, w2, w4, w8))
  {
    hide Xor, XorByte, Select, Bit1, Bit2, Bit4, Bit8;
    var c := XorByte(a, b);
    BitsXor(a, b);
    SelectXor(Bit1(a), Bit1(b), Bit1(c), w1);
    SelectXor(Bit2(a), Bit2(b), Bit2(c), w2);
    SelectXor(Bit4(a), Bit4(b), Bit4(c), w4);
    SelectXor(Bit8(a), Bit8(b), Bit8(c), w8);
    Regroup(Select(Bit1(a), w1), Select(Bit1(b), w1), Select(Bit2(a), w2), Select(Bit2(b), w2));
    Regroup(Select(Bit4(a), w4), Select(Bit4(b), w4), Select(Bit8(a), w8), Select(Bit8(b), w8));
    Regroup(Xor(Select(Bit1(a), w1), Select(Bit2(a), w2)), Xor(Select(Bit1(b), w1), Select(Bit2(b), w2)),
            Xor(Select(Bit4(a), w4), Select(Bit8(a), w8)), Xor(Select(Bit4(b), w4), Select(Bit8(b), w8)));
  }

  lemma FirstRowSpans(c: bv8)
    requires c < 16
    ensures Row(0, c) == Span(c, 0x09073096, 0x120E612C, 0xFF6DC419, 0xFEDB8832)
  {
    match c
    case 0 =>
    case 1 =>
    case 2 =>
    case 3 =>
    case 4 =>
    case 5 =>
    case 6 =>
    case 7 =>
    case 8 =>
    case 9 =>
    case 10 =>
    case 11 =>
    case 12 =>
    case 13 =>
    case 14 =>
    case _ =>
  }

  lemma FirstColumnSpans(h: bv8)
    requires h < 16
    ensures Row(h, 0) == Span(h, 0xFDB71064, 0xFB6E20C8, 0xF6DC4190, 0xEDB88320)
  {
  }

  /** Adding one word to every entry of the first row. */
  lemma RowPlus(c: bv8, x: bv32)
    requires c < 16
    ensures Pick(c,
              Xor(x, 0x00000000), Xor(x, 0x09073096), Xor(x, 0x120E612C), Xor(x, 0x1B0951BA),
              Xor(x, 0xFF6DC419), Xor(x, 0xF66AF48F), Xor(x, 0xED63A535), Xor(x, 0xE46495A3),
              Xor(x, 0xFEDB8832), Xor(x, 0xF7DCB8A4), Xor(x, 0xECD5E91E), Xor(x, 0xE5D2D988),
              Xor(x, 0x01B64C2B), Xor(x, 0x08B17CBD), Xor(x, 0x13B82D07), Xor(x, 0x1ABF1D91))
         == Xor(x, Row(0, c))
  {
    hide Xor;
  }

  lemma FirstRowsSplit(h: bv8, c: bv8)
    requires h < 8 && c < 16
    ensures Row(h, c) == Xor(Row(h, 0), Row(0, c))
  {
    match h
    case 0 => RowPlus(c, 0x00000000);
    case 1 => RowPlus(c, 0xFDB71064);
    case 2 => RowPlus(c, 0xFB6E20C8);
    case 3 => RowPlus(c, 0x06D930AC);
    case 4 => RowPlus(c, 0xF6DC4190);
    case 5 => RowPlus(c, 0x0B6B51F4);
    case 6 => RowPlus(c, 0x0DB26158);
    case _ => RowPlus(c, 0xF005713C);
  }

  lemma LastRowsSplit(h: bv8, c: bv8)
    requires 8 <= h < 16 && c < 16
    ensures Row(h, c) == Xor(Row(h, 0), Row(0, c))
  {
    match h
    case 8 => RowPlus(c, 0xEDB88320);
    case 9 => RowPlus(c, 0x100F9344);
    case 10 => RowPlus(c, 0x16D6A3E8);
    case 11 => RowPlus(c, 0xEB61B38C);
    case 12 => RowPlus(c, 0x1B64C2B0);
    case 13 => RowPlus(c, 0xE6D3D2D4);
    case 14 => RowPlus(c, 0xE00AE278);
    case _ => RowPlus(c, 0x1DBDF21C);
  }

  lemma RowSplits(h: bv8, c: bv8)
    requires h < 16 && c < 16
    ensures Row(h, c) == Xor(Row(h, 0), Row(0, c))
  {
    hide Row, Xor;
    if h < 8 {
      FirstRowsSplit(h, c);
    } else {
      LastRowsSplit(h, c);
    }
  }

  /** The whole table is linear: the entry at i ^ j is the exclusive or of the entries at i and j. */
  lemma TableXor(i: bv8, j: bv8)
    ensures IsaacCrcTable(XorByte(i, j)) == Xor(IsaacCrcTable(i), IsaacCrcTable(j))
  {
    hide Row, Xor, XorByte, Span, Hi, Lo;
    XorByteSplits(i, j);
    var h, h', c, c' := Hi(i), Hi(j), Lo(i), Lo(j);
    NibbleXor(h, h');
    RowSplits(h, c);
    RowSplits(h', c');
    RowSplits(XorByte(h, h'), XorByte(c, c'));
    FirstColumnSpans(h);
    FirstColumnSpans(h');
    FirstColumnSpans(XorByte(h, h'));
    SpanXor(h, h', 0xFDB71064, 0xFB6E20C8, 0xF6DC4190, 0xEDB88320);
    NibbleXor(c, c');
    FirstRowSpans(c);
    FirstRowSpans(c');
    FirstRowSpans(XorByte(c, c'));
    SpanXor(c, c', 0x09073096, 0x120E612C, 0xFF6DC419, 0xFEDB8832);
    Regroup(Row(h, 0), Row(h', 0), Row(0, c), Row(0, c'));
  }

  lemma NibbleXor(a: bv8, b: bv8)
    requires a < 16 && b < 16
    ensures XorByte(a, b) < 16
  {
  }

  /** One checksum step is linear in the state and the byte together. */
  lemma StepXor(c: bv32, d: bv32, a: bv8, b: bv8)
    ensures Step(Xor(c, d), XorByte(a, b)) == Xor(Step(c, a), Step(d, b))
  {
    hide Xor, XorByte, Shift, Low, IsaacCrcTable;
    XorSplits(c, d);
    RegroupBytes(a, b, Low(c), Low(d));
    TableXor(XorByte(a, Low(c)), XorByte(b, Low(d)));
    Regroup(Shift(c), Shift(d), IsaacCrcTable(XorByte(a, Low(c))), IsaacCrcTable(XorByte(b, Low(d))));
  }

  // ----- The step is injective on states whose top three bits agree -----

  predicate TopAgree(d: bv32) {
    d >> 29 == 0 || d >> 29 == 7
  }

  lemma TopAgreeXor(a: bv32, b: bv32)
    requires TopAgree(a) && TopAgree(b)
    ensures TopAgree(Xor(a, b))
  {
  }

  lemma ColumnTop(h: bv8)
    requires h < 16
    ensures TopAgree(Row(h, 0))
  {
  }

  lemma RowTop(c: bv8)
    requires c < 16
    ensures TopAgree(Row(0, c))
  {
  }

  lemma ShiftTop(crc: bv32)
    ensures TopAgree(Shift(crc))
  {
  }

  /** The top three bits of the state agree after every step. */
  lemma StepTop(crc: bv32, b: bv8)
    ensures TopAgree(Step(crc, b))
  {
    hide Row, Xor, XorByte, Shift, Low, TopAgree, Hi, Lo;
    var i := XorByte(b, Low(crc));
    ShiftTop(crc);
    RowSplits(Hi(i), Lo(i));
    ColumnTop(Hi(i));
    RowTop(Lo(i));
    TopAgreeXor(Row(Hi(i), 0), Row(0, Lo(i)));
    TopAgreeXor(Shift(crc), IsaacCrcTable(i));
  }

  lemma TopBytes(a: bv32, b: bv32)
    requires Xor(a, b) < 0x100_0000
    ensures a >> 24 == b >> 24
  {
  }

  lemma ColumnTops(h: bv8)
    requires h < 16
    ensures Row(h, 0) >> 24
         == Pick(h, 0x00, 0xFD, 0xFB, 0x06, 0xF6, 0x0B, 0x0D, 0xF0, 0xED, 0x10, 0x16, 0xEB, 0x1B, 0xE6, 0xE0, 0x1D)
  {
    match h
    case 0 =>
    case 1 =>
    case 2 =>
    case 3 =>
    case 4 =>
    case 5 =>
    case 6 =>
    case 7 =>
    case 8 =>
    case 9 =>
    case 10 =>
    case 11 =>
    case 12 =>
    case 13 =>
    case 14 =>
    case _ =>
  }

  lemma RowTops(c: bv8)
    requires c < 16
    ensures Row(0, c) >> 24
         == Pick(c, 0x00, 0x09, 0x12, 0x1B, 0xFF, 0xF6, 0xED, 0xE4, 0xFE, 0xF7, 0xEC, 0xE5, 0x01, 0x08, 0x13, 0x1A)
  {
  }

  lemma SmallPairs(h: bv8, c: bv8)
    requires h < 16 && c < 16 && Xor(Row(h, 0), Row(0, c)) < 0x100_0000
    ensures (h == 0 && c == 0) || (h == 4 && c == 5) || (h == 8 && c == 6) || (h == 0xC && c == 3)
  {
    hide Row, Xor;
    TopBytes(Row(h, 0), Row(0, c));
    ColumnTops(h);
    RowTops(c);
  }

  lemma NibblesJoin(i: bv8)
    ensures Hi(i) == 0 && Lo(i) == 0 ==> i == 0
    ensures Hi(i) == 4 && Lo(i) == 5 ==> i == 0x45
    ensures Hi(i) == 8 && Lo(i) == 6 ==> i == 0x86
    ensures Hi(i) == 0xC && Lo(i) == 3 ==> i == 0xC3
  {
  }

  lemma SmallEntries(i: bv8)
    requires IsaacCrcTable(i) < 0x100_0000
    ensures i == 0 || i == 0x45 || i == 0x86 || i == 0xC3
  {
    hide Row, Xor, Hi, Lo;
    RowSplits(Hi(i), Lo(i));
    SmallPairs(Hi(i), Lo(i));
    NibblesJoin(i);
  }

  lemma BelowTop(w: bv32)
    requires w >> 24 == 0
    ensures w < 0x100_0000
  {
  }

  /** No entry but the first has a zero top byte above three equal bits. */
  lemma SmallEntry(i: bv8)
    requires IsaacCrcTable(i) >> 24 == 0 && TopAgree(IsaacCrcTable(i) << 8)
    ensures i == 0 && IsaacCrcTable(i) == 0
  {
    BelowTop(IsaacCrcTable(i));
    SmallEntries(i);
    if i == 0 {
    } else if i == 0x45 {
    } else if i == 0x86 {
    }
  }

  lemma SmallSum(shifted: bv32, entry: bv32, crc: bv32)
    requires shifted == Shift(crc) && TopAgree(crc)
    requires Xor(shifted, entry) < 0x1_0000
    ensures entry >> 24 == 0 && TopAgree(entry << 8)
  {
  }

  lemma XorByteZero(a: bv8, b: bv8)
    requires XorByte(a, b) == 0
    ensures a == b
  {
  }

  /** A step to a state below 2^16 met the table's zero entry: it only shifted the state. */
  lemma StepSmall(crc: bv32, b: bv8)
    requires TopAgree(crc) && Step(crc, b) < 0x1_0000
    ensures b == Low(crc) && Step(crc, b) == Shift(crc)
  {
    hide IsaacCrcTable, Xor, XorByte, Shift, Low, TopAgree;
    var i := XorByte(b, Low(crc));
    SmallSum(Shift(crc), IsaacCrcTable(i), crc);
    SmallEntry(i);
    XorByteZero(b, Low(crc));
    XorUnits(Shift(crc));
  }

  lemma LowAndShift(crc: bv32)
    ensures Low(crc) == 0 && Shift(crc) == 0 ==> crc == 0
    ensures Low(0) == 0 && Shift(0) == 0 && TopAgree(0)
  {
  }

  lemma ZeroEntry()
    ensures IsaacCrcTable(0) == 0 && XorByte(0, 0) == 0
  {
  }

  lemma ZeroStep()
    ensures Step(0, 0) == 0
  {
    hide IsaacCrcTable, Shift, Low, TopAgree, Xor, XorByte;
    LowAndShift(0);
    ZeroEntry();
    XorUnits(0);
  }

  /** Equal bytes keep a difference alive: no two states whose top bits agree collide. */
  lemma ZeroKeeps(crc: bv32)
    requires TopAgree(crc)
    ensures Step(crc, 0) == 0 <==> crc == 0
  {
    hide Step, Shift, Low, TopAgree;
    ZeroStep();
    if Step(crc, 0) == 0 {
      StepSmall(crc, 0);
      LowAndShift(crc);
    }
  }

  // ----- Bursts of changed bytes -----

  /** Every entry outside the n positions from i on is zero. */
  ghost predicate Burst(e: seq<bv8>, i: nat, n: nat) {
    && i + n <= |e|
    && forall k :: 0 <= k < |e| && (k < i || i + n <= k) ==> e[k] == 0
  }

  ghost predicate Quiet(e: seq<bv8>) {
    forall k :: 0 <= k < |e| ==> e[k] == 0
  }

  lemma {:induction false} FoldTop(e: seq<bv8>, crc: bv32)
    requires TopAgree(crc)
    ensures TopAgree(Fold(e, crc))
  {
    hide Step, TopAgree;
    if e == [] {
    } else {
      StepTop(crc, e[0]);
      FoldTop(e[1..], Step(crc, e[0]));
    }
  }

  lemma {:induction false} FoldQuiet(e: seq<bv8>, crc: bv32)
    requires Quiet(e) && TopAgree(crc)
    ensures Fold(e, crc) == 0 <==> crc == 0
  {
    hide Step, TopAgree;
    if e == [] {
    } else {
      StepTop(crc, e[0]);
      ZeroKeeps(crc);
      FoldQuiet(e[1..], Step(crc, e[0]));
    }
  }

  lemma {:induction false} FoldZeros(e: seq<bv8>)
    requires Quiet(e)
    ensures Fold(e, 0) == 0
  {
    hide Step;
    if e == [] {
    } else {
      ZeroStep();
      FoldZeros(e[1..]);
    }
  }

  /** Zero bytes alone never leave the all-ones checksum. */
  lemma ChecksumZeros(bytes: seq<byte>)
    requires forall k :: 0 <= k < |bytes| ==> bytes[k] == 0
    ensures Checksum(bytes, 0xFFFF_FFFF) == 0xFFFF_FFFF
  {
    assert Quiet(Bits(bytes));
    hide Fold, Not, Bits;
    FoldZeros(Bits(bytes));
    NotNot(0);
  }

  /** The four-byte errors the checksum cannot see. */
  predicate Invisible(e: seq<bv8>) {
    || e == [0, 0, 0, 0]
    || e == [0x45, 0x1F, 0xB5, 0xB6]
    || e == [0x86, 0x15, 0x26, 0xDB]
    || e == [0xC3, 0x0A, 0x93, 0x6D]
  }

  lemma FoldFour(a: bv8, b: bv8, c: bv8, d: bv8, crc: bv32)
    ensures Fold([a, b, c, d], crc) == Step(Step(Step(Step(crc, a), b), c), d)
  {
    hide Step;
    var s1 := Step(crc, a);
    var s2 := Step(s1, b);
    var s3 := Step(s2, c);
    assert [d][1..] == [] && [c, d][1..] == [d] && [b, c, d][1..] == [c, d] && [a, b, c, d][1..] == [b, c, d];
    assert Fold([d], s3) == Fold([], Step(s3, d));
    assert Fold([c, d], s2) == Fold([d], s3);
    assert Fold([b, c, d], s1) == Fold([c, d], s2);
  }

  lemma ShiftBounds(crc: bv32)
    ensures Shift(crc) == 0 ==> crc < 0x100
    ensures Shift(crc) < 0x100 ==> crc < 0x1_0000
    ensures Shift(crc) < 0x1_0000 ==> crc < 0x100_0000
  {
  }

  lemma FirstStep(a: bv8)
    ensures Step(0, a) == IsaacCrcTable(a)
  {
    hide IsaacCrcTable, Xor, Shift, Low;
    LowAndShift(0);
    XorUnits(IsaacCrcTable(a));
    assert XorByte(a, 0) == a;
  }

  lemma SmallEntryBytes(i: bv8)
    requires i == 0 || i == 0x45 || i == 0x86 || i == 0xC3
    ensures Invisible([i, Low(IsaacCrcTable(i)), Low(Shift(IsaacCrcTable(i))), Low(Shift(Shift(IsaacCrcTable(i))))])
    ensures Shift(Shift(Shift(IsaacCrcTable(i)))) == 0
  {
    if i == 0 {} else if i == 0x45 {} else if i == 0x86 {} else {}
  }

  lemma LowStep(crc: bv32)
    ensures Step(crc, Low(crc)) == Shift(crc)
  {
    hide IsaacCrcTable, Xor, Shift, Low;
    ZeroEntry();
    XorUnits(Shift(crc));
    assert XorByte(Low(crc), Low(crc)) == 0;
  }

  /** Exactly three non-zero four-byte errors leave the checksum unchanged. */
  lemma FourBytes(a: bv8, b: bv8, c: bv8, d: bv8)
    ensures Fold([a, b, c, d], 0) == 0 <==> Invisible([a, b, c, d])
  {
    hide Step, IsaacCrcTable, Shift, Low, TopAgree, Fold;
    FoldFour(a, b, c, d, 0);
    FirstStep(a);
    var s1 := Step(0, a);
    var s2 := Step(s1, b);
    var s3 := Step(s2, c);
    StepTop(0, a);
    StepTop(s1, b);
    StepTop(s2, c);
    if Step(s3, d) == 0 {
      StepSmall(s3, d);
      ShiftBounds(s3);
      StepSmall(s2, c);
      ShiftBounds(s2);
      StepSmall(s1, b);
      ShiftBounds(s1);
      SmallEntries(a);
      SmallEntryBytes(a);
    }
    if Invisible([a, b, c, d]) {
      assert [a, b, c, d][0] == a && [a, b, c, d][1] == b && [a, b, c, d][2] == c && [a, b, c, d][3] == d;
      SmallEntryBytes(a);
      InvisibleTail(a, b, c, d);
      LowStep(s1);
      LowStep(s2);
      LowStep(s3);
    }
  }

  lemma InvisibleTail(a: bv8, b: bv8, c: bv8, d: bv8)
    requires Invisible([a, b, c, d])
    ensures b == Low(IsaacCrcTable(a)) && c == Low(Shift(IsaacCrcTable(a)))
    ensures d == Low(Shift(Shift(IsaacCrcTable(a))))
  {
    assert [a, b, c, d][0] == a && [a, b, c, d][1] == b && [a, b, c, d][2] == c && [a, b, c, d][3] == d;
    if a == 0 {} else if a == 0x45 {} else if a == 0x86 {} else {}
  }

  /** The four bytes of a word, lowest first. */
  function WordParts(w: bv32): (parts: seq<bv8>)
    ensures |parts| == 4
  {
    [Low(w), Low(Shift(w)), Low(Shift(Shift(w))), Low(Shift(Shift(Shift(w))))]
  }

  /** After one, two or three of its bytes, the rest of an invisible error is the word the state holds. */
  lemma InvisibleRest(e: seq<bv8>, k: nat)
    requires |e| == 4 && Invisible(e) && 1 <= k <= 3
    ensures (e + [0, 0, 0])[k..k + 4] == WordParts(Fold(e[..k], 0))
  {
    hide Fold, Invisible, WordParts;
    var a, b, c, d := e[0], e[1], e[2], e[3];
    assert e == [a, b, c, d];
    InvisibleStates(a, b, c, d);
    Padded(a, b, c, d, k);
  }

  lemma InvisibleStates(a: bv8, b: bv8, c: bv8, d: bv8)
    requires Invisible([a, b, c, d])
    ensures WordParts(Fold([a], 0)) == [b, c, d, 0]
    ensures WordParts(Fold([a, b], 0)) == [c, d, 0, 0]
    ensures WordParts(Fold([a, b, c], 0)) == [d, 0, 0, 0]
  {
    hide Step, IsaacCrcTable, Shift, Low, Fold, Invisible;
    SmallTable(a, b, c, d);
    FirstStep(a);
    var t := IsaacCrcTable(a);
    LowStep(t);
    LowStep(Shift(t));
    LowAndShift(0);
    FoldShort(a, b, c);
  }

  lemma SmallTable(a: bv8, b: bv8, c: bv8, d: bv8)
    requires Invisible([a, b, c, d])
    ensures var t := IsaacCrcTable(a);
            && b == Low(t) && c == Low(Shift(t)) && d == Low(Shift(Shift(t))) && Shift(Shift(Shift(t))) == 0
  {
    assert [a, b, c, d][0] == a && [a, b, c, d][1] == b && [a, b, c, d][2] == c && [a, b, c, d][3] == d;
    hide IsaacCrcTable, Shift, Low;
    SmallEntryBytes(a);
    InvisibleTail(a, b, c, d);
  }

  lemma Padded(a: bv8, b: bv8, c: bv8, d: bv8, k: nat)
    requires 1 <= k <= 3
    ensures var e := [a, b, c, d];
            && (e + [0, 0, 0])[k..k + 4] == (if k == 1 then [b, c, d, 0] else if k == 2 then [c, d, 0, 0] else [d, 0, 0, 0])
            && e[..k] == if k == 1 then [a] else if k == 2 then [a, b] else [a, b, c]
  {
    var e: seq<bv8>, zeros: seq<bv8> := [a, b, c, d], [0, 0, 0];
    FourFrom(e + zeros, k);
    assert e == [e[0], e[1], e[2], e[3]];
    if k == 1 {
      assert e[..1] == [e[0]];
    } else if k == 2 {
      assert e[..2] == [e[0], e[1]];
    } else {
      assert e[..3] == [e[0], e[1], e[2]];
    }
  }

  lemma FourFrom(s: seq<bv8>, k: nat)
    requires k + 4 <= |s|
    ensures s[k..k + 4] == [s[k], s[k + 1], s[k + 2], s[k + 3]]
  {
  }

  lemma FoldShort(a: bv8, b: bv8, c: bv8)
    ensures Fold([a], 0) == Step(0, a)
    ensures Fold([a, b], 0) == Step(Step(0, a), b)
    ensures Fold([a, b, c], 0) == Step(Step(Step(0, a), b), c)
  {
    hide Step;
    FoldConcat([a], [b], 0);
    FoldConcat([a, b], [c], 0);
    assert [a] + [b] == [a, b] && [a, b] + [c] == [a, b, c];
    assert forall x: bv8, s: bv32 :: [x][1..] == [] && Fold([x], s) == Step(s, x);
  }

  /** An error confined to four consecutive bytes is missed exactly when it is an invisible one. */
  lemma BurstMissed(e: seq<bv8>, i: nat)
    requires Burst(e, i, 4)
    ensures Fold(e, 0) == 0 <==> Invisible(e[i..i + 4])
  {
    hide Step, TopAgree, Invisible;
    var w := e[i..i + 4];
    assert e == e[..i] + (w + e[i + 4..]);
    FoldConcat(e[..i], w + e[i + 4..], 0);
    LowAndShift(0);
    FoldQuiet(e[..i], 0);
    FoldConcat(w, e[i + 4..], 0);
    FoldTop(w, 0);
    FoldQuiet(e[i + 4..], Fold(w, 0));
    assert w == [w[0], w[1], w[2], w[3]];
    FourBytes(w[0], w[1], w[2], w[3]);
  }

  /** The bytewise exclusive or of two equally long strings. */
  function Difference(a: seq<bv8>, b: seq<bv8>): (e: seq<bv8>)
    requires |a| == |b|
    ensures |e| == |a|
    ensures forall k :: 0 <= k < |a| ==> e[k] == XorByte(a[k], b[k])
  {
    seq(|a|, k requires 0 <= k < |a| => XorByte(a[k], b[k]))
  }

  /** The checksum states of two strings differ by the checksum of their difference. */
  lemma {:induction false} FoldDifference(a: seq<bv8>, b: seq<bv8>, c: bv32, d: bv32)
    requires |a| == |b|
    ensures Fold(Difference(a, b), Xor(c, d)) == Xor(Fold(a, c), Fold(b, d))
  {
    hide Step, XorByte, Xor;
    if a == [] {
      assert Difference(a, b) == [];
    } else {
      assert Difference(a, b)[1..] == Difference(a[1..], b[1..]);
      StepXor(c, d, a[0], b[0]);
      FoldDifference(a[1..], b[1..], Step(c, a[0]), Step(d, b[0]));
    }
  }
}
