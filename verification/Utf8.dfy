/** Decoding UTF-8 with replacement characters, as bytes: the decoded text encoded again. */
module Utf8 {
  import opened Bytes

  /** The encoding of U+FFFD. */
  const REPLACEMENT: seq<byte> := [0xEF, 0xBF, 0xBD]

  /** The length of a sequence with this lead byte, 0 if no sequence starts with it. */
  function Length(lead: byte): (n: nat)
    ensures n <= 4
  {
    if lead < 0x80 then 1
    else if 0xC2 <= lead < 0xE0 then 2
    else if 0xE0 <= lead < 0xF0 then 3
    else if 0xF0 <= lead < 0xF5 then 4
    else 0
  }

  /** Neither overlong forms nor surrogates nor code points above U+10FFFF are encoded. */
  predicate Second(lead: byte, b: byte) {
    && 0x80 <= b < 0xC0
    && (lead == 0xE0 ==> 0xA0 <= b) && (lead == 0xED ==> b < 0xA0)
    && (lead == 0xF0 ==> 0x90 <= b) && (lead == 0xF4 ==> b < 0x90)
  }

  predicate Continues(s: seq<byte>, k: nat) {
    k < |s| && 0x80 <= s[k] < 0xC0
  }

  /** How many bytes at the start of s are the start of a sequence. */
  function Prefix(s: seq<byte>): (n: nat)
    requires s != []
    ensures n <= |s| && n <= Length(s[0])
  {
    var need := Length(s[0]);
    if need < 2 then need
    else if |s| < 2 || !Second(s[0], s[1]) then 1
    else if need == 2 || !Continues(s, 2) then 2
    else if need == 3 || !Continues(s, 3) then 3
    else 4
  }

  predicate Whole(s: seq<byte>) {
    s != [] && Length(s[0]) > 0 && Prefix(s) == Length(s[0])
  }

  /** Each maximal start of a sequence that is not continued, and each other stray byte, is replaced. */
  function Lossy(s: seq<byte>): seq<byte>
    decreases |s|
  {
    if s == [] then []
    else if Whole(s) then s[..Prefix(s)] + Lossy(s[Prefix(s)..])
    else REPLACEMENT + Lossy(s[if Prefix(s) == 0 then 1 else Prefix(s)..])
  }

  predicate Valid(s: seq<byte>) {
    Lossy(s) == s
  }

  /** Decoding never brings in a NUL. */
  lemma {:induction false} NoNul(s: seq<byte>)
    requires 0 !in s
    ensures 0 !in Lossy(s)
    decreases |s|
  {
    hide Prefix, Length;
    if s == [] {
    } else {
      var n := Prefix(s);
      if Whole(s) {
        assert n > 0;
        NoNul(s[n..]);
      } else {
        NoNul(s[if n == 0 then 1 else n..]);
      }
    }
  }

  lemma WholePrefix(s: seq<byte>, t: seq<byte>)
    requires Whole(s) && s[..Prefix(s)] <= t
    ensures Whole(t) && Prefix(t) == Prefix(s)
  {
    var n := Prefix(s);
    assert s[..n] == t[..n];
    assert forall k :: 0 <= k < n ==> t[k] == s[..n][k];
  }

  lemma ReplacementWhole(rest: seq<byte>)
    ensures Whole(REPLACEMENT + rest) && Prefix(REPLACEMENT + rest) == 3
  {
  }

  /** What decoding gives is valid UTF-8, so decoding it again changes nothing. */
  lemma {:induction false} LossyValid(s: seq<byte>)
    ensures Valid(Lossy(s))
    decreases |s|
  {
    if s == [] {
    } else {
      var n := Prefix(s);
      if Whole(s) {
        var head, rest := s[..n], Lossy(s[n..]);
        WholePrefix(s, head + rest);
        LossyValid(s[n..]);
        hide Whole, Prefix;
        assert (head + rest)[..n] == head && (head + rest)[n..] == rest;
      } else {
        var rest := Lossy(s[if n == 0 then 1 else n..]);
        ReplacementWhole(rest);
        LossyValid(s[if n == 0 then 1 else n..]);
        hide Whole, Prefix;
        assert (REPLACEMENT + rest)[..3] == REPLACEMENT && (REPLACEMENT + rest)[3..] == rest;
      }
    }
  }

  // ----- What is decoded -----

  predicate Scalar(c: nat) {
    c < 0xD800 || 0xE000 <= c < 0x110000
  }

  /** The UTF-8 encoding of a Unicode scalar value (RFC 3629, section 3). */
  function Encode(c: nat): (s: seq<byte>)
    requires Scalar(c)
    ensures 1 <= |s| <= 4
  {
    if c < 0x80 then [c]
    else if c < 0x800 then [0xC0 + c / 0x40, 0x80 + c % 0x40]
    else if c < 0x10000 then [0xE0 + c / 0x1000, 0x80 + c / 0x40 % 0x40, 0x80 + c % 0x40]
    else [0xF0 + c / 0x40000, 0x80 + c / 0x1000 % 0x40, 0x80 + c / 0x40 % 0x40, 0x80 + c % 0x40]
  }

  /** The first n bytes of s are the start of the encoding of some scalar value. */
  ghost predicate Starts(s: seq<byte>, n: nat)
    requires n <= |s|
  {
    exists c: nat :: Scalar(c) && s[..n] <= Encode(c)
  }

  lemma EncodedLead(c: nat)
    requires Scalar(c)
    ensures Length(Encode(c)[0]) == |Encode(c)|
    ensures 1 < |Encode(c)| ==> Second(Encode(c)[0], Encode(c)[1])
    ensures forall k :: 2 <= k < |Encode(c)| ==> 0x80 <= Encode(c)[k] < 0xC0
  {
  }

  lemma StartsShort(s: seq<byte>, n: nat)
    requires 0 < n <= |s| && Starts(s, n)
    ensures n <= Prefix(s)
  {
    var c: nat :| Scalar(c) && s[..n] <= Encode(c);
    EncodedLead(c);
    var e := Encode(c);
    hide Encode, Length, Second;
    assert forall k :: 0 <= k < n ==> s[k] == s[..n][k] && s[..n][k] == e[k];
  }

  /** The six bits of the second byte of a sequence, or the lowest ones its lead byte allows. */
  function SecondBits(s: seq<byte>): (b: nat)
    requires s != []
    ensures b < 0x40
  {
    if |s| >= 2 && Second(s[0], s[1]) then s[1] - 0x80 else if s[0] == 0xE0 then 0x20 else if s[0] == 0xF0 then 0x10 else 0
  }

  function BitsAt(s: seq<byte>, k: nat): (b: nat)
    ensures b < 0x40
  {
    if Continues(s, k) then s[k] - 0x80 else 0
  }

  /** Some scalar value whose encoding starts with these bytes. */
  function Witness(s: seq<byte>): (c: nat)
    requires s != [] && Length(s[0]) > 0
  {
    if s[0] < 0x80 then s[0]
    else if s[0] < 0xE0 then 0x40 * (s[0] - 0xC0) + SecondBits(s)
    else if s[0] < 0xF0 then 0x1000 * (s[0] - 0xE0) + 0x40 * SecondBits(s) + BitsAt(s, 2)
    else 0x40000 * (s[0] - 0xF0) + 0x1000 * SecondBits(s) + 0x40 * BitsAt(s, 2) + BitsAt(s, 3)
  }

  lemma SixBits(a: nat, b: nat)
    requires b < 0x40
    ensures (0x40 * a + b) / 0x40 == a && (0x40 * a + b) % 0x40 == b
  {
  }

  lemma TwoEncoded(a: nat, b: nat)
    requires 2 <= a < 0x20 && b < 0x40
    ensures Encode(0x40 * a + b) == [0xC0 + a, 0x80 + b]
  {
    SixBits(a, b);
  }

  lemma ThreeEncoded(a: nat, b: nat, d: nat)
    requires a < 0x10 && b < 0x40 && d < 0x40 && (a == 0 ==> 0x20 <= b) && (a == 0xD ==> b < 0x20)
    ensures Scalar(0x1000 * a + 0x40 * b + d)
    ensures Encode(0x1000 * a + 0x40 * b + d) == [0xE0 + a, 0x80 + b, 0x80 + d]
  {
    var c := 0x1000 * a + 0x40 * b + d;
    SixBits(0x40 * a + b, d);
    SixBits(a, b);
    assert c == 0x40 * (0x40 * a + b) + d && c / 0x1000 == c / 0x40 / 0x40;
  }

  lemma FourEncoded(a: nat, b: nat, d: nat, e: nat)
    requires a < 5 && b < 0x40 && d < 0x40 && e < 0x40 && (a == 0 ==> 0x10 <= b) && (a == 4 ==> b < 0x10)
    ensures Scalar(0x40000 * a + 0x1000 * b + 0x40 * d + e)
    ensures Encode(0x40000 * a + 0x1000 * b + 0x40 * d + e) == [0xF0 + a, 0x80 + b, 0x80 + d, 0x80 + e]
  {
    var c := 0x40000 * a + 0x1000 * b + 0x40 * d + e;
    SixBits(0x1000 * a + 0x40 * b + d, e);
    SixBits(0x40 * a + b, d);
    SixBits(a, b);
    assert c == 0x40 * (0x1000 * a + 0x40 * b + d) + e;
    assert c / 0x1000 == c / 0x40 / 0x40 && c / 0x40000 == c / 0x40 / 0x40 / 0x40;
  }

  lemma PrefixBytes(s: seq<byte>, e: seq<byte>)
    requires s != [] && |e| == Length(s[0]) > 0 && e[0] == s[0]
    requires |e| > 1 ==> e[1] == 0x80 + SecondBits(s)
    requires forall k :: 2 <= k < |e| ==> e[k] == 0x80 + BitsAt(s, k)
    ensures s[..Prefix(s)] <= e
  {
    hide Length;
  }

  lemma WitnessEncodes(s: seq<byte>)
    requires s != [] && Length(s[0]) > 0
    ensures Scalar(Witness(s)) && s[..Prefix(s)] <= Encode(Witness(s))
  {
    if s[0] < 0x80 {
      PrefixBytes(s, [s[0]]);
    } else if s[0] < 0xE0 {
      TwoEncoded(s[0] - 0xC0, SecondBits(s));
      PrefixBytes(s, [s[0], 0x80 + SecondBits(s)]);
      hide Encode, Prefix, BitsAt;
    } else if s[0] < 0xF0 {
      ThreeEncoded(s[0] - 0xE0, SecondBits(s), BitsAt(s, 2));
      PrefixBytes(s, [s[0], 0x80 + SecondBits(s), 0x80 + BitsAt(s, 2)]);
      hide Encode, Prefix, BitsAt;
    } else {
      FourEncoded(s[0] - 0xF0, SecondBits(s), BitsAt(s, 2), BitsAt(s, 3));
      PrefixBytes(s, [s[0], 0x80 + SecondBits(s), 0x80 + BitsAt(s, 2), 0x80 + BitsAt(s, 3)]);
      hide Encode, Prefix, BitsAt;
    }
  }

  /** The part of s a decoder reads or replaces as a whole: its longest start that is the start of some scalar
      value's encoding. */
  lemma PrefixIsLongest(s: seq<byte>, n: nat)
    requires 0 < n <= |s|
    ensures n <= Prefix(s) <==> Starts(s, n)
  {
    if n <= Prefix(s) {
      WitnessEncodes(s);
      assert s[..n] <= s[..Prefix(s)];
    }
    if Starts(s, n) {
      StartsShort(s, n);
    }
  }

  ghost predicate Scalars(cs: seq<nat>) {
    forall k :: 0 <= k < |cs| ==> Scalar(cs[k])
  }

  function EncodeAll(cs: seq<nat>): seq<byte>
    requires Scalars(cs)
  {
    if cs == [] then [] else Encode(cs[0]) + EncodeAll(cs[1..])
  }

  lemma EncodedWhole(c: nat, rest: seq<byte>)
    requires Scalar(c)
    ensures Whole(Encode(c) + rest) && Prefix(Encode(c) + rest) == |Encode(c)|
  {
    var e, s := Encode(c), Encode(c) + rest;
    EncodedLead(c);
    assert forall k :: 0 <= k < |e| ==> s[k] == e[k];
    hide Encode, Length, Second;
  }

  lemma WholeIsEncoded(s: seq<byte>)
    requires Whole(s)
    ensures Scalar(Witness(s)) && s[..Prefix(s)] == Encode(Witness(s))
  {
    WitnessEncodes(s);
    EncodedLead(Witness(s));
    assert Encode(Witness(s))[0] == s[..Prefix(s)][0] == s[0];
    hide Encode, Witness;
  }

  lemma ValidTail(s: seq<byte>)
    requires Valid(s) && s != []
    ensures Whole(s) && Valid(s[Prefix(s)..])
  {
    if !Whole(s) {
      ReplacementWhole(Lossy(s[if Prefix(s) == 0 then 1 else Prefix(s)..]));
    } else {
      var n := Prefix(s);
      hide Whole, Prefix;
      assert (s[..n] + Lossy(s[n..]))[n..] == Lossy(s[n..]);
    }
  }

  lemma {:induction false} ValidIsEncoded(s: seq<byte>) returns (cs: seq<nat>)
    requires Valid(s)
    ensures Scalars(cs) && EncodeAll(cs) == s
    decreases |s|
  {
    if s == [] {
      cs := [];
    } else {
      ValidTail(s);
      WholeIsEncoded(s);
      var rest := ValidIsEncoded(s[Prefix(s)..]);
      cs := [Witness(s)] + rest;
      hide Encode, Witness, Whole, Prefix, Valid;
      assert cs[1..] == rest;
    }
  }

  lemma {:induction false} EncodedIsValid(cs: seq<nat>)
    requires Scalars(cs)
    ensures Valid(EncodeAll(cs))
  {
    if cs == [] {
    } else {
      var e, rest := Encode(cs[0]), EncodeAll(cs[1..]);
      EncodedWhole(cs[0], rest);
      EncodedIsValid(cs[1..]);
      hide Encode, Whole, Prefix, EncodeAll;
      assert (e + rest)[..|e|] == e && (e + rest)[|e|..] == rest;
    }
  }

  /** Valid are exactly the encodings of sequences of scalar values; decoding changes nothing else. */
  lemma ValidIffEncoded(s: seq<byte>)
    ensures Valid(s) <==> exists cs :: Scalars(cs) && EncodeAll(cs) == s
  {
    if Valid(s) {
      var cs := ValidIsEncoded(s);
    }
    if cs :| Scalars(cs) && EncodeAll(cs) == s {
      EncodedIsValid(cs);
    }
  }
}
