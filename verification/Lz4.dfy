/** The raw LZ4 block decoder: syntax trees, their printing and meaning, and the decoding loop. */
module Lz4 {
  import opened Bytes

  const MAX_SAVE_SIZE := 32 * 1024 * 1024

  // ----- Syntax -----

  /** A block is a list of sequences. It may end after a match, or with literals alone; the low
      nibble of a last literal-only token is not used by the decoder. */
  datatype Block =
    | End
    | Literals(literals: seq<byte>, spare: nat)
    | Copy(literals: seq<byte>, offset: nat, length: nat, rest: Block)

  /** The block is within bounds when n bytes were already decoded. */
  ghost predicate WellFormed(b: Block, n: nat) {
    match b
    case End => true
    case Literals(l, spare) => spare < 16 && n + |l| <= MAX_SAVE_SIZE
    case Copy(l, offset, length, rest) =>
      && 0 < offset <= n + |l|
      && offset < 0x1_0000
      && 4 <= length
      && n + |l| + length <= MAX_SAVE_SIZE
      && WellFormed(rest, n + |l| + length)
  }

  function Extension(m: nat): (s: seq<byte>)
    ensures s != []
  {
    if m < 255 then [m] else [255] + Extension(m - 255)
  }

  function LengthTail(n: nat): seq<byte> {
    if n < 15 then [] else Extension(n - 15)
  }

  function Token(literals: nat, low: nat): byte
    requires low < 16
  {
    16 * Min(literals, 15) + low
  }

  function Print(b: Block): seq<byte>
    requires b.Literals? ==> b.spare < 16
    requires b.Copy? ==> b.offset < 0x1_0000 && 4 <= b.length && Printable(b.rest)
  {
    match b
    case End => []
    case Literals(l, spare) => [Token(|l|, spare)] + LengthTail(|l|) + l
    case Copy(l, offset, length, rest) =>
      [Token(|l|, Min(length - 4, 15))] + LengthTail(|l|) + l
      + [offset % 0x100, offset / 0x100] + LengthTail(length - 4) + Print(rest)
  }

  predicate Printable(b: Block) {
    match b
    case End => true
    case Literals(_, spare) => spare < 16
    case Copy(_, offset, length, rest) => offset < 0x1_0000 && 4 <= length && Printable(rest)
  }

  lemma {:induction false} WellFormedPrintable(b: Block, n: nat)
    requires WellFormed(b, n)
    ensures Printable(b)
  {
    if !b.Copy? {
    } else {
      WellFormedPrintable(b.rest, n + |b.literals| + b.length);
    }
  }

  // ----- Meaning -----

  /** Appending n bytes, each the one `offset` places before the end. */
  function CopyMatch(out: seq<byte>, offset: nat, n: nat): (r: seq<byte>)
    requires 0 < offset <= |out|
    ensures |r| == |out| + n && out <= r
  {
    if n == 0 then out
    else
      var p := CopyMatch(out, offset, n - 1);
      p + [p[|p| - offset]]
  }

  function Meaning(b: Block, out: seq<byte>): seq<byte>
    requires WellFormed(b, |out|)
  {
    match b
    case End => out
    case Literals(l, _) => out + l
    case Copy(l, offset, length, rest) => Meaning(rest, CopyMatch(out + l, offset, length))
  }

  function Phase(k: nat, m: nat): (p: nat)
    requires 0 < m
    ensures p < m
  {
    k % m
  }

  /** An overlapping match repeats the last `offset` bytes of the old output periodically. */
  lemma {:induction false} CopyMatchPeriodic(out: seq<byte>, offset: nat, n: nat, k: nat)
    requires 0 < offset <= |out| && k < n
    ensures CopyMatch(out, offset, n)[|out| + k] == out[|out| - offset + Phase(k, offset)]
  {
    hide Phase;
    var p := CopyMatch(out, offset, n - 1);
    if k < n - 1 {
      CopyMatchPeriodic(out, offset, n - 1, k);
    } else if k >= offset {
      CopyMatchPeriodic(out, offset, n - 1, k - offset);
      PhaseStep(k, offset);
    } else {
      PhaseSmall(k, offset);
    }
  }

  lemma PhaseStep(k: nat, m: nat)
    requires 0 < m <= k
    ensures Phase(k - m, m) == Phase(k, m)
  {
    var q, q' := k / m, (k - m) / m;
    assert k == m * q + k % m;
    assert k - m == m * q' + (k - m) % m;
    if q' + 1 < q {
      MulGap(q' + 1, q, m);
    } else if q < q' + 1 {
      MulGap(q, q' + 1, m);
    }
  }

  lemma MulGap(a: nat, b: nat, m: nat)
    requires a < b
    ensures m * a + m <= m * b
    ensures m * (a + 1) == m * a + m
    ensures 0 < b && m * b == m * (b - 1) + m
  {
    assert m * (b - a - 1) >= 0;
    assert m * b == m * a + m * (b - a - 1) + m;
  }

  lemma PhaseSmall(k: nat, m: nat)
    requires k < m
    ensures Phase(k, m) == k
  {
  }

  /** From one position up to another, each byte equals the one `offset` places before it. */
  ghost predicate Repeats(r: seq<byte>, from: nat, to: nat, offset: nat)
    requires offset <= from && to <= |r|
  {
    forall i :: from <= i < to ==> r[i] == r[i - offset]
  }

  /** From position n on, r spells the block: each literal as it stands in the block, and each match as a
      repetition of what lies `offset` places before it. */
  ghost predicate Spells(b: Block, n: nat, r: seq<byte>) {
    match b
    case End => |r| == n
    case Literals(l, _) => |r| == n + |l| && r[n..] == l
    case Copy(l, offset, length, rest) =>
      && n + |l| + length <= |r| && r[n..n + |l|] == l
      && 0 < offset <= n + |l| && Repeats(r, n + |l|, n + |l| + length, offset)
      && Spells(rest, n + |l| + length, r)
  }

  lemma RepeatsMore(r: seq<byte>, from: nat, to: nat, offset: nat)
    requires offset <= from <= to < |r|
    ensures Repeats(r, from, to + 1, offset) <==> Repeats(r, from, to, offset) && r[to] == r[to - offset]
  {
  }

  /** A match is the one way to continue by such a repetition. */
  lemma {:induction false} CopyMatchIff(r: seq<byte>, from: nat, offset: nat, n: nat)
    requires 0 < offset <= from && from + n <= |r|
    ensures r[..from + n] == CopyMatch(r[..from], offset, n) <==> Repeats(r, from, from + n, offset)
  {
    if n == 0 {
    } else {
      CopyMatchIff(r, from, offset, n - 1);
      var to := from + n - 1;
      RepeatsMore(r, from, to, offset);
      var p := CopyMatch(r[..from], offset, n - 1);
      assert r[..to + 1] == r[..to] + [r[to]];
      hide Repeats;
      Snoc(r[..to], r[to], p, p[|p| - offset]);
    }
  }

  lemma Snoc(a: seq<byte>, x: byte, b: seq<byte>, y: byte)
    requires |a| == |b|
    ensures a + [x] == b + [y] <==> a == b && x == y
  {
    assert (a + [x])[..|a|] == a && (b + [y])[..|a|] == b;
    assert (a + [x])[|a|] == x && (b + [y])[|a|] == y;
  }

  lemma Prefixes(out: seq<byte>, l: seq<byte>, r: seq<byte>)
    requires |out| + |l| <= |r|
    ensures out + l <= r <==> out <= r && r[|out|..|out| + |l|] == l
    ensures out + l <= r ==> r[..|out| + |l|] == out + l
  {
    var m := |out| + |l|;
    assert r[..m] == r[..|out|] + r[|out|..m];
    assert (out + l)[..|out|] == out && (out + l)[|out|..] == l;
  }

  lemma PrefixOf(c: seq<byte>, r: seq<byte>)
    ensures c <= r <==> |c| <= |r| && r[..|c|] == c
  {
  }

  lemma PrefixTrans(a: seq<byte>, c: seq<byte>, r: seq<byte>)
    requires a <= c && c <= r
    ensures a <= r
  {
  }

  lemma SpellsCopy(l: seq<byte>, offset: nat, length: nat, rest: Block, n: nat, r: seq<byte>)
    requires 0 < offset <= n + |l|
    ensures Spells(Copy(l, offset, length, rest), n, r)
       <==> && n + |l| + length <= |r| && r[n..n + |l|] == l && Repeats(r, n + |l|, n + |l| + length, offset)
            && Spells(rest, n + |l| + length, r)
  {
    hide Repeats;
  }

  /** A match continues r exactly when r has the bytes before it and repeats them. */
  lemma CopyContinues(before: seq<byte>, offset: nat, length: nat, r: seq<byte>)
    requires 0 < offset <= |before|
    ensures CopyMatch(before, offset, length) <= r
       <==> |before| + length <= |r| && before <= r && Repeats(r, |before|, |before| + length, offset)
  {
    var c := CopyMatch(before, offset, length);
    hide CopyMatch, Repeats;
    PrefixOf(c, r);
    PrefixOf(before, r);
    if |c| <= |r| {
      CopyMatchIff(r, |before|, offset, length);
      if c <= r {
        PrefixTrans(before, c, r);
      }
    }
  }

  lemma CopySpells(l: seq<byte>, offset: nat, length: nat, rest: Block, out: seq<byte>, r: seq<byte>)
    requires 0 < offset <= |out| + |l|
    ensures out <= r && Spells(Copy(l, offset, length, rest), |out|, r)
       <==> CopyMatch(out + l, offset, length) <= r && Spells(rest, |out| + |l| + length, r)
  {
    hide *;
    SpellsCopy(l, offset, length, rest, |out|, r);
    CopyContinues(out + l, offset, length, r);
    if |out| + |l| <= |r| {
      Prefixes(out, l, r);
    }
  }

  /** What a block means is the one continuation of the earlier output that spells it. */
  lemma {:induction false} MeaningSpells(b: Block, out: seq<byte>, r: seq<byte>)
    requires WellFormed(b, |out|)
    ensures r == Meaning(b, out) <==> out <= r && Spells(b, |out|, r)
  {
    match b
    case End =>
    case Literals(l, _) =>
      assert out <= r && |r| == |out| + |l| && r[|out|..] == l ==> r == out + l;
    case Copy(l, offset, length, rest) =>
      hide CopyMatch;
      MeaningSpells(rest, CopyMatch(out + l, offset, length), r);
      CopySpells(l, offset, length, rest, out, r);
  }

  // ----- Reading lengths -----

  datatype Read = Read(value: nat, rest: seq<byte>)

  function ParseExtension(s: seq<byte>): (r: Option<Read>)
    ensures r.Some? ==> |r.value.rest| < |s| && r.value.value <= 255 * (|s| - |r.value.rest|)
  {
    if s == [] then None
    else if s[0] != 255 then Some(Read(s[0], s[1..]))
    else
      match ParseExtension(s[1..])
      case None => None
      case Some(r) => Some(Read(255 + r.value, r.rest))
  }

  function ParseLength(s: seq<byte>, nibble: nat): (r: Option<Read>)
    ensures r.Some? ==> |r.value.rest| <= |s| && r.value.value <= nibble + 255 * (|s| - |r.value.rest|)
  {
    if nibble != 15 then Some(Read(nibble, s))
    else
      match ParseExtension(s)
      case None => None
      case Some(r) => Some(Read(15 + r.value, r.rest))
  }

  lemma {:induction false} ExtensionRoundTrip(m: nat, rest: seq<byte>)
    ensures ParseExtension(Extension(m) + rest) == Some(Read(m, rest))
  {
    var s := Extension(m) + rest;
    if m < 255 {
      assert s[1..] == rest;
    } else {
      assert s[1..] == Extension(m - 255) + rest;
      ExtensionRoundTrip(m - 255, rest);
    }
  }

  lemma {:induction false} ExtensionPrint(s: seq<byte>)
    requires ParseExtension(s).Some?
    ensures s == Extension(ParseExtension(s).value.value) + ParseExtension(s).value.rest
  {
    if s[0] != 255 {
    } else {
      ExtensionPrint(s[1..]);
      assert s == [255] + s[1..];
    }
  }

  lemma LengthRoundTrip(n: nat, rest: seq<byte>)
    ensures ParseLength(LengthTail(n) + rest, Min(n, 15)) == Some(Read(n, rest))
  {
    if n < 15 {
      assert LengthTail(n) + rest == rest;
    } else {
      ExtensionRoundTrip(n - 15, rest);
    }
  }

  lemma LengthPrint(s: seq<byte>, nibble: nat)
    requires nibble < 16 && ParseLength(s, nibble).Some?
    ensures var r := ParseLength(s, nibble).value;
            s == LengthTail(r.value) + r.rest && nibble == Min(r.value, 15)
  {
    if nibble == 15 {
      ExtensionPrint(s);
    } else {
      assert s == [] + s;
    }
  }

  // ----- Parsing -----

  /** Reading a block after n decoded bytes, with the decoder's own bounds. */
  function Parse(s: seq<byte>, n: nat): (r: Option<Block>)
    decreases |s|
  {
    if s == [] then Some(End)
    else
      match ParseLength(s[1..], s[0] / 16)
      case None => None
      case Some(Read(k, t)) =>
        if k > |t| || n + k > MAX_SAVE_SIZE then None
        else if k == |t| then Some(Literals(t, s[0] % 16))
        else ParseMatch(t[..k], s[0] % 16, t[k..], n + k)
  }

  /** The second half of a sequence: offset, match length and what follows. */
  function ParseMatch(l: seq<byte>, nibble: nat, u: seq<byte>, n: nat): (r: Option<Block>)
    decreases |u|
  {
    if |u| < 2 then None
    else
      var offset := u[0] as int + 0x100 * u[1] as int;
      if offset == 0 || offset > n then None
      else
        match ParseLength(u[2..], nibble)
        case None => None
        case Some(Read(m, v)) =>
          if n + m + 4 > MAX_SAVE_SIZE then None
          else
            match Parse(v, n + m + 4)
            case None => None
            case Some(rest) => Some(Copy(l, offset, m + 4, rest))
  }

  function MatchBytes(offset: nat, length: nat, rest: Block): seq<byte>
    requires offset < 0x1_0000 && 4 <= length && Printable(rest)
  {
    [offset % 0x100, offset / 0x100] + (LengthTail(length - 4) + Print(rest))
  }

  lemma Regrouped(head: seq<byte>, tail: seq<byte>, l: seq<byte>, offset: seq<byte>, extra: seq<byte>, rest: seq<byte>)
    ensures head + tail + l + offset + extra + rest == head + (tail + (l + (offset + (extra + rest))))
  {
  }

  lemma PrintCopy(l: seq<byte>, offset: nat, length: nat, rest: Block)
    requires offset < 0x1_0000 && 4 <= length && Printable(rest)
    ensures Print(Copy(l, offset, length, rest))
         == [Token(|l|, Min(length - 4, 15))] + (LengthTail(|l|) + (l + MatchBytes(offset, length, rest)))
  {
    hide LengthTail, Token;
    Regrouped([Token(|l|, Min(length - 4, 15))], LengthTail(|l|), l, [offset % 0x100, offset / 0x100],
              LengthTail(length - 4), Print(rest));
  }

  lemma TokenNibbles(k: nat, low: nat)
    requires low < 16
    ensures Token(k, low) / 16 == Min(k, 15) && Token(k, low) % 16 == low
  {
  }

  /** What parsing does after a token for k literals, whatever follows. */
  lemma ParseToken(k: nat, low: nat, t: seq<byte>, n: nat)
    requires low < 16
    ensures Parse([Token(k, low)] + (LengthTail(k) + t), n)
         == if k > |t| || n + k > MAX_SAVE_SIZE then None
            else if k == |t| then Some(Literals(t, low))
            else ParseMatch(t[..k], low, t[k..], n + k)
  {
    hide ParseMatch, ParseLength, LengthTail, Token;
    var s := [Token(k, low)] + (LengthTail(k) + t);
    assert s[0] == Token(k, low) && s[1..] == LengthTail(k) + t;
    TokenNibbles(k, low);
    LengthRoundTrip(k, t);
  }

  /** Parsing undoes printing. */
  lemma {:induction false} ParsePrint(b: Block, n: nat)
    requires WellFormed(b, n) && Printable(b)
    ensures Parse(Print(b), n) == Some(b)
    decreases b, 1
  {
    hide ParseMatch, ParseLength, LengthTail, Token, MatchBytes;
    match b
    case End =>
    case Literals(l, spare) =>
      assert Print(b) == [Token(|l|, spare)] + (LengthTail(|l|) + l);
      ParseToken(|l|, spare, l, n);
    case Copy(l, offset, length, rest) =>
      PrintCopy(l, offset, length, rest);
      var u := MatchBytes(offset, length, rest);
      ParsePrintMatch(l, offset, length, rest, n + |l|);
      ParseToken(|l|, Min(length - 4, 15), l + u, n);
      assert (l + u)[..|l|] == l && (l + u)[|l|..] == u;
  }

  lemma {:induction false} ParsePrintMatch(l: seq<byte>, offset: nat, length: nat, rest: Block, n: nat)
    requires 0 < offset <= n && offset < 0x1_0000 && 4 <= length && n + length <= MAX_SAVE_SIZE
    requires WellFormed(rest, n + length) && Printable(rest)
    ensures ParseMatch(l, Min(length - 4, 15), MatchBytes(offset, length, rest), n)
         == Some(Copy(l, offset, length, rest))
    decreases rest, 2
  {
    hide ParseLength, LengthTail, Parse, Print;
    var u := MatchBytes(offset, length, rest);
    assert u[2..] == LengthTail(length - 4) + Print(rest);
    LengthRoundTrip(length - 4, Print(rest));
    ParsePrint(rest, n + length);
  }

  /** Every parsed input begins with a token, its literals' length and the literals. */
  lemma TokenPrint(s: seq<byte>, n: nat) returns (k: nat, low: nat, t: seq<byte>)
    requires s != [] && Parse(s, n).Some?
    ensures low < 16 && s == [Token(k, low)] + (LengthTail(k) + t)
  {
    hide ParseMatch, ParseLength, LengthTail;
    LengthPrint(s[1..], s[0] / 16);
    var r := ParseLength(s[1..], s[0] / 16).value;
    k, low, t := r.value, s[0] % 16, r.rest;
    assert s[0] == Token(k, low);
    assert s == [s[0]] + s[1..];
  }

  /** Printing undoes parsing, and only well-formed blocks are parsed. */
  lemma {:induction false} PrintParse(s: seq<byte>, n: nat)
    requires Parse(s, n).Some?
    ensures WellFormed(Parse(s, n).value, n) && Printable(Parse(s, n).value)
    ensures Print(Parse(s, n).value) == s
    decreases |s|, 1
  {
    if s != [] {
      var k, low, t := TokenPrint(s, n);
      PrintParseToken(k, low, t, n);
    }
  }

  lemma {:induction false} PrintParseToken(k: nat, low: nat, t: seq<byte>, n: nat)
    requires low < 16 && Parse([Token(k, low)] + (LengthTail(k) + t), n).Some?
    ensures var s := [Token(k, low)] + (LengthTail(k) + t);
            var b := Parse(s, n).value;
            WellFormed(b, n) && Printable(b) && Print(b) == s
    decreases |t|, 1
  {
    hide ParseMatch, ParseLength, LengthTail, Token, MatchBytes, Parse;
    var s := [Token(k, low)] + (LengthTail(k) + t);
    ParseToken(k, low, t, n);
    var b := Parse(s, n).value;
    if k == |t| {
      assert Print(b) == [Token(k, low)] + LengthTail(k) + t;
    } else {
      var l, u := t[..k], t[k..];
      assert t == l + u;
      PrintParseMatch(l, low, u, n + k);
      PrintCopy(l, b.offset, b.length, b.rest);
      assert Print(b) == s;
    }
  }

  lemma {:induction false} PrintParseMatch(l: seq<byte>, nibble: nat, u: seq<byte>, n: nat)
    requires nibble < 16 && ParseMatch(l, nibble, u, n).Some?
    ensures var b := ParseMatch(l, nibble, u, n).value;
            && b.Copy? && b.literals == l
            && 0 < b.offset <= n && b.offset < 0x1_0000 && 4 <= b.length && n + b.length <= MAX_SAVE_SIZE
            && nibble == Min(b.length - 4, 15)
            && WellFormed(b.rest, n + b.length) && Printable(b.rest)
            && u == MatchBytes(b.offset, b.length, b.rest)
    decreases |u|, 0
  {
    hide ParseLength, LengthTail, Parse, Print;
    LengthPrint(u[2..], nibble);
    var r := ParseLength(u[2..], nibble).value;
    assert u == [u[0], u[1]] + (LengthTail(r.value) + r.rest);
    PrintParse(r.rest, n + r.value + 4);
  }

  // ----- The decoder -----

  /** Decoding what is left of the input after `out` was decoded. */
  function Finish(s: seq<byte>, out: seq<byte>): Option<seq<byte>> {
    match Parse(s, |out|)
    case None => None
    case Some(b) => PrintParse(s, |out|); Some(Meaning(b, out))
  }

  function Decoded(input: seq<byte>): Option<seq<byte>> {
    if input == [] || |input| > MAX_SAVE_SIZE then None else Finish(input, [])
  }

  /** Decoding resumed at a match offset, once the literals before it are in `out`. */
  function FinishMatch(out: seq<byte>, nibble: nat, u: seq<byte>): Option<seq<byte>> {
    if |u| < 2 then None
    else
      var offset := u[0] as int + 0x100 * u[1] as int;
      if offset == 0 || offset > |out| then None
      else
        match ParseLength(u[2..], nibble)
        case None => None
        case Some(Read(m, v)) =>
          if |out| + m + 4 > MAX_SAVE_SIZE then None else Finish(v, CopyMatch(out, offset, m + 4))
  }

  lemma FinishMatchMeaning(out: seq<byte>, l: seq<byte>, nibble: nat, u: seq<byte>)
    requires nibble < 16 && |out| + |l| <= MAX_SAVE_SIZE
    ensures var b := ParseMatch(l, nibble, u, |out| + |l|);
            if b.None? then FinishMatch(out + l, nibble, u).None?
            else WellFormed(b.value, |out|) && FinishMatch(out + l, nibble, u) == Some(Meaning(b.value, out))
  {
    hide ParseLength, CopyMatch, Parse, Print, MatchBytes;
    if ParseMatch(l, nibble, u, |out| + |l|).Some? {
      PrintParseMatch(l, nibble, u, |out| + |l|);
      assert |out + l| == |out| + |l|;
    }
  }

  lemma FinishSequence(s: seq<byte>, out: seq<byte>)
    requires s != []
    ensures Finish(s, out)
         == match ParseLength(s[1..], s[0] as int / 16)
            case None => None
            case Some(Read(k, t)) =>
              if k > |t| || |out| + k > MAX_SAVE_SIZE then None
              else if k == |t| then Some(out + t)
              else FinishMatch(out + t[..k], s[0] as int % 16, t[k..])
  {
    hide ParseLength, ParseMatch, FinishMatch, CopyMatch, Print;
    match ParseLength(s[1..], s[0] as int / 16)
    case None =>
    case Some(Read(k, t)) =>
      if k < |t| && |out| + k <= MAX_SAVE_SIZE {
        FinishMatchMeaning(out, t[..k], s[0] as int % 16, t[k..]);
        assert Parse(s, |out|) == ParseMatch(t[..k], s[0] as int % 16, t[k..], |out| + k);
      }
  }

  lemma FinishEmpty(out: seq<byte>)
    ensures Finish([], out) == Some(out)
  {
  }

  function Longer(q: Option<Read>, k: nat): Option<Read> {
    match q
    case None => None
    case Some(Read(value, rest)) => Some(Read(k + value, rest))
  }

  lemma ParseExtensionStep(s: seq<byte>, length: nat)
    ensures s == [] ==> Longer(ParseExtension(s), length) == None
    ensures s != [] && s[0] != 255 ==> Longer(ParseExtension(s), length) == Some(Read(length + s[0] as nat, s[1..]))
    ensures s != [] && s[0] == 255 ==> Longer(ParseExtension(s), length) == Longer(ParseExtension(s[1..]), length + 255)
  {
  }

  lemma ReadExtension(input: seq<byte>, cursor: nat, length: nat)
    requires cursor <= |input|
    ensures var q := Longer(ParseExtension(input[cursor..]), length);
            && (cursor == |input| ==> q == None)
            && (cursor < |input| && input[cursor] != 255 ==> q == Some(Read(length + input[cursor] as nat, input[cursor + 1..])))
            && (cursor < |input| && input[cursor] == 255 ==> q == Longer(ParseExtension(input[cursor + 1..]), length + 255))
  {
    hide ParseExtension, Longer;
    ParseExtensionStep(input[cursor..], length);
    if cursor < |input| {
      Suffix(input, cursor, 1);
    }
  }

  method ExtendedLength(input: seq<byte>, start: nat, base: nat) returns (r: Option<nat>, cursor: nat)
    requires start <= |input| <= MAX_SAVE_SIZE && base < 16
    ensures start <= cursor <= |input|
    ensures r.None? <==> ParseLength(input[start..], base).None?
    ensures r.Some? ==> ParseLength(input[start..], base) == Some(Read(r.value, input[cursor..]))
  {
    cursor := start;
    if base != 15 {
      return Some(base), cursor;
    }
    assert ParseLength(input[start..], 15) == Longer(ParseExtension(input[start..]), 15);
    hide ParseExtension, ParseLength, Longer;
    var length: nat := base;
    while true
      invariant start <= cursor <= |input|
      invariant length <= 15 + 255 * (cursor - start)
      invariant ParseLength(input[start..], 15) == Longer(ParseExtension(input[cursor..]), length)
      decreases |input| - cursor
    {
      ReadExtension(input, cursor, length);
      if cursor >= |input| {
        return None, cursor;
      }
      var extension := input[cursor];
      cursor := cursor + 1;
      var sum := CheckedAdd(length, extension as nat);
      if sum.None? {
        return None, cursor;
      }
      length := sum.value;
      if extension != 255 {
        return Some(length), cursor;
      }
    }
  }

  /** Appends one match byte by byte, so that it may overlap the bytes it appends. */
  method AppendMatch(before: seq<byte>, offset: nat, length: nat) returns (output: seq<byte>)
    requires 0 < offset <= |before|
    ensures output == CopyMatch(before, offset, length)
  {
    output := before;
    for i := 0 to length
      invariant output == CopyMatch(before, offset, i)
    {
      var value := output[|output| - offset];
      output := output + [value];
    }
  }

  /** The second half of the decoding loop's body: the match after the literals. */
  method DecodeMatch(input: seq<byte>, start: nat, nibble: nat, before: seq<byte>)
    returns (r: Option<seq<byte>>, cursor: nat)
    requires start <= |input| <= MAX_SAVE_SIZE && |before| <= MAX_SAVE_SIZE && nibble < 16
    ensures r.None? ==> FinishMatch(before, nibble, input[start..]) == None
    ensures r.Some? ==>
              && start < cursor <= |input| && |r.value| <= MAX_SAVE_SIZE
              && FinishMatch(before, nibble, input[start..]) == Finish(input[cursor..], r.value)
  {
    hide ParseLength, Finish, CopyMatch;
    cursor := start;
    var offsetEnd := CheckedAdd(cursor, 2);
    if offsetEnd.None? || offsetEnd.value > |input| {
      return None, cursor;
    }
    var offset := input[cursor] as int + 0x100 * input[cursor + 1] as int;
    Suffix(input, cursor, 2);
    cursor := offsetEnd.value;
    if offset == 0 || offset > |before| {
      return None, cursor;
    }
    var base;
    base, cursor := ExtendedLength(input, cursor, nibble);
    if base.None? {
      return None, cursor;
    }
    var matchLength := CheckedAdd(base.value, 4);
    if matchLength.None? {
      return None, cursor;
    }
    var total := CheckedAdd(|before|, matchLength.value);
    if total.None? || total.value > MAX_SAVE_SIZE {
      return None, cursor;
    }
    var output := AppendMatch(before, offset, matchLength.value);
    r := Some(output);
  }

  /** One sequence, up to its literals, where they lie in the input. */
  lemma FinishLiterals(input: seq<byte>, start: nat, out: seq<byte>, k: nat, at: nat)
    requires start < |input| && at <= |input|
    requires ParseLength(input[start + 1..], input[start] as int / 16) == Some(Read(k, input[at..]))
    ensures at + k > |input| || |out| + k > MAX_SAVE_SIZE ==> Finish(input[start..], out) == None
    ensures at + k == |input| && |out| + k <= MAX_SAVE_SIZE ==>
              Finish(input[start..], out) == Some(out + input[at..at + k])
    ensures at + k < |input| && |out| + k <= MAX_SAVE_SIZE ==>
              Finish(input[start..], out)
              == FinishMatch(out + input[at..at + k], input[start] as int % 16, input[at + k..])
  {
    hide ParseLength, Finish, FinishMatch;
    FinishSequence(input[start..], out);
    Suffix(input, start, 1);
    if at + k <= |input| {
      Suffix(input, at, k);
      assert at + k == |input| ==> input[at..] == input[at..at + k];
    }
  }

  lemma FinishNoLength(input: seq<byte>, start: nat, out: seq<byte>)
    requires start < |input| && ParseLength(input[start + 1..], input[start] as int / 16) == None
    ensures Finish(input[start..], out) == None
  {
    hide ParseLength, Finish, FinishMatch;
    FinishSequence(input[start..], out);
    Suffix(input, start, 1);
  }

  method DecodeRawLz4(input: seq<byte>) returns (r: Option<seq<byte>>)
    ensures r == Decoded(input)
  {
    hide ParseLength, Finish, FinishMatch;
    if |input| == 0 || |input| > MAX_SAVE_SIZE {
      return None;
    }
    var output: seq<byte> := [];
    var cursor := 0;
    assert input[0..] == input;
    while cursor < |input|
      invariant cursor <= |input| && |output| <= MAX_SAVE_SIZE
      invariant Finish(input[cursor..], output) == Finish(input, [])
    {
      var token := input[cursor];
      ghost var start := cursor;
      cursor := cursor + 1;
      var literalLength;
      literalLength, cursor := ExtendedLength(input, cursor, token as int / 16);
      if literalLength.None? {
        FinishNoLength(input, start, output);
        return None;
      }
      FinishLiterals(input, start, output, literalLength.value, cursor);
      var literalEnd := CheckedAdd(cursor, literalLength.value);
      var size := CheckedAdd(|output|, literalLength.value);
      if literalEnd.None? || literalEnd.value > |input| || size.None? || size.value > MAX_SAVE_SIZE {
        return None;
      }
      output := output + input[cursor..literalEnd.value];
      cursor := literalEnd.value;
      if cursor == |input| {
        return Some(output);
      }
      var extended;
      extended, cursor := DecodeMatch(input, cursor, token as int % 16, output);
      if extended.None? {
        return None;
      }
      output := extended.value;
    }
    assert input[cursor..] == [];
    FinishEmpty(output);
    return Some(output);
  }

  // ----- What the decoder accepts -----

  /** The input is the printing of a non-empty well-formed block that spells `out`. */
  ghost predicate Encodes(b: Block, input: seq<byte>, out: seq<byte>) {
    && b != End
    && WellFormed(b, 0) && Printable(b)
    && Print(b) == input
    && |input| <= MAX_SAVE_SIZE
    && Spells(b, 0, out)
  }

  lemma PrintNonEmpty(b: Block)
    requires Printable(b)
    ensures Print(b) == [] <==> b == End
  {
  }

  /** The decoder accepts exactly the bounded printings of well-formed blocks, and returns their meaning. */
  lemma DecodedIffPrinted(input: seq<byte>, out: seq<byte>)
    ensures Decoded(input) == Some(out) <==> exists b :: Encodes(b, input, out)
  {
    hide Print, Meaning, Parse, Spells;
    if Decoded(input) == Some(out) {
      PrintParse(input, 0);
      PrintNonEmpty(Parse(input, 0).value);
      MeaningSpells(Parse(input, 0).value, [], out);
      assert Encodes(Parse(input, 0).value, input, out);
    }
    if b :| Encodes(b, input, out) {
      ParsePrint(b, 0);
      PrintNonEmpty(b);
      MeaningSpells(b, [], out);
    }
  }

  /** An accepted input has one syntax tree, and an input has one meaning. */
  lemma EncodesUnique(b: Block, b': Block, input: seq<byte>, out: seq<byte>, out': seq<byte>)
    requires Encodes(b, input, out) && Encodes(b', input, out')
    ensures b == b' && out == out'
  {
    hide Print, Meaning, Parse, WellFormed, Spells;
    ParsePrint(b, 0);
    ParsePrint(b', 0);
    MeaningSpells(b, [], out);
    MeaningSpells(b, [], out');
  }

  // ----- Every byte a sequence yields -----

  /** What the sequence l, offset, length makes of the bytes before it. */
  ghost predicate Yields(before: seq<byte>, l: seq<byte>, offset: nat, length: nat, r: seq<byte>)
    requires 0 < offset <= |before| + |l|
  {
    var m := |before| + |l|;
    && m + length <= |r|
    && r[..|before|] == before && r[|before|..m] == l
    && forall k :: 0 <= k < length ==> r[m + k] == (before + l)[m - offset + Phase(k, offset)]
  }

  lemma MatchBytesOf(out: seq<byte>, offset: nat, length: nat, r: seq<byte>)
    requires 0 < offset <= |out| && CopyMatch(out, offset, length) <= r
    ensures forall k :: 0 <= k < length ==> r[|out| + k] == out[|out| - offset + Phase(k, offset)]
  {
    hide Phase;
    var c := CopyMatch(out, offset, length);
    forall k | 0 <= k < length
      ensures r[|out| + k] == out[|out| - offset + Phase(k, offset)]
    {
      CopyMatchPeriodic(out, offset, length, k);
      assert r[|out| + k] == c[|out| + k];
    }
  }

  lemma YieldsOf(before: seq<byte>, l: seq<byte>, offset: nat, length: nat, r: seq<byte>)
    requires 0 < offset <= |before| + |l| && CopyMatch(before + l, offset, length) <= r
    ensures Yields(before, l, offset, length, r)
  {
    hide Phase;
    MatchBytesOf(before + l, offset, length, r);
    assert before + l <= r;
    Prefixes(before, l, r);
  }

  /** Whatever was decoded before a sequence and whatever follows it: its literals come next, then its match,
      byte k of which is the byte at `k mod offset` of the last `offset` bytes before the match. */
  lemma SequenceBytes(l: seq<byte>, offset: nat, length: nat, rest: Block, before: seq<byte>)
    requires WellFormed(Copy(l, offset, length, rest), |before|)
    ensures Yields(before, l, offset, length, Meaning(Copy(l, offset, length, rest), before))
  {
    var b, r := Copy(l, offset, length, rest), Meaning(Copy(l, offset, length, rest), before);
    assert 0 < offset <= |before| + |l|;
    hide *;
    MeaningSpells(b, before, r);
    CopySpells(l, offset, length, rest, before, r);
    YieldsOf(before, l, offset, length, r);
  }

  /** A block of one match between literals decodes to them with the match, byte by byte. */
  lemma MatchDecoded(l: seq<byte>, offset: nat, n: nat, t: seq<byte>, spare: nat)
    requires 0 < offset <= |l| && offset < 0x1_0000 && 4 <= n && spare < 16 && |l| + n + |t| <= MAX_SAVE_SIZE
    requires |Print(Copy(l, offset, n, Literals(t, spare)))| <= MAX_SAVE_SIZE
    ensures var d := Decoded(Print(Copy(l, offset, n, Literals(t, spare))));
            && d.Some? && |d.value| == |l| + n + |t|
            && d.value[..|l|] == l && d.value[|l| + n..] == t
            && forall k :: 0 <= k < n ==> d.value[|l| + k] == l[|l| - offset + Phase(k, offset)]
  {
    var b := Copy(l, offset, n, Literals(t, spare));
    var r := Meaning(b, []);
    ParsePrint(b, 0);
    PrintNonEmpty(b);
    SequenceBytes(l, offset, n, Literals(t, spare), []);
    MeaningSpells(b, [], r);
    hide Print, Parse, Meaning, Phase;
    assert [] + l == l && r[0..|l|] == r[..|l|];
  }

  lemma DecodedAs(b: Block, input: seq<byte>, out: seq<byte>)
    requires Encodes(b, input, out)
    ensures Decoded(input) == Some(out)
  {
    hide *;
    DecodedIffPrinted(input, out);
  }

  /** "ab" and a match of four at distance two are "ababab": the offset's low byte comes first. */
  lemma MatchExample()
    ensures Decoded([0x20, 0x61, 0x62, 0x02, 0x00]) == Some([0x61, 0x62, 0x61, 0x62, 0x61, 0x62])
  {
    var b := Copy([0x61, 0x62], 2, 4, End);
    assert LengthTail(2) == [] && LengthTail(0) == [] && Token(2, 0) == 0x20;
    DecodedAs(b, [0x20, 0x61, 0x62, 0x02, 0x00], [0x61, 0x62, 0x61, 0x62, 0x61, 0x62]);
  }

  /** "a" and a match of nineteen: a nibble of 15 is extended by the bytes after the offset. */
  lemma LongMatchExample()
    ensures Decoded([0x1F, 0x61, 0x01, 0x00, 0x00]) == Some(seq(20, _ => 0x61))
  {
    var b := Copy([0x61], 1, 19, End);
    assert LengthTail(1) == [] && LengthTail(15) == [0] && Token(1, 15) == 0x1F;
    var out: seq<byte> := seq(20, _ => 0x61);
    assert out[0..1] == [0x61] && Spells(End, 20, out);
    DecodedAs(b, [0x1F, 0x61, 0x01, 0x00, 0x00], out);
  }

  lemma {:induction false} ExtensionSize(m: nat)
    ensures m <= 255 * |Extension(m)| - 1
  {
    if m < 255 {
    } else {
      ExtensionSize(m - 255);
    }
  }

  lemma LengthTailSize(n: nat)
    ensures n <= 14 + 255 * |LengthTail(n)|
  {
    if n >= 15 {
      ExtensionSize(n - 15);
    }
  }

  /** Decoding grows a block by at most 255 bytes for each byte of its printing. */
  lemma {:induction false} MeaningSize(b: Block, out: seq<byte>)
    requires WellFormed(b, |out|) && Printable(b)
    ensures |out| <= |Meaning(b, out)| <= |out| + 255 * |Print(b)|
    ensures |out| <= MAX_SAVE_SIZE ==> |Meaning(b, out)| <= MAX_SAVE_SIZE
  {
    if !b.Copy? {
    } else {
      LengthTailSize(b.length - 4);
      MeaningSize(b.rest, CopyMatch(out + b.literals, b.offset, b.length));
    }
  }

  /** No decoded save is larger than the limit, nor than 255 times its encoding. */
  lemma DecodedSize(input: seq<byte>)
    requires Decoded(input).Some?
    ensures |Decoded(input).value| <= MAX_SAVE_SIZE && |Decoded(input).value| <= 255 * |input|
  {
    PrintParse(input, 0);
    MeaningSize(Parse(input, 0).value, []);
  }

  // ----- The literal-only encoder -----

  lemma {:induction false} ExtensionSplit(k: nat, m: nat)
    requires m < 255
    ensures Extension(255 * k + m) == seq(k, _ => 255) + [m]
  {
    if k == 0 {
      assert seq(0, _ => 255) + [m] == [m];
    } else {
      ExtensionSplit(k - 1, m);
      assert seq(k, _ => 255) == [255] + seq(k - 1, _ => 255);
    }
  }

  method LiteralOnlyLz4(bytes: seq<byte>) returns (encoded: seq<byte>)
    requires 15 <= |bytes|
    ensures encoded == Print(Literals(bytes, 0))
  {
    encoded := [0xF0];
    var remaining := |bytes| - 15;
    ghost var k := 0;
    while remaining >= 255
      invariant 0 <= remaining && |bytes| - 15 == 255 * k + remaining
      invariant encoded == [0xF0] + seq(k, _ => 255)
    {
      encoded := encoded + [255];
      remaining := remaining - 255;
      k := k + 1;
    }
    encoded := encoded + [remaining];
    encoded := encoded + bytes;
    ExtensionSplit(k, remaining);
  }

  /** Decoding the literal-only encoding gives back the bytes, as long as both sides fit. */
  lemma LiteralOnlyRoundTrip(bytes: seq<byte>, spare: nat)
    requires spare < 16
    ensures var s := Print(Literals(bytes, spare));
            Decoded(s) == if |s| <= MAX_SAVE_SIZE then Some(bytes) else None
  {
    var b := Literals(bytes, spare);
    if |Print(b)| <= MAX_SAVE_SIZE {
      ParsePrint(b, 0);
      assert [] + bytes == bytes;
    }
  }
}
