/** Bytes, options and little-endian 32-bit words, shared by the binary formats. */
module Bytes {
  type byte = x: int | 0 <= x < 256

  datatype Option<+T> = None | Some(value: T)

  const WORD_LIMIT := 0x1_0000_0000

  /** usize is 64 bits wide on every device the program runs on. */
  const USIZE_LIMIT := 0x1_0000_0000_0000_0000

  /** Rust's `usize::checked_add`. */
  function CheckedAdd(a: nat, b: nat): Option<nat> {
    if a + b < USIZE_LIMIT then Some(a + b) else None
  }

  /** Rust's `usize::checked_mul`. */
  function CheckedMul(a: nat, b: nat): Option<nat> {
    if a * b < USIZE_LIMIT then Some(a * b) else None
  }

  function Min(a: int, b: int): int {
    if a <= b then a else b
  }

  function WordAt(s: seq<byte>, at: nat): (w: nat)
    requires at + 4 <= |s|
    ensures w < WORD_LIMIT
  {
    s[at] as int + 0x100 * (s[at + 1] as int + 0x100 * (s[at + 2] as int + 0x100 * s[at + 3] as int))
  }

  function WordBytes(w: nat): (s: seq<byte>)
    requires w < WORD_LIMIT
    ensures |s| == 4
  {
    [w % 0x100, w / 0x100 % 0x100, w / 0x100 / 0x100 % 0x100, w / 0x100 / 0x100 / 0x100]
  }

  /** Writing a word and reading it back. */
  lemma WordRoundTrip(w: nat, rest: seq<byte>)
    requires w < WORD_LIMIT
    ensures WordAt(WordBytes(w) + rest, 0) == w
  {
  }

  /** Reading a word and writing it back. */
  lemma WordPrint(s: seq<byte>, at: nat)
    requires at + 4 <= |s|
    ensures WordBytes(WordAt(s, at)) == s[at..at + 4]
  {
    var tail := s[at + 2] as int + 0x100 * s[at + 3] as int;
    assert WordAt(s, at) / 0x100 == s[at + 1] as int + 0x100 * tail;
    assert WordAt(s, at) / 0x100 / 0x100 == tail;
    assert WordBytes(WordAt(s, at)) == [s[at], s[at + 1], s[at + 2], s[at + 3]];
  }

  /** A word only depends on its own four bytes. */
  lemma WordShift(s: seq<byte>, k: nat, at: nat)
    requires k + at + 4 <= |s|
    ensures WordAt(s[k..], at) == WordAt(s, k + at)
  {
  }

  lemma Suffix<T>(s: seq<T>, a: nat, b: nat)
    requires a + b <= |s|
    ensures s[a..][b..] == s[a + b..] && s[a..][..b] == s[a..a + b]
  {
  }
}
