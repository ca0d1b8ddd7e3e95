/** The scan of a memory region for player entities, read in overlapping chunks. */
module PlayerScan {
  import opened Bytes

  const WORD_SIZE := 8
  const TYPE_OFFSET := 0x38
  const POSITION_OFFSET := 0x310
  const ENTITY_SIZE := POSITION_OFFSET + 8
  const CHUNK := 0x20_0000
  const OVERLAP := 4096
  const REGION_LIMIT := 0x2000_0000

  /** The virtual tables of players, and which position bits (x, y) are plausible floats. */
  datatype Players = Players(vtables: set<nat>, plausible: (nat, nat) -> bool)

  // ----- What a region contains -----

  predicate References(p: Players, memory: seq<byte>, at: nat) {
    && at + ENTITY_SIZE <= |memory|
    && WordAt(memory, at) + WORD_LIMIT * WordAt(memory, at + 4) in p.vtables
  }

  /** A player: type 1, variant 0, subtype below 100 as a signed number, at a plausible position. */
  predicate IsPlayer(p: Players, memory: seq<byte>, at: nat) {
    && References(p, memory, at)
    && WordAt(memory, at + TYPE_OFFSET) == 1
    && WordAt(memory, at + TYPE_OFFSET + 4) == 0
    && WordAt(memory, at + TYPE_OFFSET + 8) < 100
    && p.plausible(WordAt(memory, at + POSITION_OFFSET), WordAt(memory, at + POSITION_OFFSET + 4))
  }

  /** The word-aligned positions below `limit`, as word numbers. */
  ghost function Referenced(p: Players, memory: seq<byte>, limit: nat): set<nat> {
    set i: nat | i < limit && References(p, memory, WORD_SIZE * i)
  }

  ghost function PlayersAt(p: Players, memory: seq<byte>, limit: nat): set<nat> {
    set i: nat | i < limit && IsPlayer(p, memory, WORD_SIZE * i)
  }

  function Words(size: nat): nat {
    (size + 7) / 8
  }

  // ----- Scanning word by word -----

  datatype Found = Found(references: nat, players: nat, first: nat)

  function Visit(p: Players, memory: seq<byte>, at: nat, address: nat, seen: Found): Found {
    if !References(p, memory, at) then seen
    else if !IsPlayer(p, memory, at) then seen.(references := seen.references + 1)
    else Found(seen.references + 1, seen.players + 1, if seen.first == 0 then address else seen.first)
  }

  /** Visiting the words numbered `from` to `to`; `address` is where the memory starts. */
  function Scanned(p: Players, memory: seq<byte>, from: nat, to: nat, address: nat, seen: Found): Found {
    if to <= from then seen
    else Visit(p, memory, WORD_SIZE * (to - 1), address + WORD_SIZE * (to - 1),
               Scanned(p, memory, from, to - 1, address, seen))
  }

  lemma {:induction false} ScannedInTwo(p: Players, memory: seq<byte>, from: nat, mid: nat, to: nat, address: nat, seen: Found)
    requires from <= mid <= to
    ensures Scanned(p, memory, from, to, address, seen)
         == Scanned(p, memory, mid, to, address, Scanned(p, memory, from, mid, address, seen))
  {
    if mid == to {
    } else {
      ScannedInTwo(p, memory, from, mid, to - 1, address, seen);
    }
  }

  lemma OneMore(s: set<nat>, s': set<nat>, x: nat, more: bool)
    requires x !in s && forall i :: i in s' <==> i in s || (more && i == x)
    ensures |s'| == |s| + if more then 1 else 0
  {
    assert s' == if more then s + {x} else s;
  }

  ghost predicate Lowest(players: set<nat>, i: nat) {
    i in players && forall j :: j in players ==> i <= j
  }

  /** What a scan of the words below `limit` has found. */
  ghost predicate Exact(p: Players, memory: seq<byte>, limit: nat, address: nat, r: Found) {
    && r.references == |Referenced(p, memory, limit)|
    && r.players == |PlayersAt(p, memory, limit)|
    && (r.players == 0 ==> r.first == 0)
    && (r.players > 0 ==> exists i :: Lowest(PlayersAt(p, memory, limit), i) && r.first == address + WORD_SIZE * i)
  }

  /** A scan counts each aligned position once, and its first address is the lowest player's. */
  lemma {:induction false} ScanCounts(p: Players, memory: seq<byte>, limit: nat, address: nat)
    requires address > 0
    ensures Exact(p, memory, limit, address, Scanned(p, memory, 0, limit, address, Found(0, 0, 0)))
  {
    if limit == 0 {
    } else {
      ScanCounts(p, memory, limit - 1, address);
      VisitCounts(p, memory, limit - 1, address, Scanned(p, memory, 0, limit - 1, address, Found(0, 0, 0)));
    }
  }

  lemma VisitCounts(p: Players, memory: seq<byte>, last: nat, address: nat, seen: Found)
    requires address > 0 && Exact(p, memory, last, address, seen)
    ensures Exact(p, memory, last + 1, address, Visit(p, memory, WORD_SIZE * last, address + WORD_SIZE * last, seen))
  {
    var here := References(p, memory, WORD_SIZE * last);
    var player := IsPlayer(p, memory, WORD_SIZE * last);
    assert player ==> here;
    hide References, IsPlayer;
    var before, after := PlayersAt(p, memory, last), PlayersAt(p, memory, last + 1);
    OneMore(Referenced(p, memory, last), Referenced(p, memory, last + 1), last, here);
    OneMore(before, after, last, player);
    if |before| == 0 {
      assert player ==> Lowest(after, last);
    } else {
      var i :| Lowest(before, i) && seen.first == address + WORD_SIZE * i;
      assert Lowest(after, i);
    }
  }

  /** The scanned words are all aligned positions at which an entity fits. */
  lemma NothingBeyond(p: Players, memory: seq<byte>, i: nat)
    requires Words(|memory|) <= i
    ensures !References(p, memory, 8 * i) && !IsPlayer(p, memory, 8 * i)
  {
  }

  /** Memory of the size of one entity is a player when its first eight bytes are the address of a player's
      table, the words at 0x38, 0x3C and 0x40 are 1, 0 and below 100, and the position at 0x310 is plausible. */
  lemma OneEntity(p: Players, memory: seq<byte>, address: nat)
    requires |memory| == 0x318 && address > 0
    ensures var r := Scanned(p, memory, 0, Words(|memory|), address, Found(0, 0, 0));
            var there := WordAt(memory, 0) + 0x1_0000_0000 * WordAt(memory, 4) in p.vtables;
            var player := && there && WordAt(memory, 0x38) == 1 && WordAt(memory, 0x3C) == 0 && WordAt(memory, 0x40) < 100
                          && p.plausible(WordAt(memory, 0x310), WordAt(memory, 0x314));
            r == Found(if there then 1 else 0, if player then 1 else 0, if player then address else 0)
  {
    NothingLeft(p, memory, 1, Words(|memory|), address, Found(0, 0, 0));
    assert Scanned(p, memory, 0, 0, address, Found(0, 0, 0)) == Found(0, 0, 0);
    hide WordAt;
  }

  // ----- Chunks -----

  /** A chunk and its overlap show a position of its own exactly as the whole region does. */
  lemma VisitChunk(p: Players, memory: seq<byte>, start: nat, request: nat, end: nat, at: nat, address: nat, seen: Found)
    requires start + request <= end <= |memory|
    requires end == |memory| || end == start + request + OVERLAP
    requires at < request
    ensures Visit(p, memory[start..end], at, address, seen) == Visit(p, memory, start + at, address, seen)
  {
    var chunk := memory[start..end];
    if at + ENTITY_SIZE <= |chunk| {
      SameWords(memory, start, end, at);
      SameWords(memory, start, end, at + 4);
      SameWords(memory, start, end, at + TYPE_OFFSET);
      SameWords(memory, start, end, at + TYPE_OFFSET + 4);
      SameWords(memory, start, end, at + TYPE_OFFSET + 8);
      SameWords(memory, start, end, at + POSITION_OFFSET);
      SameWords(memory, start, end, at + POSITION_OFFSET + 4);
    }
  }

  lemma SameWords(memory: seq<byte>, start: nat, end: nat, at: nat)
    requires start + at + 4 <= end <= |memory|
    ensures WordAt(memory[start..end], at) == WordAt(memory, start + at)
  {
  }

  lemma {:induction false} ScannedChunk(p: Players, memory: seq<byte>, start: nat, request: nat, end: nat,
                                        to: nat, address: nat, seen: Found)
    requires start + request <= end <= |memory| && start % WORD_SIZE == 0
    requires end == |memory| || end == start + request + OVERLAP
    requires to <= Words(request)
    ensures Scanned(p, memory[start..end], 0, to, address + start, seen)
         == Scanned(p, memory, start / WORD_SIZE, start / WORD_SIZE + to, address, seen)
  {
    hide Visit;
    if to == 0 {
    } else {
      var first, at := start / WORD_SIZE, WORD_SIZE * (to - 1);
      assert WORD_SIZE * (first + to - 1) == start + at;
      ScannedChunk(p, memory, start, request, end, to - 1, address, seen);
      VisitChunk(p, memory, start, request, end, at, address + start + at,
                 Scanned(p, memory, first, first + to - 1, address, seen));
    }
  }

  // ----- The scan itself -----

  /** The kernel's copy of `length` bytes at an address; it may fail or come short. */
  type Reader = (nat, nat) -> Option<seq<byte>>

  /** Reads never return more than was asked for. */
  ghost predicate Bounded(read: Reader) {
    forall a, n :: read(a, n).Some? ==> |read(a, n).value| <= n
  }

  ghost predicate Complete(read: Reader, address: nat, memory: seq<byte>) {
    forall a, n :: address <= a && a - address + n <= |memory|
      ==> read(a, n) == Some(memory[a - address..a - address + n])
  }

  function Request(size: nat, consumed: nat): nat
    requires consumed <= size
  {
    Min(CHUNK, size - consumed)
  }

  function Overlap(size: nat, consumed: nat): nat
    requires consumed <= size
  {
    Min(OVERLAP, size - consumed - Request(size, consumed))
  }

  predicate Readable(read: Reader, address: nat, size: nat, consumed: nat)
    requires consumed <= size
  {
    var copy := read(address + consumed, Request(size, consumed) + Overlap(size, consumed));
    copy.Some? && |copy.value| >= WORD_SIZE
  }

  ghost predicate AllReadable(read: Reader, address: nat, size: nat) {
    forall k: nat :: k * CHUNK < size ==> Readable(read, address, size, k * CHUNK)
  }

  /** If reads are complete, the first `consumed` bytes have been scanned as one piece. */
  ghost predicate SoFar(p: Players, read: Reader, start: nat, length: nat, consumed: nat, before: Found, now: Found) {
    forall memory :: |memory| == length && Complete(read, start, memory)
      ==> now == Scanned(p, memory, 0, Words(consumed), start, before)
  }

  class RegionResult {
    var address: nat
    var size: nat
    var references: nat
    var players: nat
    var first: nat

    constructor ()
      ensures address == 0 && size == 0 && View() == Found(0, 0, 0)
    {
      address, size, references, players, first := 0, 0, 0, 0, 0;
    }

    function View(): Found
      reads this
    {
      Found(references, players, first)
    }

    method ScanCopy(p: Players, bytes: seq<byte>, scanLimit: nat, source: nat)
      modifies this`references, this`players, this`first
      ensures View() == Scanned(p, bytes, 0, Words(Min(scanLimit, |bytes|)), source, old(View()))
    {
      hide WordAt;
      var limit: nat := Min(scanLimit, |bytes|);
      var offset: nat := 0;
      while offset < limit && offset + ENTITY_SIZE <= |bytes|
        invariant offset % WORD_SIZE == 0 && offset / WORD_SIZE <= Words(limit)
        invariant View() == Scanned(p, bytes, 0, offset / WORD_SIZE, source, old(View()))
        decreases |bytes| - offset
      {
        if WordAt(bytes, offset) + WORD_LIMIT * WordAt(bytes, offset + 4) in p.vtables {
          references := references + 1;
          if && WordAt(bytes, offset + TYPE_OFFSET) == 1
             && WordAt(bytes, offset + TYPE_OFFSET + 4) == 0
             && WordAt(bytes, offset + TYPE_OFFSET + 8) < 100
             && p.plausible(WordAt(bytes, offset + POSITION_OFFSET), WordAt(bytes, offset + POSITION_OFFSET + 4))
          {
            players := players + 1;
            if first == 0 {
              first := source + offset;
            }
          }
        }
        offset := offset + WORD_SIZE;
      }
      NothingLeft(p, bytes, offset / WORD_SIZE, Words(limit), source, old(View()));
    }

    /** Without a complete read of every chunk the scan reports failure; with complete reads it finds
        what one pass over the whole region finds. */
    method ScanRegion(p: Players, read: Reader, start: nat, length: nat) returns (ok: bool)
      requires Bounded(read)
      modifies this
      ensures address == start && size == length
      ensures ok <==> (&& start != 0 && 0 < length <= REGION_LIMIT
                       && AllReadable(read, start, length))
      ensures ok ==> SoFar(p, read, start, length, length, old(View()), View())
    {
      hide Scanned, Visit, Complete, SoFar;
      address, size := start, length;
      if start == 0 || length == 0 || length > REGION_LIMIT {
        return false;
      }
      var consumed: nat := 0;
      ghost var chunks: nat := 0;
      NothingYet(p, read, start, length, View());
      while consumed < length
        invariant consumed <= length
        invariant consumed == Min(chunks * CHUNK, length)
        invariant address == start && size == length
        invariant forall k: nat :: k < chunks && k * CHUNK < length ==> Readable(read, start, length, k * CHUNK)
        invariant SoFar(p, read, start, length, consumed, old(View()), View())
      {
        var request: nat := Min(CHUNK, length - consumed);
        var overlap: nat := if consumed + request < length then Min(OVERLAP, length - consumed - request) else 0;
        var copy := read(start + consumed, request + overlap);
        assert consumed == chunks * CHUNK;
        if copy.None? || |copy.value| < WORD_SIZE {
          assert !Readable(read, start, length, chunks * CHUNK);
          return false;
        }
        ghost var before := View();
        ScanCopy(p, copy.value, request, start + consumed);
        NextChunk(p, read, start, length, consumed, copy, old(View()), before, View());
        consumed := consumed + request;
        chunks := chunks + 1;
      }
      ok := true;
    }
  }

  lemma {:induction false} NothingLeft(p: Players, bytes: seq<byte>, from: nat, to: nat, source: nat, seen: Found)
    requires from <= to
    requires from == to || WORD_SIZE * from + ENTITY_SIZE > |bytes|
    ensures Scanned(p, bytes, 0, to, source, seen) == Scanned(p, bytes, 0, from, source, seen)
  {
    if from == to {
    } else {
      NothingLeft(p, bytes, from, to - 1, source, seen);
    }
  }

  lemma WordsOfChunk(consumed: nat, request: nat)
    requires consumed % CHUNK == 0
    ensures consumed % WORD_SIZE == 0 && Words(consumed) == consumed / WORD_SIZE
    ensures Words(consumed + request) == consumed / WORD_SIZE + Words(request)
  {
    assert consumed == WORD_SIZE * (consumed / CHUNK * (CHUNK / WORD_SIZE));
  }

  lemma OneChunk(p: Players, memory: seq<byte>, consumed: nat, request: nat, overlap: nat, start: nat, seen: Found, before: Found)
    requires consumed % CHUNK == 0 && consumed + request + overlap <= |memory|
    requires overlap == OVERLAP || consumed + request + overlap == |memory|
    requires before == Scanned(p, memory, 0, Words(consumed), start, seen)
    ensures Scanned(p, memory[consumed..consumed + request + overlap], 0, Words(request), start + consumed, before)
         == Scanned(p, memory, 0, Words(consumed + request), start, seen)
  {
    hide *;
    WordsOfChunk(consumed, request);
    ScannedChunk(p, memory, consumed, request, consumed + request + overlap, Words(request), start, before);
    ScannedInTwo(p, memory, 0, Words(consumed), Words(consumed + request), start, seen);
  }

  lemma NothingYet(p: Players, read: Reader, start: nat, length: nat, found: Found)
    ensures SoFar(p, read, start, length, 0, found, found)
  {
  }

  lemma NextChunk(p: Players, read: Reader, start: nat, length: nat, consumed: nat, copy: Option<seq<byte>>,
                  before: Found, now: Found, next: Found)
    requires consumed < length && consumed % CHUNK == 0
    requires copy == read(start + consumed, Request(length, consumed) + Overlap(length, consumed)) && copy.Some?
    requires |copy.value| <= Request(length, consumed) + Overlap(length, consumed)
    requires SoFar(p, read, start, length, consumed, before, now)
    requires next == Scanned(p, copy.value, 0, Words(Min(Request(length, consumed), |copy.value|)), start + consumed, now)
    ensures SoFar(p, read, start, length, consumed + Request(length, consumed), before, next)
  {
    hide Scanned;
    forall memory | |memory| == length && Complete(read, start, memory)
      ensures next == Scanned(p, memory, 0, Words(consumed + Request(length, consumed)), start, before)
    {
      var request, overlap := Request(length, consumed), Overlap(length, consumed);
      assert copy.value == memory[consumed..consumed + request + overlap];
      OneChunk(p, memory, consumed, request, overlap, start, before, now);
    }
  }

  // ----- When a scan of readable memory succeeds -----

  lemma ReadableIff(read: Reader, address: nat, memory: seq<byte>, consumed: nat)
    requires Complete(read, address, memory) && consumed < |memory|
    ensures Readable(read, address, |memory|, consumed)
       <==> Request(|memory|, consumed) + Overlap(|memory|, consumed) >= WORD_SIZE
  {
    var n := Request(|memory|, consumed) + Overlap(|memory|, consumed);
    assert read(address + consumed, n) == Some(memory[consumed..consumed + n]);
  }

  /** Only a last chunk can be shorter than a word. */
  lemma ShortChunk(size: nat, k: nat)
    requires k * CHUNK < size
    ensures Request(size, k * CHUNK) + Overlap(size, k * CHUNK) < WORD_SIZE
       <==> k == size / CHUNK && 1 <= size % CHUNK <= 7
  {
  }

  /** With complete reads every chunk can be read unless a last chunk of fewer than eight bytes is left
      over; a size that is a multiple of eight always succeeds. */
  lemma ChunksReadable(read: Reader, address: nat, memory: seq<byte>)
    requires Complete(read, address, memory) && memory != []
    ensures AllReadable(read, address, |memory|) <==> !(1 <= |memory| % CHUNK <= 7)
  {
    hide Readable, Complete, Request, Overlap;
    var size := |memory|;
    var last := size / CHUNK;
    forall k: nat | k * CHUNK < size
      ensures Readable(read, address, size, k * CHUNK) <==> !(k == last && 1 <= size % CHUNK <= 7)
    {
      ReadableIff(read, address, memory, k * CHUNK);
      ShortChunk(size, k);
    }
    if 1 <= size % CHUNK <= 7 {
      assert last * CHUNK < size;
      assert !Readable(read, address, size, last * CHUNK);
    }
  }
}
