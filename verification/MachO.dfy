/** Adding one LC_LOAD_DYLIB command to a Mach-O slice, in place. */
module MachO {
  import opened Bytes
  import Utf8

  const MH_MAGIC_64 := 0xFEEDFACF
  const LC_SEGMENT_64 := 0x19
  const LC_LOAD_DYLIB := 0x0C
  const LC_ENCRYPTION_INFO := 0x21
  const LC_ENCRYPTION_INFO_64 := 0x2C
  const HEADER_SIZE := 32

  // ----- The new command -----

  /** The next multiple of eight. */
  function Align8(value: nat): (r: nat)
    ensures value <= r < value + 8 && r % 8 == 0
  {
    (value + 7) / 8 * 8
  }

  function Zeros(n: nat): (z: seq<byte>)
    ensures |z| == n && forall i :: 0 <= i < n ==> z[i] == 0
  {
    seq(n, _ => 0)
  }

  function CommandSize(name: seq<byte>): (n: nat)
    ensures 24 + |name| < n < 33 + |name| && n % 8 == 0
  {
    Align8(24 + |name| + 1)
  }

  function DylibCommand(name: seq<byte>): (c: seq<byte>)
    requires CommandSize(name) < WORD_LIMIT
    ensures |c| == CommandSize(name)
  {
    WordBytes(LC_LOAD_DYLIB) + WordBytes(CommandSize(name)) + WordBytes(24)
    + WordBytes(0) + WordBytes(0) + WordBytes(0)
    + (name + [0] + Zeros(CommandSize(name) - 24 - |name| - 1))
  }

  // ----- Examining one command -----

  /** The bytes before the first NUL. */
  function CString(raw: seq<byte>): (s: seq<byte>)
    ensures 0 !in s
  {
    if raw == [] || raw[0] == 0 then [] else [raw[0]] + CString(raw[1..])
  }

  /** The name a long enough LC_LOAD_DYLIB command holds: up to its first NUL, decoded. */
  function LibraryName(c: seq<byte>): seq<byte>
    requires 24 <= |c| && WordAt(c, 8) < |c|
  {
    Utf8.Lossy(CString(c[WordAt(c, 8)..]))
  }

  datatype Exam = Bad | Found | Go(first: nat)

  /** The smallest non-zero file offset among n section headers. */
  function Sections(c: seq<byte>, at: nat, n: nat, first: nat): Option<nat>
    decreases n
  {
    if n == 0 then Some(first)
    else if at + 80 > |c| then None
    else
      var offset := WordAt(c, at + 48);
      Sections(c, at + 80, n - 1, if offset != 0 then Min(first, offset) else first)
  }

  /** What the loop does with a command, whose bytes are `c`. */
  function Examine(c: seq<byte>, name: seq<byte>, first: nat): Exam
    requires 8 <= |c|
  {
    var command := WordAt(c, 0);
    if command == LC_LOAD_DYLIB && |c| >= 24 && 0 < WordAt(c, 8) < |c| && LibraryName(c) == name then Found
    else if (command == LC_ENCRYPTION_INFO || command == LC_ENCRYPTION_INFO_64) && |c| >= 20 && WordAt(c, 16) != 0 then Bad
    else if command == LC_SEGMENT_64 && |c| >= 72 then
      match Sections(c, 72, WordAt(c, 64), first)
      case None => Bad
      case Some(offset) => Go(offset)
    else Go(first)
  }

  // ----- Command lists -----

  datatype Command = Command(offset: nat, bytes: seq<byte>)

  /** The command at the cursor, if its header and its bytes lie before `end`. */
  function CommandAt(s: seq<byte>, cursor: nat, end: nat): (c: Option<Command>)
    requires end <= |s|
    ensures c.Some? ==> c.value.offset == cursor && 8 <= |c.value.bytes| && cursor + |c.value.bytes| <= end
  {
    if cursor + 8 > end then None
    else
      var size := WordAt(s, cursor + 4);
      if size < 8 || cursor + size > end then None
      else Some(Command(cursor, s[cursor..cursor + size]))
  }

  /** The n commands from the cursor on. */
  function Commands(s: seq<byte>, cursor: nat, end: nat, n: nat): Option<seq<Command>>
    requires end <= |s|
    decreases n
  {
    if n == 0 then Some([])
    else
      match CommandAt(s, cursor, end)
      case None => None
      case Some(c) =>
        match Commands(s, cursor + |c.bytes|, end, n - 1)
        case None => None
        case Some(rest) => Some([c] + rest)
  }

  function TotalSize(cs: seq<Command>): nat {
    if cs == [] then 0 else |cs[0].bytes| + TotalSize(cs[1..])
  }

  /** The loop over the commands: malformed, already present, or the first section's offset. */
  function Walk(s: seq<byte>, cursor: nat, end: nat, n: nat, name: seq<byte>, first: nat): Exam
    requires end <= |s|
    decreases n
  {
    if n == 0 then Go(first)
    else
      match CommandAt(s, cursor, end)
      case None => Bad
      case Some(c) =>
        match Examine(c.bytes, name, first)
        case Go(first') => Walk(s, cursor + |c.bytes|, end, n - 1, name, first')
        case exam => exam
  }

  // ----- Patching -----

  datatype Outcome = Patched | AlreadyPresent | PatchError | StructError

  function CommandCount(s: seq<byte>, base: nat): (n: nat)
    requires base + HEADER_SIZE <= |s|
    ensures n < WORD_LIMIT
  {
    WordAt(s, base + 16)
  }

  function CommandBytes(s: seq<byte>, base: nat): (n: nat)
    requires base + HEADER_SIZE <= |s|
    ensures n < WORD_LIMIT
  {
    WordAt(s, base + 20)
  }

  predicate IsImage(s: seq<byte>, base: nat, size: nat)
    requires base + size <= |s|
  {
    && HEADER_SIZE <= size && WordAt(s, base) == MH_MAGIC_64
    && HEADER_SIZE + CommandBytes(s, base) <= size
  }

  /** Where the new command goes: right after the declared command bytes. */
  function Insertion(s: seq<byte>, base: nat): nat
    requires base + HEADER_SIZE <= |s|
  {
    base + HEADER_SIZE + CommandBytes(s, base)
  }

  function Plan(s: seq<byte>, base: nat, size: nat, name: seq<byte>): Outcome
    requires base + size <= |s|
  {
    if !IsImage(s, base, size) then PatchError
    else
      match Walk(s, base + HEADER_SIZE, Insertion(s, base), CommandCount(s, base), name, size)
      case Bad => PatchError
      case Found => AlreadyPresent
      case Go(first) =>
        WalkBound(s, base + HEADER_SIZE, Insertion(s, base), CommandCount(s, base), name, size);
        if CommandSize(name) >= WORD_LIMIT then StructError
        else if HEADER_SIZE + CommandBytes(s, base) + CommandSize(name) > first then PatchError
        else if s[Insertion(s, base)..Insertion(s, base) + CommandSize(name)] != Zeros(CommandSize(name)) then PatchError
        else if CommandBytes(s, base) + CommandSize(name) >= WORD_LIMIT then StructError
        else Patched
  }

  function Splice(s: seq<byte>, at: nat, t: seq<byte>): (r: seq<byte>)
    requires at + |t| <= |s|
    ensures |r| == |s|
  {
    s[..at] + t + s[at + |t|..]
  }

  /** The bytes when a count does not fit its word: the name was too long to build the command, or the
      command is already written when the header cannot be. */
  function UnpackedBytes(s: seq<byte>, base: nat, size: nat, name: seq<byte>): (r: seq<byte>)
    requires base + size <= |s| && Plan(s, base, size, name) == StructError
    ensures |r| == |s|
  {
    if CommandSize(name) >= WORD_LIMIT then s
    else
      WalkBound(s, base + HEADER_SIZE, Insertion(s, base), CommandCount(s, base), name, size);
      Splice(s, Insertion(s, base), DylibCommand(name))
  }

  lemma SectionsBound(c: seq<byte>, at: nat, n: nat, first: nat)
    ensures Sections(c, at, n, first).Some? ==> Sections(c, at, n, first).value <= first
    decreases n
  {
  }

  lemma {:induction false} WalkBound(s: seq<byte>, cursor: nat, end: nat, n: nat, name: seq<byte>, first: nat)
    requires end <= |s|
    ensures Walk(s, cursor, end, n, name, first).Go? ==>
              Walk(s, cursor, end, n, name, first).first <= first && (8 * n <= end - cursor || n == 0)
    decreases n
  {
    if n == 0 || CommandAt(s, cursor, end).None? {
    } else {
      var c := CommandAt(s, cursor, end).value.bytes;
      var e := Examine(c, name, first);
      if e.Go? {
        ExamineBound(c, name, first);
        WalkBound(s, cursor + |c|, end, n - 1, name, e.first);
      }
    }
  }

  lemma ExamineBound(c: seq<byte>, name: seq<byte>, first: nat)
    requires 8 <= |c|
    ensures Examine(c, name, first).Go? ==> Examine(c, name, first).first <= first
  {
    hide WordAt, CString;
    if 72 <= |c| {
      SectionsBound(c, 72, WordAt(c, 64), first);
    }
  }

  /** The bytes after a successful patch. */
  function PatchedBytes(s: seq<byte>, base: nat, size: nat, name: seq<byte>): (r: seq<byte>)
    requires base + size <= |s| && Plan(s, base, size, name) == Patched
    ensures |r| == |s|
  {
    PlanRoom(s, base, size, name);
    var inserted := Splice(s, Insertion(s, base), DylibCommand(name));
    Splice(inserted, base + 16,
           WordBytes(CommandCount(s, base) + 1) + WordBytes(CommandBytes(s, base) + CommandSize(name)))
  }

  /** A patch that is planned fits in the slice and in the header's two words. */
  lemma PlanRoom(s: seq<byte>, base: nat, size: nat, name: seq<byte>)
    requires base + size <= |s| && Plan(s, base, size, name) == Patched
    ensures Insertion(s, base) + CommandSize(name) <= base + size
    ensures CommandCount(s, base) + 1 < WORD_LIMIT && CommandBytes(s, base) + CommandSize(name) < WORD_LIMIT
    ensures CommandSize(name) < WORD_LIMIT
    ensures IsImage(s, base, size)
    ensures s[Insertion(s, base)..Insertion(s, base) + CommandSize(name)] == Zeros(CommandSize(name))
    ensures var e := Walk(s, base + HEADER_SIZE, Insertion(s, base), CommandCount(s, base), name, size);
            e.Go? && HEADER_SIZE + CommandBytes(s, base) + CommandSize(name) <= e.first
  {
    hide WordAt, CommandSize, Walk, Zeros;
    WalkBound(s, base + HEADER_SIZE, Insertion(s, base), CommandCount(s, base), name, size);
  }

  // ----- In place -----

  lemma SpliceNext(s: seq<byte>, at: nat, t: seq<byte>, i: nat)
    requires at + |t| <= |s| && i < |t|
    ensures Splice(s, at, t[..i])[at + i := t[i]] == Splice(s, at, t[..i + 1])
  {
  }

  /** Overwrites part of the file. */
  method WriteAt(data: array<byte>, at: nat, t: seq<byte>)
    requires at + |t| <= data.Length
    modifies data
    ensures data[..] == Splice(old(data[..]), at, t)
  {
    ghost var was := data[..];
    assert Splice(was, at, t[..0]) == was;
    for i := 0 to |t|
      invariant data[..] == Splice(was, at, t[..i])
    {
      SpliceNext(was, at, t, i);
      hide Splice;
      data[at + i] := t[i];
    }
    assert t[..|t|] == t;
  }

  method MinSection(c: seq<byte>, first: nat) returns (r: Option<nat>)
    requires 72 <= |c|
    ensures r == Sections(c, 72, WordAt(c, 64), first)
  {
    hide WordAt;
    var nsects := WordAt(c, 64);
    var section: nat := 72;
    var lowest: nat := first;
    for k := 0 to nsects
      invariant Sections(c, 72, nsects, first) == Sections(c, section, nsects - k, lowest)
    {
      if section + 80 > |c| {
        return None;
      }
      var offset := WordAt(c, section + 48);
      if offset != 0 {
        lowest := Min(lowest, offset);
      }
      section := section + 80;
    }
    r := Some(lowest);
  }

  method ReadCString(raw: seq<byte>) returns (s: seq<byte>)
    ensures s == CString(raw)
  {
    s := [];
    var i := 0;
    while i < |raw| && raw[i] != 0
      invariant i <= |raw|
      invariant CString(raw) == s + CString(raw[i..])
    {
      s := s + [raw[i]];
      i := i + 1;
    }
  }

  method PatchSlice(data: array<byte>, base: nat, size: nat, name: seq<byte>) returns (r: Outcome)
    requires base + size <= data.Length
    modifies data
    ensures r == Plan(old(data[..]), base, size, name)
    ensures r == Patched ==> data[..] == PatchedBytes(old(data[..]), base, size, name)
    ensures r in {AlreadyPresent, PatchError} ==> data[..] == old(data[..])
    ensures r == StructError ==> data[..] == UnpackedBytes(old(data[..]), base, size, name)
  {
    hide WordAt, Walk, Examine, Sections, CString, DylibCommand, Splice, CommandSize, Zeros, WordBytes;
    ghost var was := data[..];
    var s := data[..];
    if size < HEADER_SIZE || WordAt(s, base) != MH_MAGIC_64 {
      return PatchError;
    }
    var ncmds, sizeofcmds := WordAt(s, base + 16), WordAt(s, base + 20);
    var commandEnd := base + HEADER_SIZE + sizeofcmds;
    if commandEnd > base + size {
      return PatchError;
    }
    var exam := WalkCommands(s, base + HEADER_SIZE, commandEnd, ncmds, name, size);
    if exam.Bad? {
      return PatchError;
    }
    if exam.Found? {
      return AlreadyPresent;
    }
    WalkBound(s, base + HEADER_SIZE, commandEnd, ncmds, name, size);
    if CommandSize(name) >= WORD_LIMIT {
      return StructError;
    }
    var command := DylibCommand(name);
    var relativeEnd := HEADER_SIZE + sizeofcmds;
    if relativeEnd + |command| > exam.first {
      return PatchError;
    }
    var insertion := base + relativeEnd;
    if s[insertion..insertion + |command|] != Zeros(|command|) {
      return PatchError;
    }
    WriteAt(data, insertion, command);
    if ncmds + 1 >= WORD_LIMIT || sizeofcmds + |command| >= WORD_LIMIT {
      return StructError;
    }
    WriteAt(data, base + 16, WordBytes(ncmds + 1) + WordBytes(sizeofcmds + |command|));
    return Patched;
  }

  /** The loop over the load commands. */
  method WalkCommands(s: seq<byte>, start: nat, end: nat, ncmds: nat, name: seq<byte>, size: nat) returns (r: Exam)
    requires end <= |s|
    ensures r == Walk(s, start, end, ncmds, name, size)
  {
    hide WordAt, Sections, CString;
    var cursor: nat := start;
    var first: nat := size;
    for k := 0 to ncmds
      invariant Walk(s, start, end, ncmds, name, size) == Walk(s, cursor, end, ncmds - k, name, first)
    {
      var at := CommandAt(s, cursor, end);
      if at.None? {
        return Bad;
      }
      var c := at.value.bytes;
      var exam := ExamineCommand(c, name, first);
      if !exam.Go? {
        return exam;
      }
      first := exam.first;
      cursor := cursor + |c|;
    }
    r := Go(first);
  }

  method ExamineCommand(c: seq<byte>, name: seq<byte>, first: nat) returns (r: Exam)
    requires 8 <= |c|
    ensures r == Examine(c, name, first)
  {
    hide WordAt, Sections, CString;
    var command := WordAt(c, 0);
    if command == LC_LOAD_DYLIB && |c| >= 24 {
      var nameOffset := WordAt(c, 8);
      if 0 < nameOffset < |c| {
        var raw := ReadCString(c[nameOffset..]);
        if Utf8.Lossy(raw) == name {
          return Found;
        }
      }
    }
    if (command == LC_ENCRYPTION_INFO || command == LC_ENCRYPTION_INFO_64) && |c| >= 20 {
      if WordAt(c, 16) != 0 {
        return Bad;
      }
    }
    if command == LC_SEGMENT_64 && |c| >= 72 {
      var lowest := MinSection(c, first);
      if lowest.None? {
        return Bad;
      }
      return Go(lowest.value);
    }
    return Go(first);
  }

  // ----- What a successful patch does -----

  /** The command list a slice declares. */
  function ParsedCommands(s: seq<byte>, base: nat): Option<seq<Command>>
    requires base + HEADER_SIZE <= |s|
  {
    if Insertion(s, base) > |s| then None
    else Commands(s, base + HEADER_SIZE, Insertion(s, base), CommandCount(s, base))
  }

  /** The commands end exactly where the header says. */
  predicate Fills(s: seq<byte>, base: nat)
    requires base + HEADER_SIZE <= |s|
  {
    ParsedCommands(s, base).Some? && TotalSize(ParsedCommands(s, base).value) == CommandBytes(s, base)
  }

  lemma {:induction false} WalkParses(s: seq<byte>, cursor: nat, end: nat, n: nat, name: seq<byte>, first: nat)
    requires end <= |s| && Walk(s, cursor, end, n, name, first).Go?
    ensures Commands(s, cursor, end, n).Some?
    decreases n
  {
    hide Examine, CommandAt;
    if n == 0 {
    } else {
      var c := CommandAt(s, cursor, end).value;
      WalkParses(s, cursor + |c.bytes|, end, n - 1, name, Examine(c.bytes, name, first).first);
    }
  }

  ghost predicate SameRange(s: seq<byte>, s': seq<byte>, from: nat, to: nat) {
    && to <= |s| && to <= |s'|
    && forall k :: from <= k < to ==> s[k] == s'[k]
  }

  lemma CommandAtSame(s: seq<byte>, s': seq<byte>, cursor: nat, end: nat, end': nat)
    requires SameRange(s, s', cursor, end) && end <= end' <= |s'| && CommandAt(s, cursor, end).Some?
    ensures CommandAt(s', cursor, end') == CommandAt(s, cursor, end)
  {
    assert WordAt(s', cursor + 4) == WordAt(s, cursor + 4);
    var size := WordAt(s, cursor + 4);
    assert s'[cursor..cursor + size] == s[cursor..cursor + size];
  }

  /** A longer command area over the same bytes parses to the same commands. */
  lemma {:induction false} CommandsSame(s: seq<byte>, s': seq<byte>, cursor: nat, end: nat, end': nat, n: nat)
    requires SameRange(s, s', cursor, end) && end <= end' <= |s'| && Commands(s, cursor, end, n).Some?
    ensures Commands(s', cursor, end', n) == Commands(s, cursor, end, n)
    decreases n
  {
    hide CommandAt;
    if n == 0 {
    } else {
      CommandAtSame(s, s', cursor, end, end');
      var c := CommandAt(s, cursor, end).value;
      CommandsSame(s, s', cursor + |c.bytes|, end, end', n - 1);
    }
  }

  lemma {:induction false} CommandsSnoc(s: seq<byte>, cursor: nat, end: nat, n: nat)
    requires end <= |s| && Commands(s, cursor, end, n).Some?
    ensures var cs := Commands(s, cursor, end, n).value;
            var last := CommandAt(s, cursor + TotalSize(cs), end);
            Commands(s, cursor, end, n + 1) == if last.None? then None else Some(cs + [last.value])
    decreases n
  {
    hide CommandAt;
    if n > 0 {
      var c := CommandAt(s, cursor, end).value;
      var rest := Commands(s, cursor + |c.bytes|, end, n - 1).value;
      CommandsSnoc(s, cursor + |c.bytes|, end, n - 1);
      assert ([c] + rest)[1..] == rest;
      var last := CommandAt(s, cursor + |c.bytes| + TotalSize(rest), end);
      if last.Some? {
        assert [c] + (rest + [last.value]) == ([c] + rest) + [last.value];
      }
    } else if CommandAt(s, cursor, end).Some? {
      var c := CommandAt(s, cursor, end).value;
      assert Commands(s, cursor + |c.bytes|, end, 0) == Some([]);
      assert [c] + [] == [] + [c];
    }
  }

  lemma {:induction false} TotalBound(s: seq<byte>, cursor: nat, end: nat, n: nat)
    requires cursor <= end <= |s| && Commands(s, cursor, end, n).Some?
    ensures |Commands(s, cursor, end, n).value| == n
    ensures TotalSize(Commands(s, cursor, end, n).value) <= end - cursor
    decreases n
  {
    hide CommandAt;
    if n == 0 {
    } else {
      var c := CommandAt(s, cursor, end).value;
      var rest := Commands(s, cursor + |c.bytes|, end, n - 1).value;
      TotalBound(s, cursor + |c.bytes|, end, n - 1);
      assert ([c] + rest)[1..] == rest;
    }
  }

  /** Two disjoint overwrites: what stays and what is new. */
  lemma TwoSplices(s: seq<byte>, at: nat, command: seq<byte>, header: nat, words: seq<byte>)
    requires header + |words| <= at && at + |command| <= |s|
    ensures var s' := Splice(Splice(s, at, command), header, words);
            && s'[at..at + |command|] == command
            && (forall k :: 0 <= k < |s| && !(header <= k < header + |words|) && !(at <= k < at + |command|) ==> s'[k] == s[k])
  {
    var inserted := Splice(s, at, command);
    var s' := Splice(inserted, header, words);
    assert forall k :: 0 <= k < |s| && !(header <= k < header + |words|) ==> s'[k] == inserted[k];
    assert forall k :: at <= k < at + |command| ==> inserted[k] == command[k - at];
  }

  /** The bytes outside the header's two counts and the inserted command. */
  ghost predicate Untouched(s: seq<byte>, s': seq<byte>, base: nat, at: nat, n: nat) {
    && |s'| == |s|
    && forall k :: 0 <= k < |s| && !(base + 16 <= k < base + 24) && !(at <= k < at + n) ==> s'[k] == s[k]
  }

  /** The length is kept, only the header's two counts and a window that was zero are written, and
      one more command is declared. */
  ghost predicate Layout(s: seq<byte>, s': seq<byte>, base: nat, size: nat, name: seq<byte>) {
    && HEADER_SIZE <= size && base + size <= |s|
    && CommandSize(name) < WORD_LIMIT
    && var at, n := Insertion(s, base), CommandSize(name);
       && at + n <= base + size
       && Untouched(s, s', base, at, n)
       && s[at..at + n] == Zeros(n)
       && s'[at..at + n] == DylibCommand(name)
       && CommandCount(s', base) == CommandCount(s, base) + 1
       && CommandBytes(s', base) == CommandBytes(s, base) + n
       && WordAt(s', base) == WordAt(s, base)
  }

  /** A successful patch has this layout, and its window lies before the first section. */
  lemma PatchedLayout(s: seq<byte>, base: nat, size: nat, name: seq<byte>)
    requires base + size <= |s| && Plan(s, base, size, name) == Patched
    ensures Layout(s, PatchedBytes(s, base, size, name), base, size, name)
    ensures HEADER_SIZE + CommandBytes(s, base) + CommandSize(name)
         <= Walk(s, base + HEADER_SIZE, Insertion(s, base), CommandCount(s, base), name, size).first
  {
    hide Plan, Walk, Layout, CommandSize, Zeros, WordAt, DylibCommand, Splice;
    PlanRoom(s, base, size, name);
    SplicedLayout(s, base, size, name);
  }

  lemma SplicedLayout(s: seq<byte>, base: nat, size: nat, name: seq<byte>)
    requires HEADER_SIZE <= size && base + size <= |s| && CommandSize(name) < WORD_LIMIT
    requires Insertion(s, base) + CommandSize(name) <= base + size
    requires CommandCount(s, base) + 1 < WORD_LIMIT && CommandBytes(s, base) + CommandSize(name) < WORD_LIMIT
    requires s[Insertion(s, base)..Insertion(s, base) + CommandSize(name)] == Zeros(CommandSize(name))
    ensures var inserted := Splice(s, Insertion(s, base), DylibCommand(name));
            var words := WordBytes(CommandCount(s, base) + 1) + WordBytes(CommandBytes(s, base) + CommandSize(name));
            Layout(s, Splice(inserted, base + 16, words), base, size, name)
  {
    hide DylibCommand, WordAt, WordBytes, CommandSize, Zeros;
    var at, n := Insertion(s, base), CommandSize(name);
    var count, bytes := CommandCount(s, base) + 1, CommandBytes(s, base) + n;
    var inserted := Splice(s, at, DylibCommand(name));
    var s' := Splice(inserted, base + 16, WordBytes(count) + WordBytes(bytes));
    TwoSplices(s, at, DylibCommand(name), base + 16, WordBytes(count) + WordBytes(bytes));
    SpliceWords(inserted, base + 16, count, bytes);
    hide Splice;
    assert SameRange(s, s', base, base + 4);
    WordSame(s, s', base);
  }

  /** The offset the walk ends with is at most that of every section it passed. */
  lemma {:induction false} SectionsMinimal(c: seq<byte>, at: nat, n: nat, first: nat, k: nat)
    requires Sections(c, at, n, first).Some? && k < n
    ensures at + 80 * k + 80 <= |c|
    ensures var offset := WordAt(c, at + 80 * k + 48);
            offset != 0 ==> Sections(c, at, n, first).value <= offset
    decreases n
  {
    hide WordAt;
    var offset := WordAt(c, at + 48);
    var next := if offset != 0 then Min(first, offset) else first;
    SectionsBound(c, at + 80, n - 1, next);
    if k == 0 {
    } else {
      SectionsMinimal(c, at + 80, n - 1, next, k - 1);
    }
  }

  /** The inserted window ends before the data of every section of every segment command. */
  lemma {:induction false} WindowBeforeSections(s: seq<byte>, cursor: nat, end: nat, n: nat, name: seq<byte>,
                                                first: nat, i: nat, k: nat)
    requires end <= |s| && Walk(s, cursor, end, n, name, first).Go? && Commands(s, cursor, end, n).Some?
    requires i < |Commands(s, cursor, end, n).value|
    requires var c := Commands(s, cursor, end, n).value[i].bytes;
             72 <= |c| && WordAt(c, 0) == LC_SEGMENT_64 && k < WordAt(c, 64)
    ensures var c := Commands(s, cursor, end, n).value[i].bytes;
            72 + 80 * k + 80 <= |c|
            && (WordAt(c, 72 + 80 * k + 48) != 0 ==>
                  Walk(s, cursor, end, n, name, first).first <= WordAt(c, 72 + 80 * k + 48))
    decreases n
  {
    hide CommandAt, WordAt, CString, Sections;
    var c := CommandAt(s, cursor, end).value;
    var next := Examine(c.bytes, name, first).first;
    WalkBound(s, cursor + |c.bytes|, end, n - 1, name, next);
    if i == 0 {
      SectionsMinimal(c.bytes, 72, WordAt(c.bytes, 64), first, k);
    } else {
      var rest := Commands(s, cursor + |c.bytes|, end, n - 1).value;
      assert ([c] + rest)[i] == rest[i - 1];
      WindowBeforeSections(s, cursor + |c.bytes|, end, n - 1, name, next, i - 1, k);
    }
  }

  /** The command loads the library under this very name. */
  predicate Loads(c: seq<byte>, name: seq<byte>)
    requires 8 <= |c|
  {
    && WordAt(c, 0) == LC_LOAD_DYLIB && 24 <= |c| && 0 < WordAt(c, 8) < |c|
    && LibraryName(c) == name
  }

  /** The command says that a part of the image is encrypted. */
  predicate Encrypts(c: seq<byte>)
    requires 8 <= |c|
  {
    && (WordAt(c, 0) == LC_ENCRYPTION_INFO || WordAt(c, 0) == LC_ENCRYPTION_INFO_64)
    && 20 <= |c| && WordAt(c, 16) != 0
  }

  lemma {:induction false} WalkPasses(s: seq<byte>, cursor: nat, end: nat, n: nat, name: seq<byte>, first: nat, i: nat)
    requires end <= |s| && Walk(s, cursor, end, n, name, first).Go? && Commands(s, cursor, end, n).Some?
    requires i < |Commands(s, cursor, end, n).value|
    ensures var c := Commands(s, cursor, end, n).value[i].bytes;
            8 <= |c| && !Loads(c, name) && !Encrypts(c)
    decreases n
  {
    hide CommandAt, WordAt, CString, Sections;
    var c := CommandAt(s, cursor, end).value;
    if i == 0 {
    } else {
      var rest := Commands(s, cursor + |c.bytes|, end, n - 1).value;
      assert ([c] + rest)[i] == rest[i - 1];
      WalkPasses(s, cursor + |c.bytes|, end, n - 1, name, Examine(c.bytes, name, first).first, i - 1);
    }
  }

  /** An encrypted image is never patched, and neither is one that already loads the library. */
  lemma PatchedIsDecryptedAndNew(s: seq<byte>, base: nat, size: nat, name: seq<byte>)
    requires base + size <= |s| && Plan(s, base, size, name) == Patched
    ensures ParsedCommands(s, base).Some?
    ensures forall i :: 0 <= i < |ParsedCommands(s, base).value| ==>
              var c := ParsedCommands(s, base).value[i].bytes;
              8 <= |c| && !Loads(c, name) && !Encrypts(c)
  {
    hide Plan, Walk, Commands, CommandAt, WordAt, CString, CommandSize, Loads, Encrypts, Zeros, DylibCommand;
    PlanRoom(s, base, size, name);
    var start, end, n := base + HEADER_SIZE, Insertion(s, base), CommandCount(s, base);
    WalkParses(s, start, end, n, name, size);
    forall i | 0 <= i < |ParsedCommands(s, base).value|
      ensures var c := ParsedCommands(s, base).value[i].bytes;
              8 <= |c| && !Loads(c, name) && !Encrypts(c)
    {
      WalkPasses(s, start, end, n, name, size, i);
    }
  }

  lemma WordSame(s: seq<byte>, s': seq<byte>, at: nat)
    requires SameRange(s, s', at, at + 4)
    ensures WordAt(s', at) == WordAt(s, at)
  {
  }

  lemma SpliceWords(s: seq<byte>, at: nat, a: nat, b: nat)
    requires at + 8 <= |s| && a < WORD_LIMIT && b < WORD_LIMIT
    ensures var s' := Splice(s, at, WordBytes(a) + WordBytes(b));
            WordAt(s', at) == a && WordAt(s', at + 4) == b
  {
    hide WordAt, WordBytes;
    var s' := Splice(s, at, WordBytes(a) + WordBytes(b));
    assert s'[at..] == WordBytes(a) + (WordBytes(b) + s[at + 8..]);
    assert s'[at + 4..] == WordBytes(b) + s[at + 8..];
    WordRoundTrip(a, WordBytes(b) + s[at + 8..]);
    WordRoundTrip(b, s[at + 8..]);
    WordShift(s', at, 0);
    WordShift(s', at + 4, 0);
  }

  /** The first two words of the new command are its type and size. */
  lemma DylibWords(name: seq<byte>)
    requires CommandSize(name) < WORD_LIMIT
    ensures var c := DylibCommand(name);
            && WordAt(c, 0) == LC_LOAD_DYLIB && WordAt(c, 4) == |c| && WordAt(c, 8) == 24
            && c[24..] == name + [0] + Zeros(CommandSize(name) - 24 - |name| - 1)
  {
    hide WordAt, WordBytes;
    var c := DylibCommand(name);
    var text := name + [0] + Zeros(CommandSize(name) - 24 - |name| - 1);
    var tail := WordBytes(0) + WordBytes(0) + WordBytes(0) + text;
    hide Zeros, CommandSize;
    assert c[24..] == text;
    assert c == WordBytes(LC_LOAD_DYLIB) + (WordBytes(|c|) + (WordBytes(24) + tail));
    WordRoundTrip(LC_LOAD_DYLIB, WordBytes(|c|) + (WordBytes(24) + tail));
    assert c[4..] == WordBytes(|c|) + (WordBytes(24) + tail);
    WordRoundTrip(|c|, WordBytes(24) + tail);
    assert c[8..] == WordBytes(24) + tail;
    WordRoundTrip(24, tail);
    WordShift(c, 4, 0);
    WordShift(c, 8, 0);
  }

  /** Its time stamp and its versions are zero. */
  lemma DylibVersions(name: seq<byte>)
    requires CommandSize(name) < WORD_LIMIT
    ensures forall k :: 12 <= k < 24 ==> DylibCommand(name)[k] == 0
  {
    assert WordBytes(0) == [0, 0, 0, 0];
    hide WordBytes, Zeros, CommandSize;
  }

  lemma InsertedCommand(s': seq<byte>, at: nat, end: nat, name: seq<byte>)
    requires CommandSize(name) < WORD_LIMIT && at + CommandSize(name) == end <= |s'|
    requires s'[at..end] == DylibCommand(name)
    ensures CommandAt(s', at, end) == Some(Command(at, DylibCommand(name)))
  {
    DylibWords(name);
    var c := DylibCommand(name);
    hide DylibCommand;
    assert SameWord(s', at, c) by {
      assert forall k :: 0 <= k < |c| ==> s'[at + k] == s'[at..end][k];
    }
  }

  ghost predicate SameWord(s: seq<byte>, at: nat, c: seq<byte>)
    requires 8 <= |c| && at + 8 <= |s|
  {
    WordAt(s, at + 4) == WordAt(c, 4)
  }

  /** Parsing one command more, over the same old bytes and the new command. */
  lemma ExtendedParse(s: seq<byte>, s': seq<byte>, start: nat, at: nat, n: nat, name: seq<byte>)
    requires start <= at <= |s| && Commands(s, start, at, n).Some?
    requires CommandSize(name) < WORD_LIMIT && at + CommandSize(name) <= |s'| && SameRange(s, s', start, at)
    requires s'[at..at + CommandSize(name)] == DylibCommand(name)
    ensures var cs := Commands(s, start, at, n).value;
            Commands(s', start, at + CommandSize(name), n + 1) == Some(cs + [Command(at, DylibCommand(name))])
            <==> start + TotalSize(cs) == at
  {
    hide DylibCommand, CommandAt, Commands, WordAt, CommandSize, TotalSize;
    var end := at + CommandSize(name);
    var cs := Commands(s, start, at, n).value;
    CommandsSame(s, s', start, at, end, n);
    CommandsSnoc(s', start, end, n);
    InsertedCommand(s', at, end, name);
    var last := CommandAt(s', start + TotalSize(cs), end);
    if last.Some? {
      LastOf(cs, last.value, Command(at, DylibCommand(name)));
    }
  }

  lemma LayoutExtends(s: seq<byte>, s': seq<byte>, base: nat, size: nat, name: seq<byte>)
    requires Layout(s, s', base, size, name) && ParsedCommands(s, base).Some?
    ensures ParsedCommands(s', base)
              == Some(ParsedCommands(s, base).value + [Command(Insertion(s, base), DylibCommand(name))])
            <==> Fills(s, base)
  {
    hide DylibCommand, Commands, WordAt, CommandSize, TotalSize, Zeros;
    assert SameRange(s, s', base + HEADER_SIZE, Insertion(s, base));
    ExtendedParse(s, s', base + HEADER_SIZE, Insertion(s, base), CommandCount(s, base), name);
  }

  /** After a successful patch the slice parses to the old commands plus the new one exactly when the
      old commands filled the declared area. */
  lemma PatchExtends(s: seq<byte>, base: nat, size: nat, name: seq<byte>)
    requires base + size <= |s| && Plan(s, base, size, name) == Patched
    ensures ParsedCommands(s, base).Some?
    ensures ParsedCommands(PatchedBytes(s, base, size, name), base)
              == Some(ParsedCommands(s, base).value + [Command(Insertion(s, base), DylibCommand(name))])
            <==> Fills(s, base)
  {
    hide PatchedBytes, Plan, Walk, DylibCommand, Commands, WordAt, CommandSize, Fills, Layout;
    PatchedLayout(s, base, size, name);
    PlanRoom(s, base, size, name);
    WalkParses(s, base + HEADER_SIZE, Insertion(s, base), CommandCount(s, base), name, size);
    LayoutExtends(s, PatchedBytes(s, base, size, name), base, size, name);
  }

  lemma LastOf(cs: seq<Command>, a: Command, b: Command)
    ensures cs + [a] == cs + [b] <==> a == b
  {
    assert (cs + [a])[|cs|] == a && (cs + [b])[|cs|] == b;
  }

  // ----- Exactly when a slice is patched -----

  predicate IsSegment(c: seq<byte>)
    requires 8 <= |c|
  {
    WordAt(c, 0) == LC_SEGMENT_64 && 72 <= |c|
  }

  /** Of the n section headers from `at` on, each lies in the command, and the data of each section that has
      any starts at `need` or later. */
  ghost predicate SectionsClear(c: seq<byte>, at: nat, n: nat, need: nat) {
    forall k :: 0 <= k < n ==>
      && at + 80 * k + 80 <= |c|
      && (WordAt(c, at + 80 * k + 48) == 0 || need <= WordAt(c, at + 80 * k + 48))
  }

  /** Nothing in the command speaks against a new command list that ends at `need`. */
  ghost predicate Passes(c: seq<byte>, name: seq<byte>, need: nat) {
    && 8 <= |c| && !Loads(c, name) && !Encrypts(c)
    && (IsSegment(c) ==> SectionsClear(c, 72, WordAt(c, 64), need))
  }

  lemma SectionsClearStep(c: seq<byte>, at: nat, n: nat, need: nat)
    requires 0 < n
    ensures SectionsClear(c, at, n, need)
       <==> && at + 80 <= |c| && (WordAt(c, at + 48) == 0 || need <= WordAt(c, at + 48))
            && SectionsClear(c, at + 80, n - 1, need)
  {
    hide WordAt;
    if SectionsClear(c, at, n, need) {
      assert at + 80 * 0 + 80 <= |c|;
      forall k | 0 <= k < n - 1
        ensures at + 80 + 80 * k + 80 <= |c|
        ensures WordAt(c, at + 80 + 80 * k + 48) == 0 || need <= WordAt(c, at + 80 + 80 * k + 48)
      {
        assert at + 80 * (k + 1) + 80 <= |c|;
      }
    }
    if at + 80 <= |c| && SectionsClear(c, at + 80, n - 1, need) && (WordAt(c, at + 48) == 0 || need <= WordAt(c, at + 48)) {
      forall k | 0 <= k < n
        ensures at + 80 * k + 80 <= |c|
        ensures WordAt(c, at + 80 * k + 48) == 0 || need <= WordAt(c, at + 80 * k + 48)
      {
        assert k > 0 ==> at + 80 + 80 * (k - 1) + 80 <= |c|;
      }
    }
  }

  /** The lowest offset is found, and is not below `need`, exactly when the headers fit and are all clear. */
  lemma {:induction false} SectionsIff(c: seq<byte>, at: nat, n: nat, first: nat, need: nat)
    ensures Sections(c, at, n, first).Some? && need <= Sections(c, at, n, first).value
       <==> need <= first && SectionsClear(c, at, n, need)
    decreases n
  {
    hide WordAt;
    if n == 0 {
    } else {
      SectionsClearStep(c, at, n, need);
      if at + 80 <= |c| {
        var offset := WordAt(c, at + 48);
        SectionsIff(c, at + 80, n - 1, if offset != 0 then Min(first, offset) else first, need);
      }
      hide SectionsClear;
    }
  }

  lemma ExamineIff(c: seq<byte>, name: seq<byte>, first: nat, need: nat)
    requires 8 <= |c|
    ensures Examine(c, name, first).Go? && need <= Examine(c, name, first).first
       <==> need <= first && Passes(c, name, need)
    ensures Examine(c, name, first).Found? <==> Loads(c, name)
  {
    hide WordAt, LibraryName, Sections, SectionsClear;
    if IsSegment(c) {
      SectionsIff(c, 72, WordAt(c, 64), first, need);
    }
  }

  ghost predicate AllPass(cs: seq<Command>, name: seq<byte>, need: nat) {
    forall i :: 0 <= i < |cs| ==> Passes(cs[i].bytes, name, need)
  }

  lemma AllPassCons(c: Command, rest: seq<Command>, name: seq<byte>, need: nat)
    ensures AllPass([c] + rest, name, need) <==> Passes(c.bytes, name, need) && AllPass(rest, name, need)
  {
    hide Passes;
    var cs := [c] + rest;
    assert cs[0] == c && forall i :: 0 <= i < |rest| ==> cs[i + 1] == rest[i];
    if AllPass(cs, name, need) {
      forall i | 0 <= i < |rest|
        ensures Passes(rest[i].bytes, name, need)
      {
        assert cs[i + 1] == rest[i];
      }
    }
    if Passes(c.bytes, name, need) && AllPass(rest, name, need) {
      forall i | 0 <= i < |cs|
        ensures Passes(cs[i].bytes, name, need)
      {
        assert i > 0 ==> cs[i] == rest[i - 1];
      }
    }
  }

  /** The walk reaches the end with an offset of at least `need` exactly when the commands parse and all pass. */
  lemma {:induction false} WalkIff(s: seq<byte>, cursor: nat, end: nat, n: nat, name: seq<byte>, first: nat, need: nat)
    requires end <= |s|
    ensures var e, cs := Walk(s, cursor, end, n, name, first), Commands(s, cursor, end, n);
            e.Go? && need <= e.first <==> need <= first && cs.Some? && AllPass(cs.value, name, need)
    decreases n
  {
    hide CommandAt, Examine, Passes;
    if n == 0 {
    } else if CommandAt(s, cursor, end).Some? {
      var c := CommandAt(s, cursor, end).value;
      var e := Examine(c.bytes, name, first);
      ExamineIff(c.bytes, name, first, need);
      var next := Commands(s, cursor + |c.bytes|, end, n - 1);
      if next.Some? {
        AllPassCons(c, next.value, name, need);
      }
      hide AllPass;
      if e.Go? {
        WalkIff(s, cursor + |c.bytes|, end, n - 1, name, e.first, need);
        if e.first < need {
          WalkBound(s, cursor + |c.bytes|, end, n - 1, name, e.first);
        }
      }
    }
  }

  /** The last of these commands loads the library and nothing before it stops the walk. */
  ghost predicate EndsLoading(cs: seq<Command>, name: seq<byte>) {
    && cs != [] && 8 <= |cs[|cs| - 1].bytes| && Loads(cs[|cs| - 1].bytes, name)
    && AllPass(cs[..|cs| - 1], name, 0)
  }

  /** Command i loads the library, and the list is sound up to it. */
  ghost predicate LoadsAt(s: seq<byte>, cursor: nat, end: nat, i: nat, name: seq<byte>)
    requires end <= |s|
  {
    Commands(s, cursor, end, i + 1).Some? && EndsLoading(Commands(s, cursor, end, i + 1).value, name)
  }


  ghost predicate LoadsWithin(s: seq<byte>, cursor: nat, end: nat, n: nat, name: seq<byte>)
    requires end <= |s|
  {
    exists i: nat :: i < n && LoadsAt(s, cursor, end, i, name)
  }

  lemma EndsLoadingCons(c: Command, rest: seq<Command>, name: seq<byte>)
    requires 8 <= |c.bytes|
    ensures EndsLoading([c] + rest, name)
       <==> if rest == [] then Loads(c.bytes, name) else Passes(c.bytes, name, 0) && EndsLoading(rest, name)
  {
    hide Passes, Loads;
    var cs := [c] + rest;
    if rest != [] {
      assert cs[..|cs| - 1] == [c] + rest[..|rest| - 1];
      AllPassCons(c, rest[..|rest| - 1], name, 0);
      hide AllPass;
    } else {
      assert cs[..0] == [];
    }
  }

  lemma {:induction false} WalkFindsIff(s: seq<byte>, cursor: nat, end: nat, n: nat, name: seq<byte>, first: nat)
    requires end <= |s|
    ensures Walk(s, cursor, end, n, name, first).Found? <==> LoadsWithin(s, cursor, end, n, name)
    decreases n
  {
    hide CommandAt, Examine, EndsLoading, Passes, LoadsWithin;
    if n == 0 {
      NothingWithin(s, cursor, end, name);
    } else if CommandAt(s, cursor, end).None? {
      NoCommandWithin(s, cursor, end, n, name);
    } else {
      var c := CommandAt(s, cursor, end).value;
      ExamineIff(c.bytes, name, first, 0);
      WithinStep(s, cursor, end, n, name, c);
      if Examine(c.bytes, name, first).Go? {
        WalkFindsIff(s, cursor + |c.bytes|, end, n - 1, name, Examine(c.bytes, name, first).first);
      }
    }
  }

  lemma NothingWithin(s: seq<byte>, cursor: nat, end: nat, name: seq<byte>)
    requires end <= |s|
    ensures !LoadsWithin(s, cursor, end, 0, name)
  {
  }

  lemma NoCommandWithin(s: seq<byte>, cursor: nat, end: nat, n: nat, name: seq<byte>)
    requires end <= |s| && CommandAt(s, cursor, end).None?
    ensures !LoadsWithin(s, cursor, end, n, name)
  {
    hide CommandAt, EndsLoading;
  }

  lemma WithinStep(s: seq<byte>, cursor: nat, end: nat, n: nat, name: seq<byte>, c: Command)
    requires end <= |s| && 0 < n && CommandAt(s, cursor, end) == Some(c)
    ensures LoadsWithin(s, cursor, end, n, name)
       <==> Loads(c.bytes, name) || (Passes(c.bytes, name, 0) && LoadsWithin(s, cursor + |c.bytes|, end, n - 1, name))
  {
    hide CommandAt, EndsLoading, Passes, Loads;
    var next := cursor + |c.bytes|;
    assert Commands(s, next, end, 0) == Some([]);
    EndsLoadingCons(c, [], name);
    assert [c] + [] == [c];
    if LoadsWithin(s, cursor, end, n, name) {
      var i: nat :| i < n && LoadsAt(s, cursor, end, i, name);
      if i > 0 {
        var cs := Commands(s, next, end, i).value;
        TotalBound(s, next, end, i);
        EndsLoadingCons(c, cs, name);
        assert EndsLoading(cs, name) ==> LoadsAt(s, next, end, i - 1, name);
      }
    }
    if Loads(c.bytes, name) {
      assert Commands(s, cursor, end, 1) == Some([c]);
      assert LoadsAt(s, cursor, end, 0, name);
    }
    if Passes(c.bytes, name, 0) && LoadsWithin(s, next, end, n - 1, name) {
      var i: nat :| i < n - 1 && LoadsAt(s, next, end, i, name);
      var cs := Commands(s, next, end, i + 1).value;
      TotalBound(s, next, end, i + 1);
      EndsLoadingCons(c, cs, name);
      assert Commands(s, cursor, end, i + 2) == Some([c] + cs);
      assert LoadsAt(s, cursor, end, i + 1, name);
    }
  }

  /** The slice is an image whose commands parse and all pass, with the new list ending at `need` in it. */
  ghost predicate Clean(s: seq<byte>, base: nat, size: nat, name: seq<byte>, need: nat)
    requires base + size <= |s|
  {
    && IsImage(s, base, size) && need <= size
    && ParsedCommands(s, base).Some? && AllPass(ParsedCommands(s, base).value, name, need)
  }

  /** The bytes from the end of the declared commands up to `need` are zero. */
  ghost predicate ZeroWindow(s: seq<byte>, base: nat, need: nat)
    requires base + HEADER_SIZE <= |s|
  {
    base + need <= |s| && forall k :: Insertion(s, base) <= k < base + need ==> s[k] == 0
  }

  function NewEnd(s: seq<byte>, base: nat, name: seq<byte>): nat
    requires base + HEADER_SIZE <= |s|
  {
    HEADER_SIZE + CommandBytes(s, base) + CommandSize(name)
  }

  lemma CleanIff(s: seq<byte>, base: nat, size: nat, name: seq<byte>, need: nat)
    requires base + size <= |s| && IsImage(s, base, size)
    ensures var e := Walk(s, base + HEADER_SIZE, Insertion(s, base), CommandCount(s, base), name, size);
            && (e.Go? && need <= e.first <==> Clean(s, base, size, name, need))
            && (Clean(s, base, size, name, need) ==> need <= size)
  {
    hide WordAt, Walk, Commands, AllPass;
    WalkIff(s, base + HEADER_SIZE, Insertion(s, base), CommandCount(s, base), name, size, need);
  }

  /** A slice is patched exactly when it is an image, its commands parse, none loads the library or says that
      a part is encrypted, all section headers lie in their commands, the slice and every section with data
      leave room for the new command, that room holds zeros, and the new sizes fit their words. */
  lemma PatchedIff(s: seq<byte>, base: nat, size: nat, name: seq<byte>)
    requires base + size <= |s|
    ensures Plan(s, base, size, name) == Patched
       <==> && IsImage(s, base, size)
            && var need := NewEnd(s, base, name);
               && Clean(s, base, size, name, need) && ZeroWindow(s, base, need)
               && CommandBytes(s, base) + CommandSize(name) < WORD_LIMIT
  {
    hide WordAt, Walk, Clean, CommandSize;
    if IsImage(s, base, size) {
      CleanIff(s, base, size, name, NewEnd(s, base, name));
      WindowIsZeros(s, base, size, name);
    }
  }

  lemma WindowIsZeros(s: seq<byte>, base: nat, size: nat, name: seq<byte>)
    requires base + size <= |s| && IsImage(s, base, size)
    ensures NewEnd(s, base, name) <= size ==>
              var at, n := Insertion(s, base), CommandSize(name);
              at + n <= |s| && (s[at..at + n] == Zeros(n) <==> ZeroWindow(s, base, NewEnd(s, base, name)))
  {
    hide WordAt, CommandSize;
    var at, n := Insertion(s, base), CommandSize(name);
    if at + n <= |s| {
      var window := s[at..at + n];
      assert forall k :: 0 <= k < n ==> window[k] == s[at + k];
      assert forall k :: at <= k < at + n ==> s[k] == window[k - at];
    }
  }

  /** The library is reported as present exactly when an image's commands load it before anything stops
      the walk. */
  lemma PresentIff(s: seq<byte>, base: nat, size: nat, name: seq<byte>)
    requires base + size <= |s|
    ensures Plan(s, base, size, name) == AlreadyPresent
       <==> IsImage(s, base, size)
            && LoadsWithin(s, base + HEADER_SIZE, Insertion(s, base), CommandCount(s, base), name)
  {
    hide WordAt, Walk, LoadsWithin;
    PlanByWalk(s, base, size, name);
    if IsImage(s, base, size) {
      WalkFindsIff(s, base + HEADER_SIZE, Insertion(s, base), CommandCount(s, base), name, size);
    }
  }

  /** Only a size that does not fit its word makes packing fail, after everything else is in order. */
  lemma UnpackableIff(s: seq<byte>, base: nat, size: nat, name: seq<byte>)
    requires base + size <= |s|
    ensures Plan(s, base, size, name) == StructError
       <==> && IsImage(s, base, size)
            && var need := NewEnd(s, base, name);
               if CommandSize(name) >= WORD_LIMIT then Clean(s, base, size, name, 0)
               else && Clean(s, base, size, name, need) && ZeroWindow(s, base, need)
                    && CommandBytes(s, base) + CommandSize(name) >= WORD_LIMIT
  {
    hide WordAt, Walk, Clean, CommandSize;
    if IsImage(s, base, size) {
      CleanIff(s, base, size, name, 0);
      CleanIff(s, base, size, name, NewEnd(s, base, name));
      WindowIsZeros(s, base, size, name);
    }
  }

  // ----- An unpacked header -----

  /** When a count does not fit its word, the header is as it was: either nothing has changed, or only the
      zeros behind the commands have become the new command. */
  lemma UnpackedKeeps(s: seq<byte>, base: nat, size: nat, name: seq<byte>)
    requires base + size <= |s| && Plan(s, base, size, name) == StructError
    ensures var s' := UnpackedBytes(s, base, size, name);
            if CommandSize(name) >= WORD_LIMIT then s' == s
            else && Insertion(s, base) + CommandSize(name) <= base + size
                 && s'[Insertion(s, base)..Insertion(s, base) + CommandSize(name)] == DylibCommand(name)
                 && forall k :: 0 <= k < |s| && !(Insertion(s, base) <= k < Insertion(s, base) + CommandSize(name)) ==>
                      s'[k] == s[k]
  {
    hide WordAt, Walk, DylibCommand, CommandSize, Zeros;
    if CommandSize(name) < WORD_LIMIT {
      WalkBound(s, base + HEADER_SIZE, Insertion(s, base), CommandCount(s, base), name, size);
      var at, command := Insertion(s, base), DylibCommand(name);
      var s' := Splice(s, at, command);
      assert s'[at..at + |command|] == command;
    }
  }

  // ----- Running again -----

  /** Names that are read back as they were written. */
  predicate Findable(name: seq<byte>) {
    0 !in name && Utf8.Valid(name)
  }

  lemma {:induction false} CStringOf(name: seq<byte>, rest: seq<byte>)
    ensures CString(name + [0] + rest) == name <==> 0 !in name
  {
    var raw := name + [0] + rest;
    if name == [] || name[0] == 0 {
    } else {
      assert raw[1..] == name[1..] + [0] + rest;
      CStringOf(name[1..], rest);
      assert name == [name[0]] + name[1..];
    }
  }

  /** Walking on after n commands that were passed over. */
  lemma {:induction false} WalkOn(s: seq<byte>, s': seq<byte>, cursor: nat, end: nat, end': nat, n: nat,
                                  name: seq<byte>, first: nat)
    requires SameRange(s, s', cursor, end) && end <= end' <= |s'|
    requires Walk(s, cursor, end, n, name, first).Go? && Commands(s, cursor, end, n).Some?
    ensures Walk(s', cursor, end', n + 1, name, first)
         == Walk(s', cursor + TotalSize(Commands(s, cursor, end, n).value), end', 1, name,
                 Walk(s, cursor, end, n, name, first).first)
    decreases n
  {
    hide CommandAt, Examine;
    if n == 0 {
    } else {
      CommandAtSame(s, s', cursor, end, end');
      var c := CommandAt(s, cursor, end).value;
      var rest := Commands(s, cursor + |c.bytes|, end, n - 1).value;
      assert ([c] + rest)[1..] == rest;
      WalkOn(s, s', cursor + |c.bytes|, end, end', n - 1, name, Examine(c.bytes, name, first).first);
    }
  }

  lemma ExamineDylib(name: seq<byte>, first: nat)
    requires CommandSize(name) < WORD_LIMIT
    ensures Examine(DylibCommand(name), name, first) == if Findable(name) then Found else Go(first)
  {
    DylibWords(name);
    var rest := Zeros(CommandSize(name) - 24 - |name| - 1);
    CStringOf(name, rest);
    Utf8.NoNul(CString(name + [0] + rest));
    hide DylibCommand, CString, Utf8.Lossy;
  }

  /** The second run walks past the old commands and meets the new one. */
  lemma SecondWalk(s: seq<byte>, s': seq<byte>, start: nat, at: nat, n: nat, name: seq<byte>, size: nat)
    requires at <= |s| && Walk(s, start, at, n, name, size).Go? && Commands(s, start, at, n).Some?
    requires start + TotalSize(Commands(s, start, at, n).value) == at
    requires CommandSize(name) < WORD_LIMIT && at + CommandSize(name) <= |s'| && SameRange(s, s', start, at)
    requires s'[at..at + CommandSize(name)] == DylibCommand(name)
    ensures Walk(s', start, at + CommandSize(name), n + 1, name, size)
         == if Findable(name) then Found else Go(Walk(s, start, at, n, name, size).first)
  {
    hide Walk, DylibCommand, Commands, CommandAt, WordAt, Examine, CommandSize, TotalSize;
    var end := at + CommandSize(name);
    var first := Walk(s, start, at, n, name, size).first;
    WalkOn(s, s', start, at, end, n, name, size);
    InsertedCommand(s', at, end, name);
    ExamineDylib(name, first);
    WalkOne(s', at, end, name, first);
  }

  lemma LayoutSecondRun(s: seq<byte>, s': seq<byte>, base: nat, size: nat, name: seq<byte>)
    requires Layout(s, s', base, size, name) && IsImage(s, base, size) && Fills(s, base)
    requires Walk(s, base + HEADER_SIZE, Insertion(s, base), CommandCount(s, base), name, size).Go?
    ensures IsImage(s', base, size)
    ensures Walk(s', base + HEADER_SIZE, Insertion(s', base), CommandCount(s', base), name, size).Found?
       <==> Findable(name)
  {
    hide DylibCommand, Commands, WordAt, CommandSize, TotalSize, Zeros, Walk;
    assert SameRange(s, s', base + HEADER_SIZE, Insertion(s, base));
    SecondWalk(s, s', base + HEADER_SIZE, Insertion(s, base), CommandCount(s, base), name, size);
  }

  /** Running the patch again on a slice whose commands filled their area finds the command, and
      changes nothing, exactly when the name has no NUL and is valid UTF-8. */
  lemma SecondRun(s: seq<byte>, base: nat, size: nat, name: seq<byte>)
    requires base + size <= |s| && Plan(s, base, size, name) == Patched && Fills(s, base)
    ensures Plan(PatchedBytes(s, base, size, name), base, size, name) == AlreadyPresent <==> Findable(name)
  {
    hide PatchedBytes, Plan, Walk, DylibCommand, Commands, WordAt, CommandSize, Fills, Layout;
    PatchedLayout(s, base, size, name);
    PlanRoom(s, base, size, name);
    LayoutSecondRun(s, PatchedBytes(s, base, size, name), base, size, name);
    PlanByWalk(PatchedBytes(s, base, size, name), base, size, name);
  }

  /** The patch reports an existing command exactly when the walk over an image finds it. */
  lemma PlanByWalk(s: seq<byte>, base: nat, size: nat, name: seq<byte>)
    requires base + size <= |s|
    ensures Plan(s, base, size, name) == AlreadyPresent
       <==> IsImage(s, base, size)
            && Walk(s, base + HEADER_SIZE, Insertion(s, base), CommandCount(s, base), name, size).Found?
  {
    hide Walk, WordAt;
  }

  lemma WalkOne(s: seq<byte>, at: nat, end: nat, name: seq<byte>, first: nat)
    requires end <= |s| && CommandAt(s, at, end).Some?
    requires var e := Examine(CommandAt(s, at, end).value.bytes, name, first); e == Found || e == Go(first)
    ensures Walk(s, at, end, 1, name, first) == Examine(CommandAt(s, at, end).value.bytes, name, first)
  {
    hide CommandAt, Examine;
  }

  // ----- Where the promises fail -----

  /** An image without commands that declares `used` bytes for them. */
  function Bare(used: byte, size: nat): (s: seq<byte>)
    requires HEADER_SIZE <= size
    ensures |s| == size
  {
    [0xCF, 0xFA, 0xED, 0xFE] + Zeros(16) + [used, 0, 0, 0] + Zeros(size - 24)
  }

  lemma BareHeader(used: byte, size: nat)
    requires HEADER_SIZE + used as int <= size
    ensures var s := Bare(used, size);
            && IsImage(s, 0, size) && CommandCount(s, 0) == 0 && CommandBytes(s, 0) == used
            && forall k :: 24 <= k < size ==> s[k] == 0
  {
    var s := Bare(used, size);
    assert s[0] == 0xCF && s[1] == 0xFA && s[2] == 0xED && s[3] == 0xFE;
    assert s[16] == 0 && s[17] == 0 && s[18] == 0 && s[19] == 0;
    assert s[20] == used && s[21] == 0 && s[22] == 0 && s[23] == 0;
  }

  lemma BarePlan(used: byte, size: nat, name: seq<byte>)
    requires HEADER_SIZE + used as int + CommandSize(name) <= size && CommandSize(name) < 0x1000
    ensures Plan(Bare(used, size), 0, size, name) == Patched
    ensures ParsedCommands(Bare(used, size), 0) == Some([])
    ensures Fills(Bare(used, size), 0) <==> used == 0
  {
    BareHeader(used, size);
    hide Bare, CommandSize, WordAt;
    var s, at, n := Bare(used, size), HEADER_SIZE + used as int, CommandSize(name);
    assert s[at..at + n] == Zeros(n);
  }

  /** A slice whose commands do not fill their declared area can be patched, and its list is then not the
      old one and the new command: eight declared but unused bytes make the patched list unreadable, for
      its only command has size 0. */
  lemma UnfilledIsPatched()
    ensures var s := Bare(8, 80);
            && Plan(s, 0, 80, []) == Patched && !Fills(s, 0)
            && ParsedCommands(s, 0) == Some([])
            && ParsedCommands(PatchedBytes(s, 0, 80, []), 0) == None
  {
    var s := Bare(8, 80);
    assert CommandSize([]) == 32;
    BarePlan(8, 80, []);
    BareHeader(8, 80);
    PatchedLayout(s, 0, 80, []);
    hide Bare, Plan, PatchedBytes, DylibCommand, WordAt;
    var s' := PatchedBytes(s, 0, 80, []);
    assert s'[36] == 0 && s'[37] == 0 && s'[38] == 0 && s'[39] == 0;
    ZeroWord(s', 36);
    assert CommandAt(s', 32, 72) == None;
    assert CommandCount(s', 0) == 1 && Insertion(s', 0) == 72;
  }

  lemma ZeroWord(s: seq<byte>, at: nat)
    requires at + 4 <= |s| && s[at] == 0 && s[at + 1] == 0 && s[at + 2] == 0 && s[at + 3] == 0
    ensures WordAt(s, at) == 0
  {
  }

  lemma NulName()
    ensures CommandSize([0]) == 32 && !Findable([0])
  {
  }

  lemma NothingToWalk(s: seq<byte>, name: seq<byte>)
    requires |s| == 96
    ensures Walk(s, 32, 32, 0, name, 96) == Go(96) && Commands(s, 32, 32, 0) == Some([])
  {
  }

  /** A name that holds a NUL, which no command line can pass, is added again by a second patch. */
  lemma NulNameIsAddedAgain()
    ensures var s := Bare(0, 96);
            && Plan(s, 0, 96, [0]) == Patched && Fills(s, 0)
            && Plan(PatchedBytes(s, 0, 96, [0]), 0, 96, [0]) == Patched
  {
    var s, name: seq<byte> := Bare(0, 96), [0];
    NulName();
    NothingToWalk(s, name);
    hide Bare, Plan, PatchedBytes, DylibCommand, WordAt, Walk, Commands, CommandSize, Findable, Layout, Zeros, IsImage,
      CommandCount, CommandBytes;
    BarePlan(0, 96, name);
    PatchedLayout(s, 0, 96, name);
    var s' := PatchedBytes(s, 0, 96, name);
    BareLayout(s', name);
    SecondWalk(s, s', 32, 32, 0, name, 96);
    RoomForAnother(s', name);
  }

  lemma BareLayout(s: seq<byte>, name: seq<byte>)
    requires Layout(Bare(0, 96), s, 0, 96, name) && CommandSize(name) == 32
    ensures |s| == 96 && IsImage(s, 0, 96) && CommandCount(s, 0) == 1 && CommandBytes(s, 0) == 32
    ensures s[32..64] == DylibCommand(name) && s[64..96] == Zeros(32)
  {
    BareHeader(0, 96);
    hide Bare, WordAt, CommandSize, DylibCommand;
    assert s[64..96] == Zeros(32);
  }

  lemma RoomForAnother(s: seq<byte>, name: seq<byte>)
    requires |s| == 96 && IsImage(s, 0, 96) && CommandCount(s, 0) == 1 && CommandBytes(s, 0) == 32
    requires CommandSize(name) == 32 && s[64..96] == Zeros(32) && Walk(s, 32, 64, 1, name, 96) == Go(96)
    ensures Plan(s, 0, 96, name) == Patched
  {
    hide WordAt, Walk, CommandSize, Zeros;
  }
}
