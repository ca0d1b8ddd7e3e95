/** Replacing a file as a sequence of file operations, each of which may fail. */
module AtomicFile {
  import opened Bytes

  datatype File = File(bytes: seq<byte>, mode: nat)

  type Files = map<string, File>

  const DEFAULT_MODE := 0x1A4

  /** What a failing operation may do: how much of the data a failed write leaves in the staging file. */
  datatype Failures = Failures(fails: nat -> bool, written: nat)

  function Except(files: Files, path: string): Files {
    map p | p in files && p != path :: files[p]
  }

  /** The file a replacement installs: it takes over the mode of the file it replaces. */
  function Replacement(files: Files, path: string, bytes: seq<byte>): File {
    File(bytes, if path in files then files[path].mode else DEFAULT_MODE)
  }

  /** Leaving the staging file aside, nothing has changed. */
  ghost predicate Before(was: Files, now: Files, temp: string) {
    Except(now, temp) == Except(was, temp)
  }

  /** Leaving the staging file aside, the destination alone has changed, and completely. */
  ghost predicate After(was: Files, now: Files, path: string, temp: string, bytes: seq<byte>) {
    Except(now, temp) == Except(was, temp)[path := Replacement(was, path, bytes)]
  }

  /** Each moment of a replacement shows the complete old file or the complete new one. */
  ghost predicate Whole(was: Files, moments: seq<Files>, path: string, temp: string, bytes: seq<byte>) {
    forall now :: now in moments ==> Before(was, now, temp) || After(was, now, path, temp, bytes)
  }

  /** An operation up to and including the rename fails, or another file has the staging name. */
  ghost predicate FailsBeforeRename(was: Files, path: string, temp: string, o: Failures) {
    temp in was || exists step: nat :: step < 6 && (step == 1 ==> path in was) && o.fails(step)
  }

  /** Where a replacement ends: by what fails, the old destination or the new one; no other file has
      changed, and no staging file is left unless its removal fails. */
  ghost predicate Replaced(was: Files, now: Files, path: string, temp: string, bytes: seq<byte>, o: Failures, ok: bool) {
    && (if FailsBeforeRename(was, path, temp, o) then Before(was, now, temp) else After(was, now, path, temp, bytes))
    && (ok <==> !FailsBeforeRename(was, path, temp, o) && !o.fails(6))
    && (ok || !o.fails(7) ==> temp !in now)
  }

  lemma Staging(was: Files, now: Files, temp: string, staged: File)
    requires Before(was, now, temp)
    ensures Before(was, now[temp := staged], temp)
  {
    assert Except(now[temp := staged], temp) == Except(now, temp);
  }

  lemma Renaming(was: Files, now: Files, path: string, temp: string, bytes: seq<byte>)
    requires path != temp && Before(was, now, temp) && temp in now && now[temp] == Replacement(was, path, bytes)
    ensures After(was, Except(now[path := now[temp]], temp), path, temp, bytes)
  {
    assert Except(Except(now[path := now[temp]], temp), temp) == Except(now, temp)[path := now[temp]];
  }

  lemma Cleaning(now: Files, temp: string)
    ensures Except(Except(now, temp), temp) == Except(now, temp) && temp !in Except(now, temp)
  {
  }

  lemma Untouched(now: Files, temp: string)
    ensures Before(now, now, temp)
  {
  }

  class Directory {
    var files: Files

    /** Creating, preparing and filling the staging file; a failed write leaves a part of the data. */
    method Stage(path: string, temp: string, bytes: seq<byte>, o: Failures) returns (ok: bool, ghost moments: seq<Files>)
      requires path != temp
      modifies this
      ensures forall now :: now in moments ==> Before(old(files), now, temp)
      ensures Before(old(files), files, temp)
      ensures ok <==> temp !in old(files) && forall step: nat :: step < 5 && (step == 1 ==> path in old(files)) ==> !o.fails(step)
      ensures ok ==> temp in files && files[temp] == Replacement(old(files), path, bytes)
    {
      hide Before, Except;
      moments := [];
      ghost var was := files;
      Untouched(was, temp);
      var existing := if path in files then Some(files[path].mode) else None;
      if temp in files || o.fails(0) {
        return false, moments;
      }
      Staging(was, files, temp, File([], DEFAULT_MODE));
      files := files[temp := File([], DEFAULT_MODE)];
      moments := moments + [files];
      if existing.Some? {
        if o.fails(1) {
          return false, moments;
        }
        Staging(was, files, temp, File([], existing.value));
        files := files[temp := File([], existing.value)];
        moments := moments + [files];
      }
      var written: nat := if o.fails(2) then Min(o.written, |bytes|) else |bytes|;
      Staging(was, files, temp, File(bytes[..written], files[temp].mode));
      files := files[temp := File(bytes[..written], files[temp].mode)];
      moments := moments + [files];
      if o.fails(2) || o.fails(3) || o.fails(4) {
        return false, moments;
      }
      assert bytes[..written] == bytes;
      ok := true;
    }

    /** However the operations fail, at each moment the destination holds the complete old file or the
        complete new one and no other file has changed. A failure before the rename leaves the old file,
        and anything later the new one; success is exactly no failing operation. */
    method WriteBytes(path: string, temp: string, bytes: seq<byte>, o: Failures)
      returns (ok: bool, ghost moments: seq<Files>)
      requires path != temp
      modifies this
      ensures Whole(old(files), moments + [files], path, temp, bytes)
      ensures Replaced(old(files), files, path, temp, bytes, o, ok)
    {
      hide Before, After, Except;
      ghost var was := files;
      ok, moments := Stage(path, temp, bytes, o);
      if ok && !o.fails(5) {
        Renaming(was, files, path, temp, bytes);
        Cleaning(files[path := files[temp]], temp);
        files := Except(files[path := files[temp]], temp);
        moments := moments + [files];
        if !o.fails(6) {
          return;
        }
      }
      ok := false;
      if !o.fails(7) {
        ghost var before := files;
        files := Except(files, temp);
        Cleaned(was, before, path, temp, bytes);
      }
    }
  }

  lemma Cleaned(was: Files, now: Files, path: string, temp: string, bytes: seq<byte>)
    ensures Before(was, now, temp) ==> Before(was, Except(now, temp), temp)
    ensures After(was, now, path, temp, bytes) ==> After(was, Except(now, temp), path, temp, bytes)
    ensures temp !in Except(now, temp)
  {
    Cleaning(now, temp);
  }
}
