/** The engine's single file actions, refined by the steps of atomic replacements. */
module FileRefinement {
  import opened Bytes
  import opened AtomicFile
  import opened SaveIdentity
  import opened SyncModel
  import opened SyncSafety

  ghost predicate SameExcept(was: Files, now: Files, changed: set<string>) {
    forall p :: p !in changed ==> (p in now <==> p in was) && (p in was ==> now[p] == was[p])
  }

  // ----- Live saves -----

  /** Every slot has its own path, and the staging name is none of them. */
  ghost predicate Placed(place: nat -> string, temp: string) {
    && (forall s, t :: place(s) == place(t) ==> s == t)
    && forall s :: place(s) != temp
  }

  /** The live saves are what the codec reads in the files at their paths. */
  ghost predicate Shows(local: map<nat, RawSave>, files: Files, place: nat -> string) {
    forall s :: (s in local <==> place(s) in files) && (s in local ==> local[s] == Classify(files[place(s)].bytes))
  }

  lemma SameOutside(was: Files, now: Files, temp: string, p: string)
    requires Except(now, temp) == Except(was, temp) && p != temp
    ensures p in now <==> p in was
    ensures p in was ==> now[p] == was[p]
  {
    assert p in Except(now, temp) <==> p in now;
    assert p in Except(was, temp) <==> p in was;
  }

  lemma InstalledOutside(was: Files, now: Files, path: string, temp: string, bytes: seq<byte>, p: string)
    requires After(was, now, path, temp, bytes) && p != temp
    ensures p in now <==> p in was || p == path
    ensures p == path ==> now[p].bytes == bytes
    ensures p != path && p in was ==> now[p] == was[p]
  {
    assert p in Except(now, temp) <==> p in now;
    assert p in Except(was, temp) <==> p in was;
    assert p in now ==> Except(now, temp)[p] == now[p];
  }

  /** `WriteLocal` is the whole sequence of file operations: its first fault stands for any failure up to
      the rename, its second for a failure of the directory synchronization. For every outcome of every
      operation it reports what the replacement reports and shows the live saves the files then hold, and
      no other file has changed. */
  lemma WriteLocalRefined(w: World, slot: nat, bytes: seq<byte>, was: Files, now: Files, temp: string, o: Failures,
                          ok: bool, place: nat -> string, f: Faults)
    requires Placed(place, temp) && Shows(w.local, was, place)
    requires Replaced(was, now, place(slot), temp, bytes, o, ok)
    requires f(w.tick) == FailsBeforeRename(was, place(slot), temp, o) && f(w.tick + 1) == o.fails(6)
    ensures var r := WriteLocal(w, slot, Classify(bytes), f);
            r.ok == ok && Shows(r.w.local, now, place)
    ensures SameExcept(was, now, {place(slot), temp})
  {
    hide Classify, Except, FailsBeforeRename;
    var r := WriteLocal(w, slot, Classify(bytes), f);
    forall p | p != temp
      ensures f(w.tick) || p != place(slot) ==> (p in now <==> p in was) && (p in was ==> now[p] == was[p])
      ensures !f(w.tick) && p == place(slot) ==> p in now && now[p].bytes == bytes
    {
      if f(w.tick) {
        SameOutside(was, now, temp, p);
      } else {
        InstalledOutside(was, now, place(slot), temp, bytes, p);
      }
    }
    forall s
      ensures (s in r.w.local <==> place(s) in now)
           && (s in r.w.local ==> r.w.local[s] == Classify(now[place(s)].bytes))
    {
      assert place(s) != temp;
    }
  }

  // ----- One replacement -----

  lemma OneReplacement(was: Files, now: Files, path: string, temp: string, bytes: seq<byte>, o: Failures, ok: bool)
    requires path != temp && Replaced(was, now, path, temp, bytes, o, ok)
    ensures SameExcept(was, now, {path, temp})
    ensures FailsBeforeRename(was, path, temp, o) ==> (path in now <==> path in was)
    ensures !FailsBeforeRename(was, path, temp, o) ==> path in now && now[path].bytes == bytes
  {
    hide Except, FailsBeforeRename;
    forall p | p != temp
      ensures FailsBeforeRename(was, path, temp, o) || p != path ==> (p in now <==> p in was) && (p in was ==> now[p] == was[p])
      ensures !FailsBeforeRename(was, path, temp, o) && p == path ==> p in now && now[p].bytes == bytes
    {
      if FailsBeforeRename(was, path, temp, o) {
        SameOutside(was, now, temp, p);
      } else {
        InstalledOutside(was, now, path, temp, bytes, p);
      }
    }
  }

  lemma SameStart(was: Files, mid: Files, path: string, temp: string, o: Failures)
    requires (path in mid <==> path in was) && (temp in mid <==> temp in was)
    ensures FailsBeforeRename(mid, path, temp, o) == FailsBeforeRename(was, path, temp, o)
  {
  }

  lemma SameTwice(was: Files, mid: Files, now: Files, first: set<string>, second: set<string>)
    requires SameExcept(was, mid, first)
    ensures SameExcept(mid, now, second) ==> SameExcept(was, now, first + second)
    ensures forall p :: p !in first ==> (p in mid <==> p in was)
    ensures SameExcept(mid, now, second) ==>
              forall p :: p !in second ==> (p in now <==> p in mid) && (p in mid ==> now[p] == mid[p])
  {
  }
}
