/** The store of backups as files: writing, retention and restoring, refined from the engine's actions. */
module BackupFiles {
  import opened Bytes
  import opened AtomicFile
  import opened Backups
  import opened SaveIdentity
  import opened SyncModel
  import opened SyncSafety
  import opened FileRefinement

  // ----- Files -----

  /** Where the live save of a slot, and the data and the manifest of a backup, lie. */
  datatype Paths = Paths(live: nat -> string, data: nat -> string, manifest: nat -> string)

  /** How manifests are written as bytes. */
  datatype Coding = Coding(encode: BackupRecord<RawSave> -> seq<byte>, decode: seq<byte> -> Option<BackupRecord<RawSave>>)

  ghost predicate Lawful(c: Coding) {
    forall r :: c.decode(c.encode(r)) == Some(r)
  }

  /** No two of these paths are the same. */
  ghost predicate Apart(paths: Paths) {
    && (forall i, j :: paths.live(i) == paths.live(j) ==> i == j)
    && (forall i, j :: paths.data(i) == paths.data(j) ==> i == j)
    && (forall i, j :: paths.manifest(i) == paths.manifest(j) ==> i == j)
    && (forall i, j :: paths.data(i) != paths.manifest(j))
    && (forall i, j :: paths.live(i) != paths.data(j) && paths.live(i) != paths.manifest(j))
  }

  /** A staging name is not the path of anything kept. */
  ghost predicate Staging(paths: Paths, temp: string) {
    forall i :: paths.live(i) != temp && paths.data(i) != temp && paths.manifest(i) != temp
  }

  ghost predicate Held(files: Files, paths: Paths, c: Coding, r: BackupRecord<RawSave>) {
    && paths.manifest(r.id) in files && c.decode(files[paths.manifest(r.id)].bytes) == Some(r)
    && paths.data(r.id) in files && Classify(files[paths.data(r.id)].bytes) == r.data
  }

  ghost predicate HasId(rs: seq<BackupRecord<RawSave>>, id: nat) {
    exists r :: r in rs && r.id == id
  }

  /** The manifests are those of the records, and each has its data beside it. */
  ghost predicate Lists(rs: seq<BackupRecord<RawSave>>, files: Files, paths: Paths, c: Coding) {
    && (forall r :: r in rs ==> Held(files, paths, c, r))
    && forall id :: paths.manifest(id) in files ==> HasId(rs, id)
  }

  // ----- The listing -----

  lemma HeldSame(rs: seq<BackupRecord<RawSave>>, rs': seq<BackupRecord<RawSave>>, files: Files, paths: Paths, c: Coding,
                 r: BackupRecord<RawSave>)
    requires Lists(rs, files, paths, c) && Lists(rs', files, paths, c) && r in rs
    ensures r in rs'
  {
    hide Classify;
    assert Held(files, paths, c, r);
    assert HasId(rs', r.id);
    var r' :| r' in rs' && r'.id == r.id;
    assert Held(files, paths, c, r');
  }

  ghost predicate SameMembers(rs: seq<BackupRecord<RawSave>>, rs': seq<BackupRecord<RawSave>>) {
    forall r :: r in rs <==> r in rs'
  }

  lemma EmptyMembers(rs: seq<BackupRecord<RawSave>>, rs': seq<BackupRecord<RawSave>>)
    requires SameMembers(rs, rs')
    ensures rs == [] <==> rs' == []
  {
    assert rs != [] ==> rs[0] in rs;
    assert rs' != [] ==> rs'[0] in rs';
  }

  lemma AllButLast(rs: seq<BackupRecord<RawSave>>, now: nat)
    requires Chronological(rs, now) && rs != []
    ensures var last := rs[|rs| - 1];
            && Chronological(rs[..|rs| - 1], last.id)
            && forall r :: r in rs[..|rs| - 1] <==> r in rs && r != last
  {
    var older, last := rs[..|rs| - 1], rs[|rs| - 1];
    assert rs == older + [last];
    assert forall r :: r in older ==> r.id < last.id;
  }

  lemma LastIsLast(rs: seq<BackupRecord<RawSave>>, rs': seq<BackupRecord<RawSave>>, now: nat)
    requires Chronological(rs, now) && Chronological(rs', now) && SameMembers(rs, rs') && rs != [] && rs' != []
    ensures rs[|rs| - 1] == rs'[|rs'| - 1]
    ensures SameMembers(rs[..|rs| - 1], rs'[..|rs'| - 1])
  {
    var last, last' := rs[|rs| - 1], rs'[|rs'| - 1];
    assert last in rs' && last' in rs;
    assert last == last';
    AllButLast(rs, now);
    AllButLast(rs', now);
    var older, older' := rs[..|rs| - 1], rs'[..|rs'| - 1];
    forall r
      ensures r in older <==> r in older'
    {
      assert r in rs <==> r in rs';
    }
  }

  lemma {:induction false} SortedOnce(rs: seq<BackupRecord<RawSave>>, rs': seq<BackupRecord<RawSave>>, now: nat)
    requires Chronological(rs, now) && Chronological(rs', now) && SameMembers(rs, rs')
    ensures rs == rs'
  {
    EmptyMembers(rs, rs');
    if rs == [] {
    } else {
      AllButLast(rs, now);
      AllButLast(rs', now);
      LastIsLast(rs, rs', now);
      SortedOnce(rs[..|rs| - 1], rs'[..|rs'| - 1], rs[|rs| - 1].id);
      assert rs == rs[..|rs| - 1] + [rs[|rs| - 1]] && rs' == rs'[..|rs'| - 1] + [rs[|rs| - 1]];
    }
  }

  /** The files determine the listing: no two chronological stores lie in the same files. */
  lemma ListedOnce(rs: seq<BackupRecord<RawSave>>, rs': seq<BackupRecord<RawSave>>, files: Files, paths: Paths,
                   c: Coding, now: nat)
    requires Lists(rs, files, paths, c) && Lists(rs', files, paths, c)
    requires Chronological(rs, now) && Chronological(rs', now)
    ensures rs == rs'
  {
    hide Lists, Chronological;
    forall r
      ensures r in rs <==> r in rs'
    {
      if r in rs {
        HeldSame(rs, rs', files, paths, c, r);
      } else if r in rs' {
        HeldSame(rs', rs, files, paths, c, r);
      }
    }
    SortedOnce(rs, rs', now);
  }

  // ----- One backup -----

  predicate AllDifferent(names: seq<string>) {
    forall i, j :: 0 <= i < j < |names| ==> names[i] != names[j]
  }

  ghost predicate Unlisted(was: Files, data: string, dataTemp: string, manifest: string, manifestTemp: string,
                           o: Failures, o': Failures)
  {
    FailsBeforeRename(was, data, dataTemp, o) || o.fails(6) || FailsBeforeRename(was, manifest, manifestTemp, o')
  }

  /** A backup's data and manifest are written one after the other under fresh names: the manifest is
      listed only with its complete data beside it, and exactly when the data was written without a
      failure and the manifest was renamed. */
  method StoreBackup(directory: Directory, dataPath: string, dataTemp: string, manifestPath: string, manifestTemp: string,
                     data: seq<byte>, manifest: seq<byte>, o: Failures, o': Failures) returns (ok: bool)
    requires AllDifferent([dataPath, dataTemp, manifestPath, manifestTemp])
    requires manifestPath !in directory.files
    modifies directory
    ensures manifestPath in directory.files
       <==> !Unlisted(old(directory.files), dataPath, dataTemp, manifestPath, manifestTemp, o, o')
    ensures manifestPath in directory.files ==>
              (&& directory.files[manifestPath].bytes == manifest
               && dataPath in directory.files && directory.files[dataPath].bytes == data)
    ensures ok <==> manifestPath in directory.files && !o'.fails(6)
    ensures SameExcept(old(directory.files), directory.files, {dataPath, dataTemp} + {manifestPath, manifestTemp})
  {
    ghost var was := directory.files;
    ghost var names := [dataPath, dataTemp, manifestPath, manifestTemp];
    assert names[0] != names[1] && names[0] != names[2] && names[0] != names[3];
    assert names[1] != names[2] && names[1] != names[3] && names[2] != names[3];
    hide *;
    ghost var moments;
    ok, moments := directory.WriteBytes(dataPath, dataTemp, data, o);
    ghost var mid := directory.files;
    OneReplacement(was, mid, dataPath, dataTemp, data, o, ok);
    SameTwice(was, mid, mid, {dataPath, dataTemp}, {manifestPath, manifestTemp});
    if !ok {
      return;
    }
    SameStart(was, mid, manifestPath, manifestTemp, o');
    ok, moments := directory.WriteBytes(manifestPath, manifestTemp, manifest, o');
    OneReplacement(mid, directory.files, manifestPath, manifestTemp, manifest, o', ok);
    SameTwice(was, mid, directory.files, {dataPath, dataTemp}, {manifestPath, manifestTemp});
  }

  lemma HeldElsewhere(was: Files, now: Files, paths: Paths, c: Coding, changed: set<string>, r: BackupRecord<RawSave>)
    requires SameExcept(was, now, changed) && paths.manifest(r.id) !in changed && paths.data(r.id) !in changed
    ensures Held(now, paths, c, r) == Held(was, paths, c, r)
  {
    hide Classify;
  }

  /** After the two replacements the store lists the new record, and the live saves are as they were. */
  lemma StoredLists(rs: seq<BackupRecord<RawSave>>, record: BackupRecord<RawSave>, was: Files, now: Files, paths: Paths,
                    c: Coding, temp: string, temp': string, data: seq<byte>)
    requires Apart(paths) && Staging(paths, temp) && Staging(paths, temp') && Lawful(c)
    requires Chronological(rs, record.id) && Lists(rs, was, paths, c) && record.data == Classify(data)
    requires SameExcept(was, now, {paths.data(record.id), temp} + {paths.manifest(record.id), temp'})
    requires paths.manifest(record.id) in now ==>
               && now[paths.manifest(record.id)].bytes == c.encode(record)
               && paths.data(record.id) in now && now[paths.data(record.id)].bytes == data
    ensures Lists(if paths.manifest(record.id) in now then rs + [record] else rs, now, paths, c)
  {
    var changed := {paths.data(record.id), temp} + {paths.manifest(record.id), temp'};
    var rs' := if paths.manifest(record.id) in now then rs + [record] else rs;
    hide Classify;
    forall r | r in rs
      ensures Held(now, paths, c, r) && r.id != record.id
    {
      assert r.id < record.id;
      assert paths.manifest(r.id) !in changed && paths.data(r.id) !in changed;
      HeldElsewhere(was, now, paths, c, changed, r);
    }
    forall id | paths.manifest(id) in now
      ensures HasId(rs', id)
    {
      if id == record.id {
        assert record in rs';
      } else {
        assert paths.manifest(id) !in changed;
        var r :| r in rs && r.id == id;
        assert r in rs';
      }
    }
  }

  // ----- Deleting -----

  lemma {:induction false} WithoutMembers(rs: seq<BackupRecord<RawSave>>, ids: set<nat>)
    ensures forall r :: r in Without(rs, ids) <==> r in rs && r.id !in ids
  {
    if rs == [] {
    } else {
      assert rs == rs[..|rs| - 1] + [rs[|rs| - 1]];
      WithoutMembers(rs[..|rs| - 1], ids);
    }
  }

  lemma DeletedLists(rs: seq<BackupRecord<RawSave>>, was: Files, paths: Paths, c: Coding, id: nat)
    requires Apart(paths) && Lists(rs, was, paths, c)
    ensures var now := Except(Except(was, paths.data(id)), paths.manifest(id));
            && Lists(Without(rs, {id}), now, paths, c)
            && SameExcept(was, now, {paths.data(id), paths.manifest(id)})
            && paths.data(id) !in now
  {
    var now := Except(Except(was, paths.data(id)), paths.manifest(id));
    var changed := {paths.data(id), paths.manifest(id)};
    WithoutMembers(rs, {id});
    assert SameExcept(was, now, changed);
    hide Classify, Without;
    forall r | r in Without(rs, {id})
      ensures Held(now, paths, c, r)
    {
      HeldElsewhere(was, now, paths, c, changed, r);
    }
    forall other | paths.manifest(other) in now
      ensures HasId(Without(rs, {id}), other)
    {
      var r :| r in rs && r.id == other;
      assert r in Without(rs, {id});
    }
  }

  /** No file but those of the given records has changed. */
  ghost predicate OthersKept(was: Files, now: Files, paths: Paths, gone: seq<BackupRecord<RawSave>>) {
    forall p :: (forall r :: r in gone ==> p != paths.data(r.id) && p != paths.manifest(r.id)) ==>
      (p in now <==> p in was) && (p in was ==> now[p] == was[p])
  }

  lemma NoneGone(files: Files, paths: Paths)
    ensures OthersKept(files, files, paths, [])
  {
  }

  lemma OneMoreGone(was: Files, mid: Files, now: Files, paths: Paths, r: BackupRecord<RawSave>, gone: seq<BackupRecord<RawSave>>)
    requires OthersKept(was, mid, paths, gone) && SameExcept(mid, now, {paths.data(r.id), paths.manifest(r.id)})
    ensures OthersKept(was, now, paths, gone + [r])
  {
    forall p | forall q :: q in gone + [r] ==> p != paths.data(q.id) && p != paths.manifest(q.id)
      ensures (p in now <==> p in was) && (p in was ==> now[p] == was[p])
    {
      assert forall q :: q in gone ==> q in gone + [r];
      assert r in gone + [r];
    }
  }

  /** Deleting the files of the given records leaves the store without them; a deleted record's data is
      gone, and nothing but the records' files has changed. */
  method DeleteFiles(directory: Directory, stale: seq<BackupRecord<RawSave>>, paths: Paths, c: Coding,
                     ghost rs: seq<BackupRecord<RawSave>>)
    requires Apart(paths) && Lists(rs, directory.files, paths, c)
    modifies directory
    ensures Lists(Without(rs, Ids(stale)), directory.files, paths, c)
    ensures forall r :: r in stale ==> paths.data(r.id) !in directory.files
    ensures OthersKept(old(directory.files), directory.files, paths, stale)
  {
    hide Without, Lists, Except, Apart, OthersKept;
    NoneGone(directory.files, paths);
    WithoutNone(rs);
    assert stale[..0] == [] && Ids<RawSave>([]) == {};
    for i := 0 to |stale|
      invariant Lists(Without(rs, Ids(stale[..i])), directory.files, paths, c)
      invariant forall r :: r in stale[..i] ==> paths.data(r.id) !in directory.files
      invariant OthersKept(old(directory.files), directory.files, paths, stale[..i])
    {
      ghost var was := directory.files;
      var r := stale[i];
      ghost var left := Without(rs, Ids(stale[..i]));
      DeletedLists(left, was, paths, c, r.id);
      WithoutTwice(rs, Ids(stale[..i]), {r.id});
      assert stale[..i + 1] == stale[..i] + [r];
      StaleSnoc(stale[..i], r, 0);
      directory.files := Except(Except(directory.files, paths.data(r.id)), paths.manifest(r.id));
      StillGone(was, directory.files, paths, r.id, stale[..i]);
      OneMoreGone(old(directory.files), was, directory.files, paths, r, stale[..i]);
    }
    assert stale[..|stale|] == stale;
  }

  lemma StillGone(was: Files, now: Files, paths: Paths, id: nat, gone: seq<BackupRecord<RawSave>>)
    requires now == Except(Except(was, paths.data(id)), paths.manifest(id))
    requires forall r :: r in gone ==> paths.data(r.id) !in was
    ensures forall r :: r in gone ==> paths.data(r.id) !in now
  {
  }

  // ----- A backup with retention -----

  /** The staging name and the outcomes of one replacement. */
  datatype Attempt = Attempt(temp: string, outcomes: Failures)

  ghost predicate Stored(paths: Paths, p: string) {
    exists i :: p == paths.data(i) || p == paths.manifest(i)
  }

  /** Only the files of backups and those under the given staging names may have changed. */
  ghost predicate Elsewhere(was: Files, now: Files, paths: Paths, staged: set<string>) {
    forall p :: p !in staged && !Stored(paths, p) ==> (p in now <==> p in was) && (p in was ==> now[p] == was[p])
  }

  /** The data of every record that is no longer kept is gone. */
  ghost predicate Gone(rs: seq<BackupRecord<RawSave>>, kept: seq<BackupRecord<RawSave>>, files: Files, paths: Paths) {
    forall r :: r in rs && r !in kept ==> paths.data(r.id) !in files
  }

  /** What retention deletes: the matching versions, newest first, beyond the first twelve. */
  function Excess(listed: seq<BackupRecord<RawSave>>, slot: nat, source: BackupSource): seq<BackupRecord<RawSave>> {
    var matching := Reversed(Versions(listed, slot, source));
    if |matching| <= RETAIN_PER_SLOT_AND_SOURCE then [] else matching[RETAIN_PER_SLOT_AND_SOURCE..]
  }

  lemma WithoutExcess(rs: seq<BackupRecord<RawSave>>, record: BackupRecord<RawSave>)
    requires Chronological(rs, record.id)
    ensures Without(rs + [record], Ids(Excess(rs + [record], record.slot, record.source))) == Add(rs, record)
  {
    var listed := rs + [record];
    var v := Versions(listed, record.slot, record.source);
    AddChronological(rs, record);
    DeletingStale(listed, record.slot, record.source, RETAIN_PER_SLOT_AND_SOURCE, record.id + 1);
    hide Reversed, Versions, Without, Keep, Chronological, Ids;
    if |v| > RETAIN_PER_SLOT_AND_SOURCE {
      SkippedIds(v, RETAIN_PER_SLOT_AND_SOURCE);
    }
  }

  lemma StaleGone(rs: seq<BackupRecord<RawSave>>, stale: seq<BackupRecord<RawSave>>, files: Files, paths: Paths)
    requires forall r :: r in stale ==> paths.data(r.id) !in files
    ensures Gone(rs, Without(rs, Ids(stale)), files, paths)
  {
    WithoutMembers(rs, Ids(stale));
  }

  /** The two replacements of a backup with their staging names. */
  ghost predicate Separate(paths: Paths, d: Attempt, m: Attempt) {
    Staging(paths, d.temp) && Staging(paths, m.temp) && d.temp != m.temp
  }

  lemma Unused(rs: seq<BackupRecord<RawSave>>, files: Files, paths: Paths, c: Coding, now: nat)
    requires Chronological(rs, now) && Lists(rs, files, paths, c)
    ensures paths.manifest(now) !in files
  {
    assert !HasId(rs, now);
  }

  lemma NamesDiffer(paths: Paths, id: nat, d: Attempt, m: Attempt)
    requires Apart(paths) && Separate(paths, d, m)
    ensures AllDifferent([paths.data(id), d.temp, paths.manifest(id), m.temp])
  {
    assert paths.data(id) != paths.manifest(id);
    assert d.temp != paths.data(id) && d.temp != paths.manifest(id);
    assert m.temp != paths.data(id) && m.temp != paths.manifest(id);
  }

  /** Storing a record: it is listed unless its data or its manifest could not be written. */
  method StoreRecord(directory: Directory, paths: Paths, c: Coding, record: BackupRecord<RawSave>, bytes: seq<byte>,
                     d: Attempt, m: Attempt, ghost rs: seq<BackupRecord<RawSave>>)
    returns (ok: bool)
    requires Apart(paths) && Lawful(c) && Separate(paths, d, m) && record.data == Classify(bytes)
    requires Chronological(rs, record.id) && Lists(rs, directory.files, paths, c)
    modifies directory
    ensures var lost := Unlisted(old(directory.files), paths.data(record.id), d.temp, paths.manifest(record.id), m.temp,
                                 d.outcomes, m.outcomes);
            && Lists(if lost then rs else rs + [record], directory.files, paths, c)
            && (ok <==> !lost && !m.outcomes.fails(6))
    ensures Elsewhere(old(directory.files), directory.files, paths, {d.temp, m.temp})
  {
    ghost var was := directory.files;
    hide Classify, Unlisted, Lists, Chronological, AllDifferent, Apart, Staging, SameExcept, Elsewhere, Lawful;
    NamesDiffer(paths, record.id, d, m);
    Unused(rs, was, paths, c, record.id);
    ok := StoreBackup(directory, paths.data(record.id), d.temp, paths.manifest(record.id), m.temp, bytes, c.encode(record),
                      d.outcomes, m.outcomes);
    StoredLists(rs, record, was, directory.files, paths, c, d.temp, m.temp, bytes);
    StoredElsewhere(was, directory.files, paths, record.id, d.temp, m.temp);
  }

  lemma BackupBytesIs(w: World, record: BackupRecord<RawSave>, f: Faults)
    requires record.id == w.clock
    ensures var b, listed := BackupBytes(w, record.slot, record.source, record.data, f), w.backups + [record];
            && b.w.backups == (if f(w.tick) then w.backups else if f(w.tick + 1) then listed else Add(w.backups, record))
            && b.ok == (!f(w.tick) && !f(w.tick + 1))
  {
  }

  /** `BackupBytes` on files: whatever fails, the action reports what the file operations report, the
      manifests list exactly the records it leaves, and retention has removed the data of all others.
      Its first fault stands for a backup that does not get its manifest, its second for a directory
      that was not synchronized or a listing that failed afterwards. */
  method WriteBackup(directory: Directory, paths: Paths, c: Coding, rs: seq<BackupRecord<RawSave>>, now: nat, slot: nat,
                     source: BackupSource, bytes: seq<byte>, d: Attempt, m: Attempt, listingFails: bool,
                     ghost w: World, ghost f: Faults)
    returns (ok: bool)
    requires Apart(paths) && Lawful(c) && Separate(paths, d, m)
    requires Chronological(rs, now) && Lists(rs, directory.files, paths, c) && w.backups == rs && w.clock == now
    requires f(w.tick) == Unlisted(directory.files, paths.data(now), d.temp, paths.manifest(now), m.temp, d.outcomes, m.outcomes)
    requires f(w.tick + 1) == (m.outcomes.fails(6) || listingFails)
    modifies directory
    ensures var b := BackupBytes(w, slot, source, Classify(bytes), f);
            && b.ok == ok && Lists(b.w.backups, directory.files, paths, c)
            && Gone(w.backups, b.w.backups, directory.files, paths)
    ensures Elsewhere(old(directory.files), directory.files, paths, {d.temp, m.temp})
  {
    var record := BackupRecord(now, slot, source, Classify(bytes));
    ghost var was := directory.files;
    hide *;
    WithoutExcess(rs, record);
    BackupBytesIs(w, record, f);
    ok := StoreRecord(directory, paths, c, record, bytes, d, m, rs);
    if !ok || listingFails {
      ok := false;
      return;
    }
    ghost var mid := directory.files;
    var excess := Excess(rs + [record], slot, source);
    DeleteFiles(directory, excess, paths, c, rs + [record]);
    StaleGone(rs + [record], excess, directory.files, paths);
    DeletedElsewhere(was, mid, directory.files, paths, excess, {d.temp, m.temp});
  }

  lemma StoredElsewhere(was: Files, mid: Files, paths: Paths, id: nat, temp: string, temp': string)
    requires SameExcept(was, mid, {paths.data(id), temp} + {paths.manifest(id), temp'})
    ensures Elsewhere(was, mid, paths, {temp, temp'})
  {
  }

  lemma DeletedElsewhere(was: Files, mid: Files, now: Files, paths: Paths, gone: seq<BackupRecord<RawSave>>, staged: set<string>)
    requires Elsewhere(was, mid, paths, staged)
    requires OthersKept(mid, now, paths, gone)
    ensures Elsewhere(was, now, paths, staged)
  {
  }

  // ----- Restoring -----

  lemma ListsElsewhere(rs: seq<BackupRecord<RawSave>>, was: Files, now: Files, paths: Paths, c: Coding, changed: set<string>)
    requires Lists(rs, was, paths, c) && SameExcept(was, now, changed)
    requires forall i :: paths.data(i) !in changed && paths.manifest(i) !in changed
    ensures Lists(rs, now, paths, c)
  {
    hide Classify;
    forall r | r in rs
      ensures Held(now, paths, c, r)
    {
      HeldElsewhere(was, now, paths, c, changed, r);
    }
  }

  lemma LiveElsewhere(was: Files, now: Files, paths: Paths, slot: nat, temp: string, d: Attempt, m: Attempt)
    requires Apart(paths) && Separate(paths, d, m) && Staging(paths, temp) && temp != d.temp && temp != m.temp
    requires Elsewhere(was, now, paths, {d.temp, m.temp})
    ensures forall s :: (paths.live(s) in now <==> paths.live(s) in was)
                     && (paths.live(s) in was ==> now[paths.live(s)] == was[paths.live(s)])
    ensures temp in now <==> temp in was
  {
    assert !Stored(paths, temp);
    forall s
      ensures (paths.live(s) in now <==> paths.live(s) in was)
           && (paths.live(s) in was ==> now[paths.live(s)] == was[paths.live(s)])
    {
      assert !Stored(paths, paths.live(s));
      assert paths.live(s) !in {d.temp, m.temp};
    }
  }

  lemma StoredData(rs: seq<BackupRecord<RawSave>>, files: Files, paths: Paths, c: Coding, record: BackupRecord<RawSave>)
    requires Lists(rs, files, paths, c)
    ensures record in rs ==>
              paths.data(record.id) in files && Classify(files[paths.data(record.id)].bytes) == record.data
  {
    hide Classify;
    if record in rs {
      assert Held(files, paths, c, record);
    }
  }

  lemma LivePlaces(paths: Paths, slot: nat, temp: string)
    requires Apart(paths) && Staging(paths, temp)
    ensures Placed(paths.live, temp)
    ensures forall i :: paths.data(i) !in {paths.live(slot), temp} && paths.manifest(i) !in {paths.live(slot), temp}
  {
  }

  lemma InstalledLists(w: World, slot: nat, bytes: seq<byte>, was: Files, now: Files, l: Attempt, ok: bool, paths: Paths,
                       c: Coding, f: Faults)
    requires Apart(paths) && Staging(paths, l.temp) && Lists(w.backups, was, paths, c) && Shows(w.local, was, paths.live)
    requires Replaced(was, now, paths.live(slot), l.temp, bytes, l.outcomes, ok)
    requires f(w.tick) == FailsBeforeRename(was, paths.live(slot), l.temp, l.outcomes)
    requires f(w.tick + 1) == l.outcomes.fails(6)
    ensures var r := WriteLocal(w, slot, Classify(bytes), f); r.ok == ok && Shows(r.w.local, now, paths.live)
    ensures Lists(w.backups, now, paths, c)
  {
    hide *;
    LivePlaces(paths, slot, l.temp);
    WriteLocalRefined(w, slot, bytes, was, now, l.temp, l.outcomes, ok, paths.live, f);
    ListsElsewhere(w.backups, was, now, paths, c, {paths.live(slot), l.temp});
  }

  /** The last part of a restore: the stored file, if retention has left it, is installed and read back. */
  method InstallStored(directory: Directory, paths: Paths, c: Coding, record: BackupRecord<RawSave>, slot: nat, l: Attempt,
                       readBackFails: bool, ghost w: World, ghost f: Faults)
    returns (ok: bool)
    requires Apart(paths) && Staging(paths, l.temp) && Lists(w.backups, directory.files, paths, c)
    requires Shows(w.local, directory.files, paths.live)
    requires record in w.backups || paths.data(record.id) !in directory.files
    requires f(w.tick) == FailsBeforeRename(directory.files, paths.live(slot), l.temp, l.outcomes)
    requires f(w.tick + 1) == l.outcomes.fails(6)
    modifies directory
    ensures var r := WriteLocal(w, slot, record.data, f);
            && ok == (record in w.backups && r.ok && !readBackFails)
            && Shows(if record in w.backups then r.w.local else w.local, directory.files, paths.live)
            && Lists(w.backups, directory.files, paths, c)
  {
    ghost var was := directory.files;
    assert paths.live(slot) != l.temp;
    hide *;
    StoredData(w.backups, was, paths, c, record);
    if paths.data(record.id) !in directory.files {
      return false;
    }
    var bytes := directory.files[paths.data(record.id)].bytes;
    ghost var moments;
    ok, moments := directory.WriteBytes(paths.live(slot), l.temp, bytes, l.outcomes);
    InstalledLists(w, slot, bytes, was, directory.files, l, ok, paths, c, f);
    ok := ok && !readBackFails;
  }

  ghost predicate RestoreFaults(f: Faults, t: nat, files: Files, paths: Paths, now: nat, slot: nat, d: Attempt, m: Attempt,
                                l: Attempt, retentionFails: bool, readBackFails: bool)
  {
    var backed := paths.live(slot) in files;
    var t' := if backed then t + 2 else t;
    && (backed ==> f(t) == Unlisted(files, paths.data(now), d.temp, paths.manifest(now), m.temp, d.outcomes, m.outcomes)
                   && f(t + 1) == (m.outcomes.fails(6) || retentionFails))
    && f(t') == FailsBeforeRename(files, paths.live(slot), l.temp, l.outcomes)
    && f(t' + 1) == l.outcomes.fails(6) && f(t' + 2) == readBackFails
  }

  function BackedUp(w: World, slot: nat, f: Faults): Step {
    if slot in w.local then BackupBytes(Tick(w), slot, LocalBeforeRestore, w.local[slot], f) else Step(Tick(w), true)
  }

  lemma RestoreRefused(w: World, id: nat, slot: nat, f: Faults)
    ensures f(w.tick) || FindRecord(w.backups, id).None? ==> RestoreLocal(w, id, slot, f) == Step(Tick(w), false)
    ensures Tick(w).local == w.local && Tick(w).backups == w.backups && Tick(w).clock == w.clock && Tick(w).tick == w.tick + 1
    ensures BackedUp(w, slot, f) == if slot in w.local then BackupBytes(Tick(w), slot, LocalBeforeRestore, w.local[slot], f)
                                    else Step(Tick(w), true)
  {
  }

  /** After the destination's backup a restore installs the record it found, unless that backup's
      retention has deleted it. */
  lemma RestoreIs(w: World, record: BackupRecord<RawSave>, id: nat, slot: nat, f: Faults)
    requires Chronological(w.backups, w.clock) && FindRecord(w.backups, id) == Some(record) && !f(w.tick)
    ensures var b := BackedUp(w, slot, f);
            var r, i := RestoreLocal(w, id, slot, f), WriteLocal(b.w, slot, record.data, f);
            && b.w.local == w.local && r.w.backups == b.w.backups
            && record in w.backups && record.id == id
            && (if !b.ok || record !in b.w.backups then !r.ok && r.w.local == w.local
                else r.ok == (i.ok && !f(b.w.tick + 2)) && r.w.local == i.w.local)
  {
    hide BackupBytes, FindRecord, Chronological;
    FoundRecord(w.backups, id);
    if slot in w.local {
      FoundAgain(Tick(w), slot, w.local[slot], record, f);
      BackupEffect(Tick(w), slot, LocalBeforeRestore, w.local[slot], f);
    }
    WriteEffect(BackedUp(w, slot, f).w, slot, record.data, f);
  }

  lemma LiveShown(w: World, files: Files, paths: Paths, slot: nat)
    requires Shows(w.local, files, paths.live)
    ensures slot in w.local <==> paths.live(slot) in files
    ensures slot in w.local ==> w.local[slot] == Classify(files[paths.live(slot)].bytes)
  {
    hide Classify;
  }

  lemma LiveStillShown(local: map<nat, RawSave>, was: Files, now: Files, paths: Paths)
    requires Shows(local, was, paths.live)
    requires forall s :: (paths.live(s) in now <==> paths.live(s) in was)
                      && (paths.live(s) in was ==> now[paths.live(s)] == was[paths.live(s)])
    ensures Shows(local, now, paths.live)
  {
    hide Classify;
  }

  lemma RecordGone(rs: seq<BackupRecord<RawSave>>, kept: seq<BackupRecord<RawSave>>, files: Files, paths: Paths,
                   record: BackupRecord<RawSave>)
    requires Gone(rs, kept, files, paths) && record in rs
    ensures record in kept || paths.data(record.id) !in files
  {
  }

  lemma RestoreTicks(f: Faults, w: World, files: Files, paths: Paths, now: nat, slot: nat, d: Attempt, m: Attempt, l: Attempt,
                     retentionFails: bool, readBackFails: bool)
    requires RestoreFaults(f, w.tick + 1, files, paths, now, slot, d, m, l, retentionFails, readBackFails)
    requires slot in w.local <==> paths.live(slot) in files
    ensures var b := BackedUp(w, slot, f);
            && (slot in w.local ==> f(w.tick + 1) == Unlisted(files, paths.data(now), d.temp, paths.manifest(now), m.temp,
                                                              d.outcomes, m.outcomes)
                                    && f(w.tick + 2) == (m.outcomes.fails(6) || retentionFails))
            && (b.ok ==> f(b.w.tick) == FailsBeforeRename(files, paths.live(slot), l.temp, l.outcomes)
                         && f(b.w.tick + 1) == l.outcomes.fails(6) && f(b.w.tick + 2) == readBackFails)
  {
    hide Unlisted, FailsBeforeRename, Add;
  }

  /** `RestoreLocal` on files: the action reports and leaves what the file operations do, whatever fails,
      also where the destination's own backup has made retention delete the file about to be restored. */
  method RestoreFiles(directory: Directory, paths: Paths, c: Coding, rs: seq<BackupRecord<RawSave>>, now: nat, id: nat,
                      slot: nat, d: Attempt, m: Attempt, l: Attempt, listingFails: bool, retentionFails: bool,
                      readBackFails: bool, ghost w: World, ghost f: Faults)
    returns (ok: bool)
    requires Apart(paths) && Lawful(c) && Separate(paths, d, m) && Staging(paths, l.temp) && l.temp != d.temp && l.temp != m.temp
    requires Chronological(rs, now) && Lists(rs, directory.files, paths, c) && Shows(w.local, directory.files, paths.live)
    requires w.backups == rs && w.clock == now && f(w.tick) == listingFails
    requires RestoreFaults(f, w.tick + 1, directory.files, paths, now, slot, d, m, l, retentionFails, readBackFails)
    modifies directory
    ensures var r := RestoreLocal(w, id, slot, f);
            r.ok == ok && Lists(r.w.backups, directory.files, paths, c) && Shows(r.w.local, directory.files, paths.live)
  {
    hide *;
    RestoreRefused(w, id, slot, f);
    var found := FindRecord(rs, id);
    if listingFails || found.None? {
      return false;
    }
    var record := found.value;
    ghost var was, b := directory.files, BackedUp(w, slot, f);
    RestoreIs(w, record, id, slot, f);
    LiveShown(w, was, paths, slot);
    RestoreTicks(f, w, was, paths, now, slot, d, m, l, retentionFails, readBackFails);
    if paths.live(slot) in directory.files {
      ok := WriteBackup(directory, paths, c, rs, now, slot, LocalBeforeRestore, directory.files[paths.live(slot)].bytes, d, m,
                        retentionFails, Tick(w), f);
      LiveElsewhere(was, directory.files, paths, slot, l.temp, d, m);
      SameStart(was, directory.files, paths.live(slot), l.temp, l.outcomes);
      LiveStillShown(w.local, was, directory.files, paths);
      RecordGone(rs, b.w.backups, directory.files, paths, record);
      if !ok {
        return;
      }
    }
    ok := InstallStored(directory, paths, c, record, slot, l, readBackFails, b.w, f);
  }
}
