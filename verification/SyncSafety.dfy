/** What each engine operation may change, whatever fails. */
module SyncSafety {
  import opened Bytes
  import opened Backups
  import opened SyncEngine
  import opened SyncModel

  // ----- Invariants -----

  /** Every record is stored under its own name, and no slot has two records. */
  ghost predicate FilesOk(files: map<Name, FileState>) {
    && (forall k :: k in files ==> files[k].remoteName == k && files[k].slot == k.slot)
    && (forall k, k' :: k in files && k' in files && k.slot == k'.slot ==> k == k')
  }

  ghost predicate Saved(rs: seq<BackupRecord<RawSave>>, slot: nat, data: RawSave) {
    exists r :: r in rs && r.slot == slot && r.data == data
  }

  ghost predicate WorldOk(w: World) {
    && Chronological(w.backups, w.clock)
    && (forall s :: s in w.steam ==> w.steam[s].name.slot == s)
  }

  ghost predicate Differs<V>(before: map<nat, V>, after: map<nat, V>, slot: nat) {
    (slot in after) != (slot in before) || (slot in before && after[slot] != before[slot])
  }

  // ----- Records -----

  /** Updating one slot replaces its record and leaves every other slot's record alone. */
  lemma UpsertOneSlot(files: map<Name, FileState>, entry: FileState)
    requires FilesOk(files) && entry.slot == entry.remoteName.slot
    ensures FilesOk(Upsert(files, entry))
    ensures BaseOf(Upsert(files, entry), entry.slot) == Some(entry.base)
    ensures forall s :: s != entry.slot ==> BaseOf(Upsert(files, entry), s) == BaseOf(files, s)
    ensures forall k :: k in files && k.slot != entry.slot ==> k in Upsert(files, entry) && Upsert(files, entry)[k] == files[k]
    ensures forall k :: k in Upsert(files, entry) ==> k == entry.remoteName || (k in files && k.slot != entry.slot)
  {
    var after := Upsert(files, entry);
    assert entry.remoteName in after;
    forall s | s != entry.slot
      ensures BaseOf(after, s) == BaseOf(files, s)
    {
      if k :| k in files && files[k].slot == s {
        assert k in after && after[k] == files[k];
      }
    }
  }

  lemma BaseOfRecord(files: map<Name, FileState>, k: Name)
    requires FilesOk(files) && k in files
    ensures BaseOf(files, k.slot) == Some(files[k].base)
  {
    assert files[k].slot == k.slot;
  }

  // ----- Backups -----

  /** A backup changes nothing but the store, and a successful one stores its data and loses no
      version of another slot or source. */
  lemma BackupEffect(w: World, slot: nat, source: BackupSource, data: RawSave, f: Faults)
    requires Chronological(w.backups, w.clock)
    ensures var b := BackupBytes(w, slot, source, data, f);
            && Chronological(b.w.backups, b.w.clock)
            && b.w == w.(backups := b.w.backups, clock := b.w.clock, tick := b.w.tick)
            && w.clock <= b.w.clock && w.tick < b.w.tick
            && (b.ok ==> BackupRecord(w.clock, slot, source, data) in b.w.backups && w.clock < b.w.clock)
            && (forall r :: r in w.backups && !Matches(r, slot, source) ==> r in b.w.backups)
            && (forall r :: r in b.w.backups ==> r in w.backups || r == BackupRecord(w.clock, slot, source, data))
  {
    var record := BackupRecord(w.clock, slot, source, data);
    AddKeeps(w.backups, record);
    AddChronological(w.backups, record);
    hide Add, Chronological;
  }

  lemma {:induction false} FindStored(rs: seq<BackupRecord<RawSave>>, record: BackupRecord<RawSave>, now: nat)
    requires record in rs && Chronological(rs, now)
    ensures FindRecord(rs, record.id) == Some(record)
  {
    var older, last := rs[..|rs| - 1], rs[|rs| - 1];
    if last == record {
    } else {
      var i :| 0 <= i < |rs| && rs[i] == record;
      assert record == older[i];
      assert Chronological(older, last.id);
      FindStored(older, record, last.id);
    }
  }

  lemma {:induction false} FoundRecord(rs: seq<BackupRecord<RawSave>>, id: nat)
    requires FindRecord(rs, id).Some?
    ensures FindRecord(rs, id).value in rs && FindRecord(rs, id).value.id == id
  {
    if rs[|rs| - 1].id == id {
    } else {
      FoundRecord(rs[..|rs| - 1], id);
      assert forall r :: r in rs[..|rs| - 1] ==> r in rs;
    }
  }

  /** What is found under a stored record's identifier after a backup, if anything, is that record. */
  lemma FoundAgain(w: World, slot: nat, data: RawSave, record: BackupRecord<RawSave>, f: Faults)
    requires Chronological(w.backups, w.clock) && record in w.backups
    ensures var b := BackupBytes(w, slot, LocalBeforeRestore, data, f);
            FindRecord(b.w.backups, record.id) == if record in b.w.backups then Some(record) else None
  {
    hide BackupBytes, FindRecord, Chronological, Matches;
    SameId(w.backups, w.clock, record);
    BackupEffect(w, slot, LocalBeforeRestore, data, f);
    var b := BackupBytes(w, slot, LocalBeforeRestore, data, f);
    if record in b.w.backups {
      FindStored(b.w.backups, record, b.w.clock);
    } else if FindRecord(b.w.backups, record.id).Some? {
      FoundRecord(b.w.backups, record.id);
    }
  }

  lemma SameId(rs: seq<BackupRecord<RawSave>>, now: nat, record: BackupRecord<RawSave>)
    requires Chronological(rs, now) && record in rs
    ensures record.id < now && forall r :: r in rs && r.id == record.id ==> r == record
  {
  }

  // ----- Pulls -----

  /** Restoring a stored version ends with exactly that version, or fails with the file holding either. */
  lemma RestoreEffect(w: World, record: BackupRecord<RawSave>, slot: nat, f: Faults)
    requires Chronological(w.backups, w.clock) && record in w.backups && slot in w.local
    ensures var r := RestoreLocal(w, record.id, slot, f);
            && Chronological(r.w.backups, r.w.clock) && w.clock <= r.w.clock
            && r.w == w.(local := r.w.local, backups := r.w.backups, clock := r.w.clock, tick := r.w.tick)
            && (r.w.local == w.local || r.w.local == w.local[slot := record.data])
            && (r.ok ==> r.w.local == w.local[slot := record.data])
            && (r.w.local != w.local ==> Saved(r.w.backups, slot, w.local[slot]))
            && (forall q :: q in w.backups && !Matches(q, slot, LocalBeforeRestore) ==> q in r.w.backups)
  {
    FindStored(w.backups, record, w.clock);
    BackupEffect(Tick(w), slot, LocalBeforeRestore, w.local[slot], f);
    FoundAgain(Tick(w), slot, w.local[slot], record, f);
    var b := BackupBytes(Tick(w), slot, LocalBeforeRestore, w.local[slot], f);
    if b.ok {
      assert BackupRecord(w.clock, slot, LocalBeforeRestore, w.local[slot]) in b.w.backups;
      assert Saved(b.w.backups, slot, w.local[slot]);
    }
    WriteEffect(b.w, slot, record.data, f);
    hide BackupBytes, WriteLocal, FindRecord, Chronological, Saved, Matches;
  }

  lemma WriteEffect(w: World, slot: nat, data: RawSave, f: Faults)
    ensures var r := WriteLocal(w, slot, data, f);
            && r.w == w.(local := r.w.local, tick := r.w.tick)
            && (r.w.local == w.local || r.w.local == w.local[slot := data])
            && (r.ok ==> r.w.local == w.local[slot := data])
  {
  }

  /** Without faults a restore installs its version exactly when that version outlives the backup the
      restore itself makes first. Otherwise the live save stays and the version is gone. */
  lemma RestoreInstallsIff(w: World, record: BackupRecord<RawSave>, f: Faults)
    requires Chronological(w.backups, w.clock) && record in w.backups && record.slot in w.local
    requires forall n :: w.tick <= n ==> !f(n)
    ensures var r := RestoreLocal(w, record.id, record.slot, f);
            && (r.ok <==> Outlives(w.backups, record, record.slot, LocalBeforeRestore))
            && (r.ok ==> r.w.local == w.local[record.slot := record.data] && record in r.w.backups)
            && (!r.ok ==> r.w.local == w.local && FindRecord(r.w.backups, record.id) == None)
            && Saved(r.w.backups, record.slot, w.local[record.slot])
  {
    var w1, was := Tick(w), w.local[record.slot];
    var made := BackupRecord(w.clock, record.slot, LocalBeforeRestore, was);
    FindStored(w.backups, record, w.clock);
    SameId(w.backups, w.clock, record);
    BackupEffect(w1, record.slot, LocalBeforeRestore, was, f);
    FoundAgain(w1, record.slot, was, record, f);
    OutlivesAdd(w.backups, made, record);
    FaultFreeBackup(w1, record.slot, was, f);
    AddKeeps(w.backups, made);
    assert Saved(Add(w.backups, made), record.slot, was);
    var b := BackupBytes(w1, record.slot, LocalBeforeRestore, was, f);
    FaultFreeWrite(b.w, record.slot, record.data, f);
    hide BackupBytes, WriteLocal, FindRecord, Chronological, Outlives, Add, Saved;
  }

  lemma FaultFreeWrite(w: World, slot: nat, data: RawSave, f: Faults)
    requires forall n :: w.tick <= n ==> !f(n)
    ensures WriteLocal(w, slot, data, f) == Step(w.(local := w.local[slot := data], tick := w.tick + 2), true)
  {
  }

  lemma FaultFreeBackup(w: World, slot: nat, data: RawSave, f: Faults)
    requires forall n :: w.tick <= n ==> !f(n)
    ensures var b := BackupBytes(w, slot, LocalBeforeRestore, data, f);
            b.ok && b.w.backups == Add(w.backups, BackupRecord(w.clock, slot, LocalBeforeRestore, data))
  {
    hide Add;
  }

  /** Only live files, backups and counters differ, and an overwritten file's old version is stored. */
  ghost predicate LocalOnly(w: World, w': World, slot: nat, bytes: Content) {
    && Chronological(w'.backups, w'.clock) && w.clock <= w'.clock
    && w' == w.(local := w'.local, backups := w'.backups, clock := w'.clock, tick := w'.tick)
    && (w'.local == w.local || (slot in w.local && w'.local == w.local[slot := SteamForm(bytes)]))
    && (w'.local != w.local ==> w.replacementAllowed && Saved(w'.backups, slot, w.local[slot]))
  }

  ghost predicate PullOk(w: World, st: SyncState, slot: nat, remote: Remote, bytes: Content, p: Pull) {
    && LocalOnly(w, p.w, slot, bytes)
    && (p.outcome == Pulled ==>
          (&& slot in w.local && p.w.local == w.local[slot := SteamForm(bytes)]
           && p.st == st.(files := Upsert(st.files, FileState(slot, remote.name, bytes, Sha1(remote))))))
    && (p.outcome != Pulled ==> p.st == st)
    && (p.outcome in {Refused, NotBackedUp, RolledBack} ==> p.w.local == w.local)
    && (!w.replacementAllowed ==> p.outcome == Refused && p.w == w)
  }

  lemma RollBackEffect(w: World, w1: World, st: SyncState, slot: nat, remote: Remote, bytes: Content, f: Faults)
    requires w.replacementAllowed && slot in w.local && LocalOnly(w, w1, slot, bytes)
    requires BackupRecord(w.clock, slot, LocalBeforePull, w.local[slot]) in w1.backups
    ensures PullOk(w, st, slot, remote, bytes, RollBack(w1, st, w.clock, slot, f))
  {
    hide RestoreLocal, Upsert, Chronological;
    var was := w.local[slot];
    var record := BackupRecord(w.clock, slot, LocalBeforePull, was);
    RestoreEffect(w1, record, slot, f);
    assert w.local[slot := SteamForm(bytes)][slot := was] == w.local && w.local[slot := was] == w.local;
    var r := RestoreLocal(w1, w.clock, slot, f);
    assert record in r.w.backups;
    assert Saved(r.w.backups, slot, was);
  }

  /** A rollback without faults brings the old save back: making its own backup never deletes the one it
      restores. */
  lemma RollBackRestores(w: World, st: SyncState, was: RawSave, id: nat, slot: nat, f: Faults)
    requires Chronological(w.backups, w.clock) && BackupRecord(id, slot, LocalBeforePull, was) in w.backups
    requires slot in w.local && forall n :: w.tick <= n ==> !f(n)
    ensures var p := RollBack(w, st, id, slot, f);
            p.outcome == RolledBack && p.w.local == w.local[slot := was] && p.st == st
  {
    var record := BackupRecord(id, slot, LocalBeforePull, was);
    RestoreInstallsIff(w, record, f);
    hide RestoreLocal, Chronological, Versions, Newest;
  }

  /** Pull atomicity: success installs exactly the Steam bytes and records them as BASE; a failure
      leaves BASE alone and the complete old save in place, unless the rollback itself failed, and
      then one complete version. What was replaced is in the backups. */
  lemma PullEffect(w: World, st: SyncState, slot: nat, remote: Remote, bytes: Content, f: Faults)
    requires Chronological(w.backups, w.clock)
    ensures PullOk(w, st, slot, remote, bytes, Pulling(w, st, slot, remote, bytes, f))
  {
    if w.replacementAllowed && slot in w.local {
      hide RollBack, Upsert, Chronological, BackupBytes;
      var was := w.local[slot];
      BackupEffect(w, slot, LocalBeforePull, was, f);
      var b := BackupFile(w, slot, LocalBeforePull, f);
      if b.ok {
        var record := BackupRecord(w.clock, slot, LocalBeforePull, was);
        assert Saved(b.w.backups, slot, was);
        var r := WriteLocal(b.w, slot, SteamForm(bytes), f);
        assert LocalOnly(w, r.w, slot, bytes);
        if !r.ok {
          RollBackEffect(w, r.w, st, slot, remote, bytes, f);
        } else if f(r.w.tick) {
          RollBackEffect(w, Tick(r.w), st, slot, remote, bytes, f);
        }
      }
    }
  }

  /** Without faults an allowed pull of an existing file succeeds. */
  lemma PullSucceeds(w: World, st: SyncState, slot: nat, remote: Remote, bytes: Content, f: Faults)
    requires w.replacementAllowed && slot in w.local && forall n :: !f(n)
    ensures Pulling(w, st, slot, remote, bytes, f).outcome == Pulled
  {
  }

  // ----- Pushes -----

  /** A push never touches live files; the Steam object it replaces is in the backups, and what it
      uploads is the canonical form of the live save. */
  ghost predicate PushOk(w: World, st: SyncState, slot: nat, name: Name, p: Push) {
    && Chronological(p.w.backups, p.w.clock) && w.clock <= p.w.clock
    && p.w == w.(steam := p.w.steam, backups := p.w.backups, clock := p.w.clock, tick := p.w.tick)
    && (p.ok || p.w.steam != w.steam ==>
          (&& PreparedUpload(w, slot).Some?
           && p.w.steam == w.steam[slot := Remote(name, SteamForm(PreparedUpload(w, slot).value), true)]
           && (slot in w.steam ==> Saved(p.w.backups, slot, w.steam[slot].raw))))
    && (!p.ok ==> p.st == st)
    && (p.ok ==>
          (&& slot in p.w.steam
           && p.st == st.(files := Upsert(st.files,
                FileState(slot, name, PreparedUpload(w, slot).value, Sha1(p.w.steam[slot]))))))
  }

  /** Whichever way they are compared, a Steam object passes as unchanged only if it is still there under
      its name with exactly the bytes seen before, and without faults it then does pass. */
  lemma UnchangedMeans(w: World, slot: nat, remote: Remote, f: Faults)
    ensures var u := RemoteUnchanged(w, slot, remote, f);
            && u.w == w.(tick := u.w.tick) && w.tick < u.w.tick
            && (u.ok ==> slot in w.steam && w.steam[slot].name == remote.name && w.steam[slot].raw == remote.raw)
            && ((forall n :: !f(n)) ==>
                  (u.ok <==> slot in w.steam && w.steam[slot].name == remote.name && w.steam[slot].raw == remote.raw))
            && (u.ok ==> forall n :: w.tick <= n < u.w.tick ==> !f(n))
  {
  }

  lemma PushEffect(w: World, st: SyncState, slot: nat, remote: Remote, f: Faults)
    requires Chronological(w.backups, w.clock)
    ensures PushOk(w, st, slot, remote.name, Pushing(w, st, slot, remote, f))
  {
    hide Upsert, Chronological, BackupBytes, PreparedUpload;
    var u := RemoteUnchanged(Tick(w), slot, remote, f);
    UnchangedMeans(Tick(w), slot, remote, f);
    BackupEffect(u.w, slot, SteamBeforePush, remote.raw, f);
    var b := BackupBytes(u.w, slot, SteamBeforePush, remote.raw, f);
    assert b.ok ==> Saved(b.w.backups, slot, remote.raw);
    hide RemoteUnchanged;
  }

  /** An object that is gone, renamed or changed since it was compared is never overwritten. */
  lemma ChangedRemoteIsNotOverwritten(w: World, st: SyncState, slot: nat, remote: Remote, name: Name, f: Faults)
    ensures slot !in w.steam || w.steam[slot].name != remote.name || w.steam[slot].raw != remote.raw ==>
              var p := Pushing(w, st, slot, remote, f);
              !p.ok && p.w == w.(tick := p.w.tick) && p.st == st
    ensures slot in w.steam ==>
              var p := PushingNew(w, st, slot, name, f);
              !p.ok && p.w == w.(tick := p.w.tick) && p.st == st
  {
    UnchangedMeans(Tick(w), slot, remote, f);
    hide BackupBytes, Uploading, RemoteUnchanged;
  }

  lemma PushNewEffect(w: World, st: SyncState, slot: nat, name: Name, f: Faults)
    requires Chronological(w.backups, w.clock)
    ensures PushOk(w, st, slot, name, PushingNew(w, st, slot, name, f))
  {
    hide Upsert, Chronological, BackupBytes, PreparedUpload;
    if slot in w.local {
      BackupEffect(Tick(Tick(w)), slot, LocalFirstSync, w.local[slot], f);
    }
  }

  /** Without faults a push of a valid save against an unchanged Steam object succeeds. */
  lemma PushSucceeds(w: World, st: SyncState, slot: nat, remote: Remote, f: Faults)
    requires PreparedUpload(w, slot).Some? && slot in w.steam && w.steam[slot] == remote && forall n :: !f(n)
    ensures Pushing(w, st, slot, remote, f).ok
  {
  }

  lemma BackupBothEffect(w: World, slot: nat, remote: RawSave, first: BackupSource, second: BackupSource, f: Faults)
    requires Chronological(w.backups, w.clock)
    ensures var b := BackingUpBoth(w, slot, remote, first, second, f);
            && Chronological(b.w.backups, b.w.clock) && w.clock <= b.w.clock
            && b.w == w.(backups := b.w.backups, clock := b.w.clock, tick := b.w.tick)
            && (b.ok && first != second ==>
                  slot in w.local && Saved(b.w.backups, slot, w.local[slot]) && Saved(b.w.backups, slot, remote))
  {
    hide Chronological, BackupBytes;
    if slot in w.local {
      BackupEffect(w, slot, first, w.local[slot], f);
      var b := BackupFile(w, slot, first, f);
      if b.ok {
        BackupEffect(b.w, slot, second, remote, f);
        var record := BackupRecord(w.clock, slot, first, w.local[slot]);
        var c := BackupBytes(b.w, slot, second, remote, f);
        if c.ok && first != second {
          assert record in c.w.backups;
          assert BackupRecord(b.w.clock, slot, second, remote) in c.w.backups;
        }
      }
    }
  }

  // ----- One slot of a run -----

  /** The live file is only replaced by the Steam content, while replacement is allowed, with its old
      version stored, and either the user pinned this Steam version or discovery saw BASE there. */
  ghost predicate LocalJustified(w: World, st: SyncState, save: LocalSave, w': World) {
    w'.local != w.local ==>
      && w.replacementAllowed
      && save.slot in w.local && Saved(w'.backups, save.slot, w.local[save.slot])
      && save.slot in w.steam && ContentOf(w.steam[save.slot].raw).Some?
      && w'.local == w.local[save.slot := SteamForm(ContentOf(w.steam[save.slot].raw).value)]
      && (|| BaseOf(st.files, save.slot) == Some(save.content)
          || (save.slot in st.pulls && SameRemote(st.pulls[save.slot], w.steam[save.slot])))
  }

  /** The Steam object is only replaced by an uploading run, by the canonical form of the live save,
      with its old version stored, and it held BASE or the content discovery saw locally. */
  ghost predicate SteamJustified(w: World, st: SyncState, save: LocalSave, allowUpload: bool, w': World) {
    w'.steam != w.steam ==>
      && allowUpload
      && save.slot in w.steam && Saved(w'.backups, save.slot, w.steam[save.slot].raw)
      && PreparedUpload(w, save.slot).Some?
      && w'.steam == w.steam[save.slot :=
           Remote(w.steam[save.slot].name, SteamForm(PreparedUpload(w, save.slot).value), true)]
      && ContentOf(w.steam[save.slot].raw).Some?
      && (|| BaseOf(st.files, save.slot) == ContentOf(w.steam[save.slot].raw)
          || ContentOf(w.steam[save.slot].raw) == Some(save.content))
  }

  /** A recorded BASE is on Steam now, and is on the device now or was there when discovery looked. */
  ghost predicate BaseWitnessed(st: SyncState, save: LocalSave, w': World, st': SyncState) {
    st'.files != st.files ==>
      && save.slot in w'.steam
      && exists sha1, base {:trigger FileState(save.slot, w'.steam[save.slot].name, base, sha1)} ::
           && st'.files == Upsert(st.files, FileState(save.slot, w'.steam[save.slot].name, base, sha1))
           && ContentOf(w'.steam[save.slot].raw) == Some(base)
           && (base == save.content || PreparedUpload(w', save.slot) == Some(base))
  }

  ghost predicate OnlyPullsDropped(st: SyncState, save: LocalSave, st': SyncState) {
    && st' == st.(files := st'.files, pulls := st'.pulls)
    && (st'.pulls == st.pulls || st'.pulls == Unpinned(st, save.slot).pulls)
  }

  ghost predicate SlotOk(w: World, st: SyncState, save: LocalSave, allowUpload: bool, r: SlotResult) {
    && Chronological(r.w.backups, r.w.clock) && w.clock <= r.w.clock
    && r.w == w.(local := r.w.local, steam := r.w.steam, backups := r.w.backups, clock := r.w.clock, tick := r.w.tick)
    && LocalJustified(w, st, save, r.w)
    && SteamJustified(w, st, save, allowUpload, r.w)
    && BaseWitnessed(st, save, r.w, r.st)
    && OnlyPullsDropped(st, save, r.st)
    && (r.w.local == w.local || r.w.steam == w.steam)
  }

  lemma PushSlotOk(w: World, st: SyncState, save: LocalSave, remote: Remote, f: Faults)
    requires Chronological(w.backups, w.clock) && save.slot in w.steam && w.steam[save.slot] == remote
    requires ContentOf(remote.raw).Some?
    requires BaseOf(st.files, save.slot) == ContentOf(remote.raw) || ContentOf(remote.raw) == Some(save.content)
    ensures SlotOk(w, st, save, true, OfPush(Pushing(w, st, save.slot, remote, f)))
  {
    hide Pushing, Upsert, Chronological, BaseOf, ContentOf;
    PushEffect(w, st, save.slot, remote, f);
    var p := Pushing(w, st, save.slot, remote, f);
    if p.ok {
      SteamFormContent(PreparedUpload(w, save.slot).value);
      var base := PreparedUpload(w, save.slot).value;
      var sha1 := Sha1(p.w.steam[save.slot]);
      assert p.st.files == Upsert(st.files, FileState(save.slot, p.w.steam[save.slot].name, base, sha1));
    }
  }

  lemma SteamFormContent(c: Content)
    ensures ContentOf(SteamForm(c)) == Some(c)
  {
  }

  lemma PullSlotOk(w: World, st: SyncState, save: LocalSave, remote: Remote, content: Content, allowUpload: bool, f: Faults)
    requires Chronological(w.backups, w.clock) && save.slot in w.steam && w.steam[save.slot] == remote
    requires ContentOf(remote.raw) == Some(content)
    requires BaseOf(st.files, save.slot) == Some(save.content)
          || (save.slot in st.pulls && SameRemote(st.pulls[save.slot], remote))
    ensures var p := Pulling(w, st, save.slot, remote, content, f);
            SlotOk(w, st, save, allowUpload, SlotResult(p.w, p.st, Failed))
  {
    hide Pulling, Upsert, Chronological, BaseOf, ContentOf;
    PullEffect(w, st, save.slot, remote, content, f);
    SteamFormContent(content);
    var p := Pulling(w, st, save.slot, remote, content, f);
    if p.outcome == Pulled {
      assert PreparedUpload(p.w, save.slot) == Some(content);
      assert p.st.files == Upsert(st.files, FileState(save.slot, p.w.steam[save.slot].name, content, Sha1(remote)));
    }
  }

  lemma ComparingOk(w: World, st: SyncState, save: LocalSave, remote: Remote, content: Content,
                    allowUpload: bool, f: Faults)
    requires Chronological(w.backups, w.clock) && save.slot in w.steam && w.steam[save.slot] == remote
    requires ContentOf(remote.raw) == Some(content)
    ensures SlotOk(w, st, save, allowUpload, Comparing(w, st, save, remote, content, allowUpload, f))
  {
    hide Pulling, Pushing, BackingUpBoth, Upsert, Chronological, BaseOf, ContentOf, Decide;
    DecideSafe(BaseOf(st.files, save.slot), save.content, content);
    if Decide(BaseOf(st.files, save.slot), save.content, content) == DownloadRemote {
      PullSlotOk(w, st, save, remote, content, allowUpload, f);
    } else if BaseOf(st.files, save.slot) == Some(content) || save.content == content {
      PushSlotOk(w, st, save, remote, f);
      assert Upsert(st.files, FileState(save.slot, remote.name, save.content, Sha1(remote)))
          == Upsert(st.files, FileState(save.slot, w.steam[save.slot].name, save.content, Sha1(remote)));
    } else {
      BackupBothEffect(w, save.slot, remote.raw, LocalFirstSync, SteamFirstSync, f);
      BackupBothEffect(w, save.slot, remote.raw, LocalConflict, SteamConflict, f);
    }
  }

  /** No silent loss, one slot at a time: whatever fails, a slot's step keeps to the justifications. */
  lemma SyncingSlotOk(w: World, st: SyncState, save: LocalSave, allowUpload: bool, f: Faults)
    requires Chronological(w.backups, w.clock)
    ensures SlotOk(w, st, save, allowUpload, SyncingSlot(w, st, save, allowUpload, f))
  {
    hide Pulling, Comparing, BackupBytes, Upsert, Chronological, BaseOf, ContentOf;
    if save.slot !in w.steam {
      if save.slot in w.local {
        BackupEffect(w, save.slot, LocalFirstSync, w.local[save.slot], f);
      }
    } else if !f(w.tick) {
      var remote := w.steam[save.slot];
      if ContentOf(remote.raw).None? {
        BackupEffect(Tick(w), save.slot, SteamInvalid, remote.raw, f);
      } else {
        var content := ContentOf(remote.raw).value;
        ComparingOk(Tick(w), st, save, remote, content, allowUpload, f);
        if save.slot in st.pulls {
          if SameRemote(st.pulls[save.slot], remote) {
            PullSlotOk(Tick(w), st, save, remote, content, allowUpload, f);
          } else {
            ComparingOk(Tick(w), Unpinned(st, save.slot), save, remote, content, allowUpload, f);
          }
        }
      }
    }
  }

  lemma NamesKept(w: World, st: SyncState, save: LocalSave, up: bool, r: SlotResult)
    requires WorldOk(w) && SlotOk(w, st, save, up, r)
    ensures WorldOk(r.w)
  {
    hide Chronological, LocalJustified, BaseWitnessed, Saved, PreparedUpload, ContentOf;
  }
}
