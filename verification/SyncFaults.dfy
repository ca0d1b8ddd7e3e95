/** No operation reports success after one of its actions failed. */
module SyncFaults {
  import opened Bytes
  import opened Backups
  import opened SyncEngine
  import opened SyncModel
  import opened SyncMachine
  import opened SyncSafety

  /** None of the actions performed between two moments failed. */
  ghost predicate Clean(f: Faults, from: nat, to: nat) {
    from <= to && forall n :: from <= n < to ==> !f(n)
  }

  lemma BackupClean(w: World, slot: nat, source: BackupSource, data: RawSave, f: Faults)
    ensures w.tick <= BackupBytes(w, slot, source, data, f).w.tick
    ensures BackupBytes(w, slot, source, data, f).ok ==> Clean(f, w.tick, BackupBytes(w, slot, source, data, f).w.tick)
  {
    hide Add;
  }

  lemma RestoreClean(w: World, id: nat, slot: nat, f: Faults)
    ensures RestoreLocal(w, id, slot, f).ok ==> Clean(f, w.tick, RestoreLocal(w, id, slot, f).w.tick)
  {
    hide BackupBytes, FindRecord, Clean;
    var w1, r := Tick(w), RestoreLocal(w, id, slot, f);
    CleanNone(f, w1.tick);
    if r.ok {
      var b := if slot in w.local then BackupFile(w1, slot, LocalBeforeRestore, f) else Step(w1, true);
      if slot in w.local {
        BackupClean(w1, slot, LocalBeforeRestore, w.local[slot], f);
      }
      CleanThree(f, b.w.tick);
      CleanJoin(f, w1.tick, b.w.tick, r.w.tick);
      CleanNext(f, w.tick, r.w.tick);
    }
  }

  lemma PullClean(w: World, st: SyncState, slot: nat, remote: Remote, bytes: Content, f: Faults)
    ensures var p := Pulling(w, st, slot, remote, bytes, f);
            p.outcome == Pulled ==> Clean(f, w.tick, p.w.tick)
  {
    if slot in w.local {
      BackupClean(w, slot, LocalBeforePull, w.local[slot], f);
    }
    hide BackupBytes, RestoreLocal, Upsert;
  }

  lemma PushClean(w: World, st: SyncState, slot: nat, remote: Remote, f: Faults)
    ensures var p := Pushing(w, st, slot, remote, f); p.ok ==> Clean(f, w.tick, p.w.tick)
  {
    var u := RemoteUnchanged(Tick(w), slot, remote, f);
    UnchangedMeans(Tick(w), slot, remote, f);
    BackupClean(u.w, slot, SteamBeforePush, remote.raw, f);
    hide BackupBytes, Upsert, PreparedUpload, RemoteUnchanged;
  }

  lemma PushNewClean(w: World, st: SyncState, slot: nat, name: Name, f: Faults)
    ensures var p := PushingNew(w, st, slot, name, f); p.ok ==> Clean(f, w.tick, p.w.tick)
  {
    hide BackupBytes, Upsert, PreparedUpload;
    if slot in w.local {
      BackupClean(Tick(Tick(w)), slot, LocalFirstSync, w.local[slot], f);
    }
  }

  lemma BackupBothClean(w: World, slot: nat, remote: RawSave, first: BackupSource, second: BackupSource, f: Faults)
    ensures var b := BackingUpBoth(w, slot, remote, first, second, f); b.ok ==> Clean(f, w.tick, b.w.tick)
  {
    if slot in w.local {
      BackupClean(w, slot, first, w.local[slot], f);
      BackupClean(BackupBytes(w, slot, first, w.local[slot], f).w, slot, second, remote, f);
    }
    hide BackupBytes;
  }

  lemma CleanNext(f: Faults, from: nat, to: nat)
    requires !f(from) && Clean(f, from + 1, to)
    ensures Clean(f, from, to)
  {
  }

  lemma CleanJoin(f: Faults, from: nat, mid: nat, to: nat)
    requires Clean(f, from, mid) && Clean(f, mid, to)
    ensures Clean(f, from, to)
  {
  }

  lemma CleanThree(f: Faults, at: nat)
    requires !f(at) && !f(at + 1) && !f(at + 2)
    ensures Clean(f, at, at + 3)
  {
  }

  lemma CleanNone(f: Faults, at: nat)
    ensures Clean(f, at, at)
  {
  }

  lemma ComparingClean(w: World, st: SyncState, save: LocalSave, remote: Remote, content: Content, up: bool, f: Faults)
    ensures var r := Comparing(w, st, save, remote, content, up, f); r.outcome != Failed ==> Clean(f, w.tick, r.w.tick)
  {
    hide Pulling, Pushing, BackingUpBoth, Upsert, BaseOf, Decide, Clean;
    CleanNone(f, w.tick);
    BackupBothClean(w, save.slot, remote.raw, LocalFirstSync, SteamFirstSync, f);
    BackupBothClean(w, save.slot, remote.raw, LocalConflict, SteamConflict, f);
    PushClean(w, st, save.slot, remote, f);
    PullClean(w, st, save.slot, remote, content, f);
  }

  lemma SlotClean(w: World, st: SyncState, save: LocalSave, up: bool, f: Faults)
    ensures var r := SyncingSlot(w, st, save, up, f); r.outcome != Failed ==> Clean(f, w.tick, r.w.tick)
  {
    hide Pulling, Comparing, BackupBytes, BaseOf, Clean;
    var r := SyncingSlot(w, st, save, up, f);
    if save.slot !in w.steam {
      if save.slot in w.local {
        BackupClean(w, save.slot, LocalFirstSync, w.local[save.slot], f);
      }
    } else if r.outcome != Failed {
      var remote := w.steam[save.slot];
      var content := ContentOf(remote.raw).value;
      var w1 := Tick(w);
      CleanNone(f, w1.tick);
      ComparingClean(w1, st, save, remote, content, up, f);
      ComparingClean(w1, Unpinned(st, save.slot), save, remote, content, up, f);
      PullClean(w1, st, save.slot, remote, content, f);
      CleanNext(f, w.tick, r.w.tick);
    }
  }

  lemma {:induction false} SlotsClean(w: World, st: SyncState, saves: seq<LocalSave>, up: bool, f: Faults)
    ensures var r := RunningSlots(w, st, saves, up, f); r.ok ==> Clean(f, w.tick, r.w.tick)
    decreases |saves|
  {
    if saves == [] {
    } else {
      SlotClean(w, st, saves[0], up, f);
      var r := SyncingSlot(w, st, saves[0], up, f);
      hide SyncingSlot;
      if r.outcome != Failed {
        SlotsClean(r.w, r.st, saves[1..], up, f);
      }
    }
  }

  /** A run that reports success had something to do, and every action it performed succeeded. */
  lemma RunClean(w: World, saves: seq<LocalSave>, up: bool, f: Faults)
    ensures var r := RunningSync(w, saves, up, f); r.ok ==> saves != [] && Clean(f, w.tick, r.w.tick)
  {
    SlotsClean(w, w.state, saves, up, f);
    hide RunningSlots;
  }

  lemma SaveClean(w: World, st: SyncState, f: Faults)
    ensures SaveState(w, st, f).ok ==> Clean(f, w.tick, SaveState(w, st, f).w.tick)
  {
  }

  lemma ForcingClean(w: World, slot: nat, useLocal: bool, name: Name, f: Faults)
    ensures Forcing(w, slot, useLocal, name, f).ok ==> Clean(f, w.tick, Forcing(w, slot, useLocal, name, f).w.tick)
  {
    hide BackingUpBoth, Pushing, PushingNew, PreparedUpload, SaveState, Clean;
    var s := Forcing(w, slot, useLocal, name, f);
    var w1, st := Tick(w), w.state;
    if s.ok && slot in w.steam {
      var remote := w.steam[slot];
      var b := BackingUpBoth(w1, slot, remote.raw, LocalBeforeForce, SteamBeforeForce, f);
      BackupBothClean(w1, slot, remote.raw, LocalBeforeForce, SteamBeforeForce, f);
      if useLocal {
        var p := Pushing(b.w, st, slot, remote, f);
        PushClean(b.w, st, slot, remote, f);
        SaveClean(p.w, p.st, f);
        CleanJoin(f, b.w.tick, p.w.tick, s.w.tick);
      } else {
        SaveClean(b.w, st.(pulls := st.pulls[slot := PendingPull(remote.name, Sha1(remote))]), f);
      }
      CleanJoin(f, w1.tick, b.w.tick, s.w.tick);
      CleanNext(f, w.tick, s.w.tick);
    } else if s.ok {
      var p := PushingNew(w1, st, slot, name, f);
      PushNewClean(w1, st, slot, name, f);
      SaveClean(p.w, p.st, f);
      CleanJoin(f, w1.tick, p.w.tick, s.w.tick);
      CleanNext(f, w.tick, s.w.tick);
    }
  }

  lemma QueueingClean(w: World, id: nat, f: Faults)
    ensures QueueingRestore(w, id, f).ok ==> Clean(f, w.tick, QueueingRestore(w, id, f).w.tick)
  {
    hide FindRecord;
  }

  /** So did every action of a successful choice, of a queued and of an applied restore. */
  lemma OperationsClean(w: World, slot: nat, useLocal: bool, name: Name, id: nat, f: Faults)
    ensures Forcing(w, slot, useLocal, name, f).ok ==> Clean(f, w.tick, Forcing(w, slot, useLocal, name, f).w.tick)
    ensures QueueingRestore(w, id, f).ok ==> Clean(f, w.tick, QueueingRestore(w, id, f).w.tick)
    ensures ApplyingRestore(w, f).ok ==> Clean(f, w.tick, ApplyingRestore(w, f).w.tick)
    ensures forall snapshot ::
              var r := ApplyingPending(w, snapshot, f);
              r.ok ==> Clean(f, w.tick, r.w.tick)
  {
    hide Forcing, QueueingRestore, RestoreLocal, Approved, SaveState, Clean;
    ForcingClean(w, slot, useLocal, name, f);
    QueueingClean(w, id, f);
    CleanNone(f, w.tick);
    if Approved(w).Some? {
      RestoreClean(w, Approved(w).value.id, Approved(w).value.slot, f);
      var s := ApplyingRestore(w, f);
      var saved := SaveState(s.w, s.w.state.(restore := None), f);
      SaveClean(s.w, s.w.state.(restore := None), f);
      if s.ok && saved.ok {
        CleanJoin(f, w.tick, s.w.tick, saved.w.tick);
      }
    }
  }

  // ----- Exactly when an operation succeeds -----

  /** The next n + m actions are the next n and the m after them. */
  lemma CleanMore(f: Faults, from: nat, n: nat, m: nat)
    ensures Clean(f, from, from + n + m) <==> Clean(f, from, from + n) && Clean(f, from + n, from + n + m)
    ensures Clean(f, from, from + 1) <==> !f(from)
    ensures Clean(f, from, from + 2) <==> !f(from) && !f(from + 1)
    ensures Clean(f, from, from + 3) <==> !f(from) && !f(from + 1) && !f(from + 2)
  {
  }

  /** A backup is two actions: data and manifest, then what follows its listing. */
  lemma BackupIff(w: World, slot: nat, source: BackupSource, data: RawSave, f: Faults)
    ensures var b := BackupBytes(w, slot, source, data, f);
            && (b.ok <==> Clean(f, w.tick, w.tick + 2))
            && (b.ok ==> b.w == w.(backups := b.w.backups, clock := b.w.clock, tick := w.tick + 2))
  {
    CleanMore(f, w.tick, 0, 2);
    hide Add, Clean;
  }

  lemma BothIff(w: World, slot: nat, remote: RawSave, first: BackupSource, second: BackupSource, f: Faults)
    ensures var b := BackingUpBoth(w, slot, remote, first, second, f);
            && (b.ok <==> slot in w.local && Clean(f, w.tick, w.tick + 4))
            && (b.ok ==> b.w == w.(backups := b.w.backups, clock := b.w.clock, tick := w.tick + 4))
  {
    hide BackupBytes, Clean;
    if slot in w.local {
      BackupIff(w, slot, first, w.local[slot], f);
      BackupIff(BackupBytes(w, slot, first, w.local[slot], f).w, slot, second, remote, f);
      CleanMore(f, w.tick, 2, 2);
    }
  }

  /** A pull is five actions: a backup, a replacement of two, and the read-back. It succeeds exactly when it is
      allowed, there is a live save, and none of them fails; a failure of the backup is reported as such, and a
      later one is rolled back. */
  lemma PullIff(w: World, st: SyncState, slot: nat, remote: Remote, bytes: Content, f: Faults)
    ensures var outcome := Pulling(w, st, slot, remote, bytes, f).outcome;
            && (outcome == Refused <==> !w.replacementAllowed)
            && (outcome == NotBackedUp <==> w.replacementAllowed && (slot !in w.local || !Clean(f, w.tick, w.tick + 2)))
            && (outcome == Pulled <==> w.replacementAllowed && slot in w.local && Clean(f, w.tick, w.tick + 5))
  {
    hide BackupBytes, RestoreLocal, Upsert, Clean;
    if slot in w.local {
      BackupIff(w, slot, LocalBeforePull, w.local[slot], f);
      CleanMore(f, w.tick, 2, 3);
      CleanMore(f, w.tick + 2, 0, 3);
    }
  }

  /** A restore is the listing, the backup of a live save, a replacement of two and the read-back. */
  lemma RestoreIff(w: World, id: nat, slot: nat, f: Faults)
    requires Chronological(w.backups, w.clock)
    ensures RestoreLocal(w, id, slot, f).ok
       <==> && Clean(f, w.tick, w.tick + if slot in w.local then 6 else 4)
            && exists r :: r in w.backups && r.id == id
                           && (slot in w.local ==> Outlives(w.backups, r, slot, LocalBeforeRestore))
  {
    hide Chronological, Outlives, Clean, FindRecord;
    CleanMore(f, w.tick, 1, 3);
    CleanMore(f, w.tick + 1, 0, 3);
    if FindRecord(w.backups, id).None? {
      forall r | r in w.backups && r.id == id
        ensures false
      {
        FindStored(w.backups, r, w.clock);
      }
    } else {
      var record := FindRecord(w.backups, id).value;
      FoundRecord(w.backups, id);
      SameId(w.backups, w.clock, record);
      if slot in w.local {
        RestoreOverIff(w, record, slot, f);
      }
    }
  }

  lemma RestoreOverIff(w: World, record: BackupRecord<RawSave>, slot: nat, f: Faults)
    requires Chronological(w.backups, w.clock) && record in w.backups && slot in w.local
    requires FindRecord(w.backups, record.id) == Some(record)
    ensures RestoreLocal(w, record.id, slot, f).ok
       <==> Clean(f, w.tick, w.tick + 6) && Outlives(w.backups, record, slot, LocalBeforeRestore)
  {
    hide Chronological, Outlives, Clean, FindRecord, BackupBytes, Add;
    var w1, was := Tick(w), w.local[slot];
    var made := BackupRecord(w.clock, slot, LocalBeforeRestore, was);
    BackupIff(w1, slot, LocalBeforeRestore, was, f);
    var b := BackupBytes(w1, slot, LocalBeforeRestore, was, f);
    FoundAgain(w1, slot, was, record, f);
    SameId(w.backups, w.clock, record);
    OutlivesAdd(w.backups, made, record);
    CleanMore(f, w.tick, 1, 5);
    CleanMore(f, w.tick + 1, 2, 3);
    CleanMore(f, w.tick + 3, 0, 3);
    if b.ok {
      BackedUpAdds(w1, slot, was, f);
    }
  }

  lemma BackedUpAdds(w: World, slot: nat, data: RawSave, f: Faults)
    requires BackupBytes(w, slot, LocalBeforeRestore, data, f).ok
    ensures BackupBytes(w, slot, LocalBeforeRestore, data, f).w.backups
         == Add(w.backups, BackupRecord(w.clock, slot, LocalBeforeRestore, data))
  {
    hide Add;
  }

  /** The comparison of a Steam object is one action by listed SHA-1s, and two if it must be downloaded. */
  lemma UnchangedIff(w: World, slot: nat, remote: Remote, f: Faults)
    ensures var u := RemoteUnchanged(w, slot, remote, f);
            var n := if slot in w.steam && remote.hashed && w.steam[slot].hashed then 1 else 2;
            && (u.ok <==> && slot in w.steam && w.steam[slot].name == remote.name && w.steam[slot].raw == remote.raw
                          && Clean(f, w.tick, w.tick + n))
            && (u.ok ==> u.w == w.(tick := w.tick + n))
  {
    CleanMore(f, w.tick, 0, 2);
    hide Clean;
  }

  /** A push is a stable copy, the comparison, a backup of two actions and an upload of two. */
  lemma PushIff(w: World, st: SyncState, slot: nat, remote: Remote, f: Faults)
    ensures var p := Pushing(w, st, slot, remote, f);
            var n := if slot in w.steam && remote.hashed && w.steam[slot].hashed then 6 else 7;
            && (p.ok <==> && PreparedUpload(w, slot).Some?
                          && slot in w.steam && w.steam[slot].name == remote.name && w.steam[slot].raw == remote.raw
                          && Clean(f, w.tick, w.tick + n))
            && (p.ok ==> p.w.tick == w.tick + n)
  {
    hide BackupBytes, Upsert, PreparedUpload, RemoteUnchanged, Clean;
    var u := RemoteUnchanged(Tick(w), slot, remote, f);
    UnchangedIff(Tick(w), slot, remote, f);
    BackupIff(u.w, slot, SteamBeforePush, remote.raw, f);
    var n := if slot in w.steam && remote.hashed && w.steam[slot].hashed then 1 else 2;
    CleanMore(f, w.tick, 1, n + 4);
    CleanMore(f, w.tick + 1, n, 4);
    CleanMore(f, w.tick + 1 + n, 2, 2);
    CleanMore(f, w.tick + 3 + n, 0, 2);
  }

  /** An upload to a slot Steam lacks is a stable copy, a listing, a backup of two actions and an upload of two. */
  lemma PushNewIff(w: World, st: SyncState, slot: nat, name: Name, f: Faults)
    ensures var p := PushingNew(w, st, slot, name, f);
            && (p.ok <==> PreparedUpload(w, slot).Some? && slot !in w.steam && Clean(f, w.tick, w.tick + 6))
            && (p.ok ==> p.w.tick == w.tick + 6)
  {
    hide BackupBytes, Upsert, Clean, ContentOf;
    CleanMore(f, w.tick, 2, 4);
    CleanMore(f, w.tick, 0, 2);
    CleanMore(f, w.tick + 2, 2, 2);
    CleanMore(f, w.tick + 4, 0, 2);
    if slot in w.local {
      BackupIff(Tick(Tick(w)), slot, LocalFirstSync, w.local[slot], f);
    }
  }

  lemma SaveIff(w: World, st: SyncState, f: Faults)
    ensures SaveState(w, st, f).ok <==> Clean(f, w.tick, w.tick + 2)
  {
    CleanMore(f, w.tick, 0, 2);
    hide Clean;
  }

  /** A restore can be queued exactly when its record is stored and holds a valid save and none of the three
      actions fails. */
  lemma QueueingIff(w: World, id: nat, f: Faults)
    ensures QueueingRestore(w, id, f).ok
       <==> && FindRecord(w.backups, id).Some? && ContentOf(FindRecord(w.backups, id).value.data).Some?
            && Clean(f, w.tick, w.tick + 3)
  {
    CleanMore(f, w.tick, 1, 2);
    SaveIff(Tick(w), w.state, f);
    CleanMore(f, w.tick, 0, 3);
    hide FindRecord, Clean, ContentOf;
  }

  lemma ForcingNewIff(w: World, slot: nat, useLocal: bool, name: Name, f: Faults)
    requires !f(w.tick) && PreparedUpload(w, slot).Some? && slot !in w.steam
    ensures Forcing(w, slot, useLocal, name, f).ok <==> useLocal && Clean(f, w.tick, w.tick + 9)
  {
    var p := PushingNew(Tick(w), w.state, slot, name, f);
    assert PreparedUpload(Tick(w), slot) == PreparedUpload(w, slot);
    PushNewIff(Tick(w), w.state, slot, name, f);
    SaveIff(p.w, p.st, f);
    CleanMore(f, w.tick, 1, 8);
    CleanMore(f, w.tick + 1, 6, 2);
    hide PushingNew, SaveState, Clean, PreparedUpload;
  }

  lemma ForcingOldIff(w: World, slot: nat, useLocal: bool, name: Name, f: Faults)
    requires !f(w.tick) && PreparedUpload(w, slot).Some? && slot in w.steam
    ensures Forcing(w, slot, useLocal, name, f).ok
       <==> Clean(f, w.tick, w.tick + if !useLocal then 7 else if w.steam[slot].hashed then 13 else 14)
  {
    var remote := w.steam[slot];
    var b := BackingUpBoth(Tick(w), slot, remote.raw, LocalBeforeForce, SteamBeforeForce, f);
    BothIff(Tick(w), slot, remote.raw, LocalBeforeForce, SteamBeforeForce, f);
    var n := if remote.hashed then 6 else 7;
    CleanMore(f, w.tick, 1, 4 + n + 2);
    CleanMore(f, w.tick + 1, 4, n + 2);
    CleanMore(f, w.tick + 5, n, 2);
    CleanMore(f, w.tick, 1, 6);
    CleanMore(f, w.tick + 1, 4, 2);
    assert slot in w.local;
    assert b.ok ==> PreparedUpload(b.w, slot) == PreparedUpload(w, slot);
    hide BackingUpBoth, Pushing, SaveState, Clean, PreparedUpload;
    if b.ok {
      PushIff(b.w, w.state, slot, remote, f);
      var p := Pushing(b.w, w.state, slot, remote, f);
      SaveIff(p.w, p.st, f);
      SaveIff(b.w, w.state.(pulls := w.state.pulls[slot := PendingPull(remote.name, Sha1(remote))]), f);
    }
  }

  /** A choice succeeds exactly when the live save is valid, the chosen side exists, and none of its actions
      fails: a stable copy, both backups, for the local side the push, and the saving of the state. */
  lemma ForcingIff(w: World, slot: nat, useLocal: bool, name: Name, f: Faults)
    ensures Forcing(w, slot, useLocal, name, f).ok
       <==> && PreparedUpload(w, slot).Some?
            && if slot !in w.steam then useLocal && Clean(f, w.tick, w.tick + 9)
               else if !useLocal then Clean(f, w.tick, w.tick + 7)
               else Clean(f, w.tick, w.tick + if w.steam[slot].hashed then 13 else 14)
  {
    hide Forcing, Clean, PreparedUpload;
    CleanMore(f, w.tick, 1, 0);
    if f(w.tick) || PreparedUpload(w, slot).None? {
      ForcingRefused(w, slot, useLocal, name, f);
    } else if slot !in w.steam {
      ForcingNewIff(w, slot, useLocal, name, f);
    } else {
      ForcingOldIff(w, slot, useLocal, name, f);
    }
  }

  lemma ForcingRefused(w: World, slot: nat, useLocal: bool, name: Name, f: Faults)
    requires f(w.tick) || PreparedUpload(w, slot).None?
    ensures !Forcing(w, slot, useLocal, name, f).ok
    ensures f(w.tick) ==>
              && !Clean(f, w.tick, w.tick + 7) && !Clean(f, w.tick, w.tick + 9)
              && !Clean(f, w.tick, w.tick + 13) && !Clean(f, w.tick, w.tick + 14)
  {
    hide PreparedUpload;
  }
}
