/** The engine as it runs: operations that update its fields step by step, proved to do what their
    functions on worlds say. */
module Engine {
  import opened Bytes
  import opened Backups
  import opened SyncEngine
  import opened SyncModel
  import opened SyncSafety
  import opened SyncMachine
  import opened SyncRuns
  import Recovery = SyncRecovery

  /** Removing every record of the entry's slot and storing the entry. */
  method UpsertState(st: SyncState, entry: FileState) returns (st': SyncState)
    ensures st' == st.(files := Upsert(st.files, entry))
  {
    var files := st.files;
    var stale := set k | k in files && files[k].slot == entry.slot;
    ghost var all := stale;
    while stale != {}
      invariant stale <= all
      invariant files == map k | k in st.files && (k !in all || k in stale) :: st.files[k]
    {
      var key :| key in stale;
      files := files - {key};
      stale := stale - {key};
    }
    st' := st.(files := files[entry.remoteName := entry]);
    assert files == map k | k in st.files && st.files[k].slot != entry.slot :: st.files[k];
  }

  /** The BASE of the slot's record, if it has one. */
  method FindBase(files: map<Name, FileState>, slot: nat) returns (base: Option<Content>)
    requires FilesOk(files)
    ensures base == BaseOf(files, slot)
  {
    var found := set k | k in files && files[k].slot == slot;
    if found == {} {
      assert forall k :: k in files ==> k in found || files[k].slot != slot;
      return None;
    }
    var k :| k in found;
    BaseOfRecord(files, k);
    base := Some(files[k].base);
  }

  class Engine {
    const faults: Faults
    const manager: BackupManager<RawSave>
    var local: map<nat, RawSave>
    var steam: map<nat, Remote>
    var state: SyncState
    var replacementAllowed: bool
    var snapshot: Option<seq<LocalSave>>
    var tick: nat

    constructor (faults: Faults, local: map<nat, RawSave>, steam: map<nat, Remote>, state: SyncState)
      ensures Valid() && fresh(manager) && this.faults == faults
      ensures View() == World(local, steam, state, [], 0, false, 0)
    {
      this.faults := faults;
      manager := new BackupManager();
      this.local, this.steam, this.state := local, steam, state;
      replacementAllowed, snapshot, tick := false, None, 0;
    }

    ghost predicate Valid()
      reads this, manager
    {
      manager.Valid()
    }

    ghost function View(): World
      reads this, manager
    {
      World(local, steam, state, manager.records, manager.now, replacementAllowed, tick)
    }

    method Fails() returns (failed: bool)
      modifies this`tick
      ensures failed == faults(old(tick)) && tick == old(tick) + 1
    {
      failed := faults(tick);
      tick := tick + 1;
    }

    // ----- Files -----

    method BackupBytes(slot: nat, source: BackupSource, data: RawSave) returns (ok: bool)
      requires Valid()
      modifies this`tick, manager
      ensures Valid() && Step(View(), ok) == SyncModel.BackupBytes(old(View()), slot, source, data, faults)
    {
      hide Chronological, Keep;
      var failed := Fails();
      if failed {
        return false;
      }
      var record := manager.Store(data, slot, source);
      failed := Fails();
      if failed {
        return false;
      }
      manager.ApplyRetention(slot, source);
      ok := true;
    }

    method BackupFile(slot: nat, source: BackupSource) returns (ok: bool)
      requires Valid()
      modifies this`tick, manager
      ensures Valid() && Step(View(), ok) == SyncModel.BackupFile(old(View()), slot, source, faults)
    {
      hide SyncModel.BackupBytes;
      if slot !in local {
        return false;
      }
      ok := BackupBytes(slot, source, local[slot]);
    }

    method WriteLocal(slot: nat, data: RawSave) returns (ok: bool)
      modifies this`tick, this`local
      ensures Step(View(), ok) == SyncModel.WriteLocal(old(View()), slot, data, faults)
    {
      var failed := Fails();
      if failed {
        return false;
      }
      local := local[slot := data];
      failed := Fails();
      ok := !failed;
    }

    /** Searches the list, newest first. */
    method Find(id: nat) returns (record: Option<BackupRecord<RawSave>>)
      ensures record == FindRecord(manager.records, id)
    {
      var k := |manager.records|;
      assert manager.records[..k] == manager.records;
      while k > 0
        invariant 0 <= k <= |manager.records|
        invariant FindRecord(manager.records, id) == FindRecord(manager.records[..k], id)
      {
        k := k - 1;
        assert manager.records[..k + 1][..k] == manager.records[..k];
        if manager.records[k].id == id {
          return Some(manager.records[k]);
        }
      }
      record := None;
    }

    method RestoreLocal(id: nat, slot: nat) returns (ok: bool)
      requires Valid()
      modifies this`tick, this`local, manager
      ensures Valid() && Step(View(), ok) == SyncModel.RestoreLocal(old(View()), id, slot, faults)
    {
      hide SyncModel.BackupFile, SyncModel.WriteLocal, FindRecord;
      var failed := Fails();
      if failed {
        return false;
      }
      var record := Find(id);
      if record.None? {
        return false;
      }
      if slot in local {
        ok := BackupFile(slot, LocalBeforeRestore);
        if !ok {
          return;
        }
      }
      record := Find(id);
      if record.None? {
        return false;
      }
      ok := WriteLocal(slot, record.value.data);
      if ok {
        failed := Fails();
        ok := !failed;
      }
    }

    method SaveState(st: SyncState) returns (ok: bool)
      modifies this`tick, this`state
      ensures Step(View(), ok) == SyncModel.SaveState(old(View()), st, faults)
    {
      var failed := Fails();
      if failed {
        return false;
      }
      state := st;
      failed := Fails();
      ok := !failed;
    }

    // ----- Transfers -----

    method RollBack(id: nat, slot: nat) returns (outcome: PullOutcome)
      requires Valid()
      modifies this`tick, this`local, manager
      ensures Valid()
      ensures forall st :: Pull(View(), st, outcome) == SyncModel.RollBack(old(View()), st, id, slot, faults)
    {
      hide SyncModel.RestoreLocal;
      var ok := RestoreLocal(id, slot);
      outcome := if ok then RolledBack else RollbackFailed;
    }

    method PullOne(st: SyncState, slot: nat, remote: Remote, bytes: Content) returns (st': SyncState, outcome: PullOutcome)
      requires Valid()
      modifies this`tick, this`local, manager
      ensures Valid() && Pull(View(), st', outcome) == Pulling(old(View()), st, slot, remote, bytes, faults)
      ensures PullOk(old(View()), st, slot, remote, bytes, Pull(View(), st', outcome))
    {
      PullEffect(View(), st, slot, remote, bytes, faults);
      hide SyncModel.BackupFile, SyncModel.WriteLocal, SyncModel.RollBack, Upsert, PullOk, Chronological;
      st' := st;
      if !replacementAllowed {
        return st, Refused;
      }
      var backup := manager.now;
      var ok := BackupFile(slot, LocalBeforePull);
      if !ok {
        return st, NotBackedUp;
      }
      ok := WriteLocal(slot, SteamForm(bytes));
      if !ok {
        outcome := RollBack(backup, slot);
        return;
      }
      var unverified := Fails();
      if unverified {
        outcome := RollBack(backup, slot);
        return;
      }
      st' := UpsertState(st, FileState(slot, remote.name, bytes, Sha1(remote)));
      outcome := Pulled;
    }

    method Upload(st: SyncState, slot: nat, name: Name, content: Content) returns (st': SyncState, ok: bool)
      modifies this`tick, this`steam
      ensures Push(View(), st', ok) == Uploading(old(View()), st, slot, name, content, faults)
    {
      hide Upsert;
      var failed := Fails();
      if failed {
        return st, false;
      }
      steam := steam[slot := Remote(name, SteamForm(content), true)];
      failed := Fails();
      if failed {
        return st, false;
      }
      st' := UpsertState(st, FileState(slot, name, content, Sha1(steam[slot])));
      ok := true;
    }

    method PrepareUpload(slot: nat) returns (content: Option<Content>)
      modifies this`tick
      ensures tick == old(tick) + 1
      ensures content == if faults(old(tick)) then None else PreparedUpload(old(View()), slot)
    {
      var failed := Fails();
      if failed || slot !in local {
        return None;
      }
      content := ContentOf(local[slot]);
    }

    method AssertRemoteUnchanged(slot: nat, remote: Remote) returns (ok: bool)
      modifies this`tick
      ensures Step(View(), ok) == RemoteUnchanged(old(View()), slot, remote, faults)
      ensures ok ==> slot in steam && steam[slot].name == remote.name && steam[slot].raw == remote.raw
      ensures (forall n :: !faults(n)) ==>
                (ok <==> slot in steam && steam[slot].name == remote.name && steam[slot].raw == remote.raw)
    {
      UnchangedMeans(View(), slot, remote, faults);
      var failed := Fails();
      if failed || slot !in steam || steam[slot].name != remote.name {
        return false;
      }
      var before, now := Sha1(remote), Sha1(steam[slot]);
      if before.Some? && now.Some? {
        return before.value == now.value;
      }
      failed := Fails();
      ok := !failed && steam[slot].raw == remote.raw;
    }

    method PushOne(st: SyncState, slot: nat, remote: Remote) returns (st': SyncState, ok: bool)
      requires Valid()
      modifies this`tick, this`steam, manager
      ensures Valid() && Push(View(), st', ok) == Pushing(old(View()), st, slot, remote, faults)
      ensures PushOk(old(View()), st, slot, remote.name, Push(View(), st', ok))
    {
      PushEffect(View(), st, slot, remote, faults);
      hide SyncModel.BackupBytes, Uploading, PreparedUpload, RemoteUnchanged, PushOk, Chronological, Upsert;
      st' := st;
      ghost var w := View();
      var content := PrepareUpload(slot);
      assert View() == Tick(w);
      if content.None? {
        return st, false;
      }
      ok := AssertRemoteUnchanged(slot, remote);
      assert View() == RemoteUnchanged(Tick(w), slot, remote, faults).w;
      if !ok {
        return;
      }
      ok := BackupBytes(slot, SteamBeforePush, remote.raw);
      if !ok {
        return;
      }
      st', ok := Upload(st, slot, remote.name, content.value);
    }

    method AssertAbsent(slot: nat) returns (ok: bool)
      modifies this`tick
      ensures tick == old(tick) + 1
      ensures ok <==> !faults(old(tick)) && slot !in steam
    {
      var failed := Fails();
      ok := !failed && slot !in steam;
    }

    method PushNew(st: SyncState, slot: nat, name: Name) returns (st': SyncState, ok: bool)
      requires Valid()
      modifies this`tick, this`steam, manager
      ensures Valid() && Push(View(), st', ok) == PushingNew(old(View()), st, slot, name, faults)
      ensures PushOk(old(View()), st, slot, name, Push(View(), st', ok))
    {
      PushNewEffect(View(), st, slot, name, faults);
      hide SyncModel.BackupFile, Uploading, PreparedUpload, PushOk, Chronological, Upsert;
      st' := st;
      ghost var w := View();
      var content := PrepareUpload(slot);
      assert View() == Tick(w);
      if content.None? {
        return st, false;
      }
      ok := AssertAbsent(slot);
      assert View() == Tick(Tick(w));
      if !ok {
        return;
      }
      ok := BackupFile(slot, LocalFirstSync);
      if !ok {
        return;
      }
      st', ok := Upload(st, slot, name, content.value);
    }

    method BackupBoth(slot: nat, remote: RawSave, first: BackupSource, second: BackupSource) returns (ok: bool)
      requires Valid()
      modifies this`tick, manager
      ensures Valid() && Step(View(), ok) == BackingUpBoth(old(View()), slot, remote, first, second, faults)
    {
      hide SyncModel.BackupFile, SyncModel.BackupBytes, Chronological;
      ok := BackupFile(slot, first);
      if !ok {
        return;
      }
      ok := BackupBytes(slot, second, remote);
    }

    // ----- A run -----

    method PushSlot(st: SyncState, slot: nat, remote: Remote) returns (st': SyncState, outcome: Outcome)
      requires Valid()
      modifies this`tick, this`steam, manager
      ensures Valid() && SlotResult(View(), st', outcome) == OfPush(Pushing(old(View()), st, slot, remote, faults))
    {
      hide Pushing;
      var ok: bool;
      st', ok := PushOne(st, slot, remote);
      outcome := if ok then Settled else Failed;
    }

    method Compare(st: SyncState, save: LocalSave, remote: Remote, content: Content, allowUpload: bool)
      returns (st': SyncState, outcome: Outcome)
      requires Valid() && FilesOk(st.files)
      modifies this`tick, this`local, this`steam, manager
      ensures Valid()
      ensures SlotResult(View(), st', outcome) == Comparing(old(View()), st, save, remote, content, allowUpload, faults)
    {
      hide Pushing, Pulling, BackingUpBoth, Upsert, BaseOf, FilesOk, Decide;
      var repair := remote.raw.IosForm?;
      var base := FindBase(st.files, save.slot);
      st' := st;
      match Decide(base, save.content, content)
      case Unchanged =>
        if !repair {
          outcome := Settled;
        } else if allowUpload {
          st', outcome := PushSlot(st, save.slot, remote);
        } else {
          outcome := UploadWaiting;
        }
      case Converged =>
        if repair && allowUpload {
          st', outcome := PushSlot(st, save.slot, remote);
        } else {
          st' := UpsertState(st, FileState(save.slot, remote.name, save.content, Sha1(remote)));
          outcome := if repair then UploadWaiting else Settled;
        }
      case UploadLocal =>
        if allowUpload {
          st', outcome := PushSlot(st, save.slot, remote);
        } else {
          outcome := UploadWaiting;
        }
      case DownloadRemote =>
        if replacementAllowed {
          var pulled: PullOutcome;
          st', pulled := PullOne(st, save.slot, remote, content);
          outcome := if pulled == Pulled then Settled else Failed;
        } else {
          outcome := ChoicePending(RestartRequired);
        }
      case FirstSyncChoiceRequired =>
        var ok := BackupBoth(save.slot, remote.raw, LocalFirstSync, SteamFirstSync);
        outcome := if ok then ChoicePending(FirstSync) else Failed;
      case Conflict =>
        var ok := BackupBoth(save.slot, remote.raw, LocalConflict, SteamConflict);
        outcome := if ok then ChoicePending(TrueConflict) else Failed;
    }

    method SyncSlot(st: SyncState, save: LocalSave, allowUpload: bool) returns (st': SyncState, outcome: Outcome)
      requires Valid() && FilesOk(st.files)
      modifies this`tick, this`local, this`steam, manager
      ensures Valid() && state == old(state)
      ensures SlotResult(View(), st', outcome) == SyncingSlot(old(View()), st, save, allowUpload, faults)
      ensures SlotOk(old(View()), st, save, allowUpload, SlotResult(View(), st', outcome))
    {
      SyncingSlotOk(View(), st, save, allowUpload, faults);
      hide SlotOk, Chronological, Pulling, Comparing, SyncModel.BackupBytes, SyncModel.BackupFile, FilesOk, ContentOf;
      st' := st;
      if save.slot !in steam {
        var ok := BackupFile(save.slot, LocalFirstSync);
        outcome := if ok then ChoicePending(RemoteMissing) else Failed;
        return;
      }
      var failed := Fails();
      if failed {
        return st, Failed;
      }
      var remote := steam[save.slot];
      var content := ContentOf(remote.raw);
      if content.None? {
        var _ := BackupBytes(save.slot, SteamInvalid, remote.raw);
        return st, Failed;
      }
      if save.slot in st.pulls {
        var same := SameRemote(st.pulls[save.slot], remote);
        if same && replacementAllowed {
          var pulled: PullOutcome;
          st', pulled := PullOne(st, save.slot, remote, content.value);
          if pulled == Pulled {
            return Unpinned(st', save.slot), Settled;
          }
          return st', Failed;
        }
        if same {
          return st, ChoicePending(RestartRequired);
        }
        st' := Unpinned(st, save.slot);
      }
      st', outcome := Compare(st', save, remote, content.value, allowUpload);
    }

    /** A whole run: every slot in turn, the state saved only at the end. */
    method RunSync(saves: seq<LocalSave>, allowUpload: bool) returns (pending: map<nat, ChoiceKind>, waiting: nat, ok: bool)
      requires Valid() && Recovery.Ready(View(), state) && UniqueSlots(saves)
      modifies this, manager
      ensures Valid()
      ensures var r := RunningSync(old(View()), saves, allowUpload, faults);
              && View() == r.w && ok == r.ok
              && (ok ==> pending == r.pending && waiting == r.waiting)
    {
      hide SyncingSlot, Recovery.Ready, SyncModel.SaveState, Continues, FilesOk, Chronological;
      pending, waiting := map[], 0;
      if saves == [] {
        return pending, waiting, false;
      }
      var st := state;
      ghost var total := RunningSlots(View(), st, saves, allowUpload, faults);
      NothingDone(total);
      assert saves[0..] == saves;
      for i := 0 to |saves|
        invariant Valid() && Recovery.Ready(View(), st)
        invariant forall s :: s in pending ==> exists j :: 0 <= j < i && saves[j].slot == s
        invariant Continues(total, pending, waiting, RunningSlots(View(), st, saves[i..], allowUpload, faults))
      {
        RunStep(View(), st, saves[i..], allowUpload, faults, total, pending, waiting);
        assert saves[i..][0] == saves[i] && saves[i..][1..] == saves[i + 1..];
        var outcome: Outcome;
        st, outcome := SyncSlot(st, saves[i], allowUpload);
        if outcome == Failed {
          return pending, waiting, false;
        }
        match outcome
        case ChoicePending(kind) => pending := pending[saves[i].slot := kind];
        case UploadWaiting => waiting := waiting + 1;
        case _ =>
      }
      assert saves[|saves|..] == [];
      AllDone(View(), st, allowUpload, faults, total, pending, waiting);
      ok := SaveState(st);
    }

    // ----- Operations outside a run -----

    /** Choosing one side of a slot. */
    method ForceSlot(slot: nat, useLocal: bool, name: Name) returns (ok: bool)
      requires Valid()
      modifies this, manager
      ensures Valid() && Step(View(), ok) == Forcing(old(View()), slot, useLocal, name, faults)
      ensures old(WorldOk(View())) && name.slot == slot ==> ForceEffect(old(View()), slot, useLocal, View())
    {
      if WorldOk(View()) && name.slot == slot {
        ForcingEffect(View(), slot, useLocal, name, faults);
      }
      hide ForceEffect, WorldOk, BackingUpBoth, Pushing, PushingNew, SyncModel.SaveState, PreparedUpload, Chronological;
      ghost var w := View();
      var found := PrepareUpload(slot);
      assert View() == Tick(w);
      if found.None? {
        return false;
      }
      var st := state;
      if slot in steam {
        var remote := steam[slot];
        ok := BackupBoth(slot, remote.raw, LocalBeforeForce, SteamBeforeForce);
        if !ok {
          return;
        }
        if useLocal {
          st, ok := PushOne(st, slot, remote);
          if !ok {
            return;
          }
        } else {
          st := st.(pulls := st.pulls[slot := PendingPull(remote.name, Sha1(remote))]);
        }
      } else if useLocal {
        st, ok := PushNew(st, slot, name);
        if !ok {
          return;
        }
      } else {
        return false;
      }
      ok := SaveState(st);
    }

    /** A changed account clears every BASE record and queued pull. */
    method BindStateToAccount(account: nat) returns (ok: bool)
      modifies this`tick, this`state
      ensures Step(View(), ok) == SyncModel.SaveState(old(View()), Bound(old(state), account), faults)
    {
      var st := state;
      if st.account.Some? && st.account.value != account {
        st := st.(files := map[]);
        st := st.(pulls := map[]);
      }
      st := st.(account := Some(account));
      ok := SaveState(st);
    }

    /** Installing the queued restore, if its backup is still the approved one and the window is open. */
    method InstallRestore(p: PendingRestore) returns (ok: bool)
      requires Valid() && state.restore == Some(p)
      modifies this`tick, this`local, manager
      ensures Valid() && Step(View(), ok) == ApplyingRestore(old(View()), faults)
      ensures ok ==> ContentOf(p.expected).Some?
    {
      hide SyncModel.RestoreLocal, FindRecord, ContentOf, Chronological;
      var record := Find(p.id);
      if record.None? || record.value.slot != p.slot || record.value.data != p.expected {
        return false;
      }
      if ContentOf(p.expected).None? || p.slot !in local || !replacementAllowed {
        return false;
      }
      ok := RestoreLocal(p.id, p.slot);
    }

    /** The prelaunch step: install, refresh the prelaunch snapshot, empty the queue. */
    method ApplyPendingRestore() returns (ok: bool)
      requires Valid()
      modifies this, manager
      ensures Valid()
      ensures Restored(View(), snapshot, ok) == ApplyingPending(old(View()), old(snapshot), faults)
      ensures SnapshotOk(old(View()), old(snapshot), snapshot, ApplyingRestore(old(View()), faults).ok)
    {
      SnapshotRefreshed(View(), snapshot, faults);
      hide SnapshotOk, ApplyingRestore, SyncModel.SaveState, ContentOf, Chronological;
      if state.restore.None? {
        return true;
      }
      var p := state.restore.value;
      ok := InstallRestore(p);
      if !ok {
        return;
      }
      var saves: seq<LocalSave> := [];
      if snapshot.Some? {
        saves := WithoutSlot(snapshot.value, p.slot);
      }
      snapshot := Some(saves + [LocalSave(p.slot, ContentOf(p.expected).value)]);
      ok := SaveState(state.(restore := None));
    }
  }

  method WithoutSlot(saves: seq<LocalSave>, slot: nat) returns (kept: seq<LocalSave>)
    ensures kept == Others(saves, slot)
  {
    kept := [];
    for i := 0 to |saves|
      invariant Others(saves, slot) == kept + Others(saves[i..], slot)
    {
      if saves[i].slot != slot {
        kept := kept + [saves[i]];
      }
    }
  }

  /** What the slots so far and the slots left over make together. */
  ghost predicate Continues(total: RunResult, pending: map<nat, ChoiceKind>, waiting: nat, rest: RunResult) {
    && total.w == rest.w && total.st == rest.st && total.ok == rest.ok
    && (total.ok ==> total.waiting == waiting + rest.waiting && total.pending == rest.pending + pending)
  }

  lemma NothingDone(total: RunResult)
    ensures Continues(total, map[], 0, total)
  {
    assert total.pending + map[] == total.pending;
  }

  lemma AllDone(w: World, st: SyncState, allowUpload: bool, f: Faults, total: RunResult,
                pending: map<nat, ChoiceKind>, waiting: nat)
    requires Continues(total, pending, waiting, RunningSlots(w, st, [], allowUpload, f))
    ensures total == RunResult(w, st, pending, waiting, true)
  {
    assert map[] + pending == pending;
  }

  lemma NothingLeft(total: RunResult, pending: map<nat, ChoiceKind>, waiting: nat, w: World, st: SyncState)
    requires Continues(total, pending, waiting, RunResult(w, st, map[], 0, false))
    ensures total.w == w && total.st == st && !total.ok
  {
  }

  lemma ContinuesAfter(total: RunResult, pending: map<nat, ChoiceKind>, waiting: nat, rest: RunResult,
                       slot: nat, outcome: Outcome)
    requires slot !in pending
    requires Continues(total, pending, waiting,
                       match outcome
                       case ChoicePending(kind) => rest.(pending := rest.pending[slot := kind])
                       case UploadWaiting => rest.(waiting := rest.waiting + 1)
                       case _ => rest)
    ensures Continues(total, if outcome.ChoicePending? then pending[slot := outcome.kind] else pending,
                      if outcome == UploadWaiting then waiting + 1 else waiting, rest)
  {
    if outcome.ChoicePending? {
      assert rest.pending[slot := outcome.kind] + pending == rest.pending + pending[slot := outcome.kind];
    }
  }

  lemma RunStep(w: World, st: SyncState, saves: seq<LocalSave>, allowUpload: bool, f: Faults, total: RunResult,
                pending: map<nat, ChoiceKind>, waiting: nat)
    requires saves != [] && Recovery.Ready(w, st) && saves[0].slot !in pending
    requires Continues(total, pending, waiting, RunningSlots(w, st, saves, allowUpload, f))
    ensures FilesOk(st.files)
    ensures var r := SyncingSlot(w, st, saves[0], allowUpload, f);
            && Recovery.Ready(r.w, r.st)
            && (r.outcome == Failed ==> total.w == r.w && total.st == r.st && !total.ok)
            && (r.outcome != Failed ==>
                  Continues(total,
                            if r.outcome.ChoicePending? then pending[saves[0].slot := r.outcome.kind] else pending,
                            if r.outcome == UploadWaiting then waiting + 1 else waiting,
                            RunningSlots(r.w, r.st, saves[1..], allowUpload, f)))
  {
    Recovery.SlotFrame(w, st, saves[0], allowUpload, f, saves[0].slot);
    hide SyncingSlot, FilesOk, WorldOk, Continues;
    var r := SyncingSlot(w, st, saves[0], allowUpload, f);
    if r.outcome != Failed {
      ContinuesAfter(total, pending, waiting, RunningSlots(r.w, r.st, saves[1..], allowUpload, f), saves[0].slot, r.outcome);
    } else {
      NothingLeft(total, pending, waiting, r.w, r.st);
    }
  }
}
