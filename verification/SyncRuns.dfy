/** What holds in every reachable state and of every step of the engine. */
module SyncRuns {
  import opened Bytes
  import opened Backups
  import opened SyncModel
  import opened SyncSafety
  import opened SyncMachine

  // ----- The BASE invariant -----

  lemma AgreedGrows(seen: set<Sighting>, more: set<Sighting>, account: Option<nat>, slot: nat, content: Content)
    requires seen <= more && Agreed(seen, account, slot, content)
    ensures Agreed(more, account, slot, content)
  {
    var op :| Sighting(op, account, slot, Device, content) in seen && Sighting(op, account, slot, Steam, content) in seen;
    assert Sighting(op, account, slot, Device, content) in more;
  }

  /** A larger history justifies at least as much. */
  lemma StateOkGrows(m: Machine, m': Machine, st: SyncState)
    requires StateOk(m, st)
    requires m.seen <= m'.seen && m.choices <= m'.choices && m.restores <= m'.restores
    ensures StateOk(m', st)
  {
    hide Agreed;
    forall k | k in st.files
      ensures Agreed(m'.seen, st.account, k.slot, st.files[k].base)
    {
      AgreedGrows(m.seen, m'.seen, st.account, k.slot, st.files[k].base);
    }
  }

  /** Recording an agreed BASE for one slot keeps the invariant. */
  lemma UpsertOk(m: Machine, st: SyncState, entry: FileState)
    requires StateOk(m, st) && entry.slot == entry.remoteName.slot && st.account.Some?
    requires Agreed(m.seen, st.account, entry.slot, entry.base)
    ensures StateOk(m, st.(files := Upsert(st.files, entry)))
  {
    hide Agreed, FilesOk;
    UpsertOneSlot(st.files, entry);
  }

  lemma UnpinnedOk(m: Machine, st: SyncState, slot: nat)
    requires StateOk(m, st)
    ensures StateOk(m, Unpinned(st, slot))
  {
    hide Agreed, FilesOk;
  }

  /** After a save, whatever failed, the persisted state is the old one or the new one. */
  lemma SaveEffect(w: World, st: SyncState, f: Faults)
    ensures var s := SaveState(w, st, f);
            && s.w == w.(state := s.w.state, tick := s.w.tick)
            && (s.w.state == w.state || s.w.state == st)
            && (s.ok ==> s.w.state == st)
  {
  }

  /** The state after a slot's step is still justified by the history extended with what it saw. */
  lemma SlotStateOk(m: Machine, m': Machine, st: SyncState, save: LocalSave, op: nat, allowUpload: bool, r: SlotResult)
    requires StateOk(m, st) && WorldOk(m.w) && SlotOk(m.w, st, save, allowUpload, r) && st.account.Some?
    requires m.seen <= m'.seen && m.choices <= m'.choices && m.restores <= m'.restores
    requires Sighting(op, st.account, save.slot, Device, save.content) in m'.seen
    requires Sightings(op, st.account, save.slot, r.w) <= m'.seen
    ensures StateOk(m', r.st) && r.st.account == st.account
  {
    hide FilesOk, Chronological, LocalJustified, SteamJustified, Saved;
    StateOkGrows(m, m', st);
    if r.st.files != st.files {
      var sha1, base :| r.st.files == Upsert(st.files, FileState(save.slot, r.w.steam[save.slot].name, base, sha1))
           && ContentOf(r.w.steam[save.slot].raw) == Some(base)
           && (base == save.content || PreparedUpload(r.w, save.slot) == Some(base));
      SightedBoth(m', st.account, save, op, base, r.w);
      NamesKept(m.w, st, save, allowUpload, r);
      UpsertOk(m', st, FileState(save.slot, r.w.steam[save.slot].name, base, sha1));
      UnpinnedOk(m', st.(files := r.st.files), save.slot);
    } else {
      UnpinnedOk(m', st, save.slot);
    }
  }

  lemma SightedBoth(m: Machine, account: Option<nat>, save: LocalSave, op: nat, base: Content, w: World)
    requires Sighting(op, account, save.slot, Device, save.content) in m.seen
    requires Sightings(op, account, save.slot, w) <= m.seen
    requires save.slot in w.steam && ContentOf(w.steam[save.slot].raw) == Some(base)
    requires base == save.content || PreparedUpload(w, save.slot) == Some(base)
    ensures Agreed(m.seen, account, save.slot, base)
  {
    hide ContentOf, PreparedUpload;
    assert Sighting(op, account, save.slot, Steam, base) in Sightings(op, account, save.slot, w);
    if base != save.content {
      assert Sighting(op, account, save.slot, Device, base) in Sightings(op, account, save.slot, w);
    }
    assert Sighting(op, account, save.slot, Device, base) in m.seen;
  }

  // ----- Every step keeps the invariant -----

  lemma ObservedRest(op: nat, account: Option<nat>, todo: seq<LocalSave>)
    requires todo != []
    ensures Sighting(op, account, todo[0].slot, Device, todo[0].content) in Observed(op, account, todo)
    ensures Observed(op, account, todo[1..]) <= Observed(op, account, todo)
  {
    forall s | s in Observed(op, account, todo[1..])
      ensures s in Observed(op, account, todo)
    {
      var i :| 0 <= i < |todo[1..]| && s == Sighting(op, account, todo[1..][i].slot, Device, todo[1..][i].content);
      assert todo[i + 1] == todo[1..][i];
    }
  }

  lemma SyncsNextKeeps(m: Machine, f: Faults)
    requires Inv(m) && Enabled(m, SyncsNext)
    ensures Inv(Apply(m, SyncsNext, f))
  {
    var run := m.run.value;
    var save := run.todo[0];
    var r := SyncingSlot(m.w, run.st, save, run.allowUpload, f);
    SyncingSlotOk(m.w, run.st, save, run.allowUpload, f);
    ObservedRest(run.op, run.st.account, run.todo);
    NamesKept(m.w, run.st, save, run.allowUpload, r);
    assert r.w.state == m.w.state;
    hide SyncingSlot, SlotOk, WorldOk, StateOk, Sightings, Observed;
    var m' := Apply(m, SyncsNext, f);
    SlotStateOk(m, m', run.st, save, run.op, run.allowUpload, r);
    StateOkGrows(m, m', m.w.state);
  }

  lemma FinishesKeeps(m: Machine, f: Faults)
    requires Inv(m) && Enabled(m, Finishes)
    ensures Inv(Apply(m, Finishes, f))
  {
    SaveEffect(m.w, m.run.value.st, f);
    hide StateOk, SaveState;
    var m' := Apply(m, Finishes, f);
    assert WorldOk(m'.w);
    StateOkGrows(m, m', m.w.state);
    StateOkGrows(m, m', m.run.value.st);
  }

  /** Binding another account forgets every BASE record and queued pull and nothing else; binding the
      same one forgets nothing. */
  lemma BoundOk(m: Machine, account: nat)
    requires StateOk(m, m.w.state)
    ensures StateOk(m, Bound(m.w.state, account))
    ensures var st := Bound(m.w.state, account);
            && st.account == Some(account) && st.restore == m.w.state.restore
            && (m.w.state.account == Some(account) ==> st == m.w.state)
            && (m.w.state.account != Some(account) ==> st.files == map[] && st.pulls == map[])
  {
    hide Agreed;
  }

  lemma BindsKeeps(m: Machine, account: nat, cloud: map<nat, Remote>, f: Faults)
    requires Inv(m) && Enabled(m, Binds(account, cloud))
    ensures Inv(Apply(m, Binds(account, cloud), f))
  {
    BoundOk(m, account);
    SaveEffect(m.w, Bound(m.w.state, account), f);
    var m' := Apply(m, Binds(account, cloud), f);
    hide SaveState, StateOk, Bound, Chronological;
    StateOkGrows(m, m', m.w.state);
    StateOkGrows(m, m', Bound(m.w.state, account));
  }

  function Pinning(w: World, slot: nat): SyncState
    requires slot in w.steam
  {
    w.state.(pulls := w.state.pulls[slot := PendingPull(w.steam[slot].name, Sha1(w.steam[slot]))])
  }

  function Pushed(w: World, slot: nat, remote: Remote, content: Content): SyncState {
    w.state.(files := Upsert(w.state.files, FileState(slot, remote.name, content, Sha1(remote))))
  }

  /** What forcing leaves in memory before it is saved: the old state, a pushed slot or a new pin. */
  ghost predicate ForceOk(w: World, slot: nat, useLocal: bool, w': World, st': SyncState) {
    && WorldOk(w')
    && w' == w.(steam := w'.steam, backups := w'.backups, clock := w'.clock, tick := w'.tick)
    && (|| st' == w.state
        || (!useLocal && slot in w.steam
            && st' == Pinning(w, slot))
        || (useLocal && slot in w'.steam && PreparedUpload(w', slot).Some?
            && ContentOf(w'.steam[slot].raw) == PreparedUpload(w', slot)
            && st' == Pushed(w, slot, w'.steam[slot], PreparedUpload(w', slot).value)))
  }

  lemma PushForceOk(w: World, w1: World, slot: nat, name: Name, p: Push)
    requires WorldOk(w) && WorldOk(w1) && name.slot == slot
    requires w1 == w.(backups := w1.backups, clock := w1.clock, tick := w1.tick)
    requires PushOk(w1, w.state, slot, name, p)
    ensures ForceOk(w, slot, true, p.w, p.st)
  {
    hide Chronological, Upsert;
    assert PreparedUpload(p.w, slot) == PreparedUpload(w1, slot);
  }

  lemma ForcingOk(w: World, slot: nat, useLocal: bool, name: Name, f: Faults) returns (w': World, st': SyncState)
    requires WorldOk(w) && name.slot == slot
    ensures ForceOk(w, slot, useLocal, w', st')
    ensures Forcing(w, slot, useLocal, name, f) == Step(w', false)
         || Forcing(w, slot, useLocal, name, f) == SaveState(w', st', f)
  {
    hide Chronological, Upsert, BackingUpBoth, Pushing, PushingNew, PreparedUpload, SaveState, ContentOf;
    w', st' := Tick(w), w.state;
    assert WorldOk(w');
    if !f(w.tick) && PreparedUpload(w, slot).Some? {
      if slot in w.steam {
        var remote := w.steam[slot];
        BackupBothEffect(Tick(w), slot, remote.raw, LocalBeforeForce, SteamBeforeForce, f);
        var b := BackingUpBoth(Tick(w), slot, remote.raw, LocalBeforeForce, SteamBeforeForce, f);
        w' := b.w;
        assert b == Step(b.w, b.ok);
        if b.ok && useLocal {
          var p := Pushing(b.w, w.state, slot, remote, f);
          PushEffect(b.w, w.state, slot, remote, f);
          PushForceOk(w, b.w, slot, remote.name, p);
          w', st' := p.w, p.st;
        } else if b.ok {
          st' := w.state.(pulls := w.state.pulls[slot := PendingPull(remote.name, Sha1(remote))]);
        }
      } else if useLocal {
        var p := PushingNew(Tick(w), w.state, slot, name, f);
        PushNewEffect(Tick(w), w.state, slot, name, f);
        PushForceOk(w, Tick(w), slot, name, p);
        w', st' := p.w, p.st;
      }
    }
  }

  lemma ChoosesKeeps(m: Machine, slot: nat, useLocal: bool, name: Name, f: Faults)
    requires Inv(m) && Enabled(m, Chooses(slot, useLocal, name))
    ensures Inv(Apply(m, Chooses(slot, useLocal, name), f))
  {
    var w', st' := ForcingOk(m.w, slot, useLocal, name, f);
    SaveEffect(w', st', f);
    var m' := Apply(m, Chooses(slot, useLocal, name), f);
    StateOkGrows(m, m', m.w.state);
    hide Forcing, SaveState, StateOk, Agreed, Upsert, Chronological;
    ForcedStateOk(m, m', slot, useLocal, w', st');
    assert m'.w.state == m.w.state || m'.w.state == st';
    assert m'.w.steam == w'.steam && m'.w.backups == w'.backups && m'.w.clock == w'.clock;
  }

  lemma ForcedStateOk(m: Machine, m': Machine, slot: nat, useLocal: bool, w': World, st': SyncState)
    requires Inv(m) && ForceOk(m.w, slot, useLocal, w', st') && m.w.state.account.Some?
    requires m.choices <= m'.choices && m.restores <= m'.restores
    requires m'.seen == m.seen + Sightings(m.ops, m.w.state.account, slot, w')
    requires !useLocal && slot in m.w.steam ==>
               Choosing(m.w, slot) in m'.choices
    ensures StateOk(m', st')
  {
    StateOkGrows(m, m', m.w.state);
    if st'.files != m.w.state.files {
      hide StateOk, Upsert, PreparedUpload, ContentOf;
      var base := PreparedUpload(w', slot).value;
      var account := m.w.state.account;
      assert Sighting(m.ops, account, slot, Device, base) in Sightings(m.ops, account, slot, w');
      assert Sighting(m.ops, account, slot, Steam, base) in Sightings(m.ops, account, slot, w');
      assert Agreed(m'.seen, account, slot, base);
      UpsertOk(m', m.w.state, FileState(slot, w'.steam[slot].name, base, Sha1(w'.steam[slot])));
    } else {
      hide Agreed, FilesOk;
    }
  }

  lemma QueuesRestoreKeeps(m: Machine, id: nat, f: Faults)
    requires Inv(m) && Enabled(m, QueuesRestore(id))
    ensures Inv(Apply(m, QueuesRestore(id), f))
  {
    var m' := Apply(m, QueuesRestore(id), f);
    StateOkGrows(m, m', m.w.state);
    hide FilesOk, Agreed;
    assert m'.w == m.w.(state := m'.w.state, tick := m'.w.tick);
    assert m'.w.state == m.w.state.(restore := m'.w.state.restore);
  }

  /** Applying a restore changes one live file, to the approved version, and stores what was there. */
  lemma ApplyingRestoreOk(m: Machine, f: Faults)
    requires Inv(m)
    ensures var s := ApplyingRestore(m.w, f);
            && Chronological(s.w.backups, s.w.clock)
            && s.w == m.w.(local := s.w.local, backups := s.w.backups, clock := s.w.clock, tick := s.w.tick)
            && (s.ok || s.w.local != m.w.local ==>
                  (&& Approved(m.w).Some? && m.w.state.restore == Approved(m.w)
                   && Approved(m.w).value in m.restores
                   && m.w.replacementAllowed && Approved(m.w).value.slot in m.w.local))
            && (s.w.local != m.w.local ==>
                  (var p := Approved(m.w).value;
                   && s.w.local == m.w.local[p.slot := p.expected]
                   && Saved(s.w.backups, p.slot, m.w.local[p.slot])))
            && (s.ok ==> s.w.local == m.w.local[Approved(m.w).value.slot := Approved(m.w).value.expected])
  {
    if Approved(m.w).Some? {
      var p := Approved(m.w).value;
      var record := FindRecord(m.w.backups, p.id).value;
      FoundRecord(m.w.backups, p.id);
      hide RestoreLocal, Chronological;
      RestoreEffect(m.w, record, p.slot, f);
    }
  }

  /** A queued restore can be applied exactly when its record is still stored as it was approved, holds a
      valid save, its slot has a live save, and the window is open. */
  lemma ApprovedIff(w: World, p: PendingRestore)
    requires Chronological(w.backups, w.clock)
    ensures Approved(w) == Some(p)
       <==> && w.state.restore == Some(p) && w.replacementAllowed && p.slot in w.local && ContentOf(p.expected).Some?
            && exists r :: r in w.backups && r.id == p.id && r.slot == p.slot && r.data == p.expected
  {
    if r :| r in w.backups && r.id == p.id && r.slot == p.slot && r.data == p.expected {
      FindStored(w.backups, r, w.clock);
    }
    if FindRecord(w.backups, p.id).Some? {
      FoundRecord(w.backups, p.id);
    }
    hide FindRecord, Chronological, ContentOf;
  }

  // ----- The prelaunch snapshot after a restore -----

  lemma {:induction false} OthersMembers(saves: seq<LocalSave>, slot: nat)
    ensures forall x :: x in Others(saves, slot) <==> x in saves && x.slot != slot
  {
    if saves == [] {
    } else {
      OthersMembers(saves[1..], slot);
      assert saves == [saves[0]] + saves[1..];
    }
  }

  lemma {:induction false} OthersUnique(saves: seq<LocalSave>, slot: nat)
    requires UniqueSlots(saves)
    ensures UniqueSlots(Others(saves, slot))
  {
    if saves == [] {
    } else {
      OthersUnique(saves[1..], slot);
      OthersMembers(saves[1..], slot);
      var rest := Others(saves[1..], slot);
      forall j | 0 <= j < |rest|
        ensures rest[j].slot != saves[0].slot
      {
        assert rest[j] in saves[1..];
      }
    }
  }

  /** Everything listed of other slots stays listed, the restored slot has one entry, with the content of the
      approved version, and nothing else is listed. */
  ghost predicate Refreshed(p: PendingRestore, was: seq<LocalSave>, now: seq<LocalSave>) {
    && ContentOf(p.expected).Some?
    && (forall x :: x in now <==> x == LocalSave(p.slot, ContentOf(p.expected).value) || (x in was && x.slot != p.slot))
    && (forall i, j :: 0 <= i < j < |now| ==> now[i].slot != p.slot || now[j].slot != p.slot)
    && (UniqueSlots(was) ==> UniqueSlots(now))
  }

  lemma OneMoreEntry(p: PendingRestore, was: seq<LocalSave>)
    requires ContentOf(p.expected).Some?
    ensures Refreshed(p, was, Others(was, p.slot) + [LocalSave(p.slot, ContentOf(p.expected).value)])
  {
    hide ContentOf;
    var kept, entry := Others(was, p.slot), LocalSave(p.slot, ContentOf(p.expected).value);
    OthersMembers(was, p.slot);
    assert forall i :: 0 <= i < |kept| ==> kept[i] in kept;
    if UniqueSlots(was) {
      OthersUnique(was, p.slot);
    }
    hide Others;
  }

  /** What the prelaunch step leaves in the snapshot: after an installed restore the refreshed one, and
      otherwise the one it found. */
  ghost predicate SnapshotOk(w: World, was: Option<seq<LocalSave>>, now: Option<seq<LocalSave>>, installed: bool) {
    if w.state.restore.Some? && installed
    then now.Some? && Refreshed(w.state.restore.value, if was.Some? then was.value else [], now.value)
    else now == was
  }

  lemma SnapshotRefreshed(w: World, snapshot: Option<seq<LocalSave>>, f: Faults)
    ensures SnapshotOk(w, snapshot, ApplyingPending(w, snapshot, f).snapshot, ApplyingRestore(w, f).ok)
  {
    if w.state.restore.Some? && ApplyingRestore(w, f).ok {
      var p := w.state.restore.value;
      assert ContentOf(p.expected).Some?;
      hide ContentOf, Refreshed, Others, ApplyingRestore, SaveState;
      OneMoreEntry(p, if snapshot.Some? then snapshot.value else []);
      assert Others([], p.slot) == [] by { OthersMembers([], p.slot); }
    }
  }

  /** The entries of a snapshot that were accurate before an installed restore are so after it, and the
      restored slot's entry is. */
  lemma SnapshotStaysAccurate(m: Machine, f: Faults)
    requires Inv(m) && m.w.state.restore.Some? && ApplyingRestore(m.w, f).ok
    requires m.snapshot.Some? ==> Accurate(m.w, m.snapshot.value)
    ensures var r := ApplyingPending(m.w, m.snapshot, f);
            r.snapshot.Some? && Accurate(r.w, r.snapshot.value)
  {
    var p := m.w.state.restore.value;
    var s := ApplyingRestore(m.w, f);
    var r := ApplyingPending(m.w, m.snapshot, f);
    ApplyingRestoreOk(m, f);
    SnapshotRefreshed(m.w, m.snapshot, f);
    SaveEffect(s.w, s.w.state.(restore := None), f);
    assert r.w.local == m.w.local[p.slot := p.expected];
    hide Inv, ApplyingPending, ApplyingRestore, Approved, Saved, Chronological, ContentOf;
    forall i | 0 <= i < |r.snapshot.value|
      ensures PreparedUpload(r.w, r.snapshot.value[i].slot) == Some(r.snapshot.value[i].content)
    {
      var x := r.snapshot.value[i];
      assert x in r.snapshot.value;
      if x.slot != p.slot {
        assert m.snapshot.Some? && x in m.snapshot.value;
        var j :| 0 <= j < |m.snapshot.value| && m.snapshot.value[j] == x;
      }
    }
  }

  lemma AppliesRestoreKeeps(m: Machine, f: Faults)
    requires Inv(m) && Enabled(m, AppliesRestore)
    ensures Inv(Apply(m, AppliesRestore, f))
  {
    ApplyingRestoreOk(m, f);
    var s := ApplyingRestore(m.w, f);
    SaveEffect(s.w, s.w.state.(restore := None), f);
    hide ApplyingRestore, SaveState, Approved, FilesOk, Agreed, Chronological, Others, Saved;
  }

  lemma BeginsKeeps(m: Machine, prelaunch: bool, allowUpload: bool, saves: seq<LocalSave>, f: Faults)
    requires Inv(m) && Enabled(m, Begins(prelaunch, allowUpload, saves))
    ensures Inv(Apply(m, Begins(prelaunch, allowUpload, saves), f))
  {
    hide StateOk, Observed;
    var m' := Apply(m, Begins(prelaunch, allowUpload, saves), f);
    StateOkGrows(m, m', m.w.state);
  }

  /** Every event keeps the invariant: one record a slot, each BASE a content one operation saw on
      both sides under the bound account, each queued action the user's own. */
  lemma StepKeepsInv(m: Machine, e: Event, f: Faults)
    requires Inv(m) && Enabled(m, e)
    ensures Inv(Apply(m, e, f))
  {
    match e
    case Binds(account, cloud) => BindsKeeps(m, account, cloud, f);
    case Begins(prelaunch, allowUpload, saves) => BeginsKeeps(m, prelaunch, allowUpload, saves, f);
    case SyncsNext => SyncsNextKeeps(m, f);
    case Finishes => FinishesKeeps(m, f);
    case Chooses(slot, useLocal, name) => ChoosesKeeps(m, slot, useLocal, name, f);
    case QueuesRestore(id) => QueuesRestoreKeeps(m, id, f);
    case AppliesRestore => AppliesRestoreKeeps(m, f);
    case _ =>
      hide FilesOk, Agreed, Chronological;
      var m' := Apply(m, e, f);
      assert WorldOk(m'.w);
  }

  // ----- No silent loss -----

  /** The user chose this very Steam object for the slot, under the account now bound. */
  ghost predicate ChosenByUser(m: Machine, slot: nat) {
    && slot in m.w.steam
    && exists pull {:trigger Choice(m.w.state.account, slot, pull)} ::
         && Choice(m.w.state.account, slot, pull) in m.choices
         && pull.remoteName == m.w.steam[slot].name
         && (pull.expectedSha1.Some? ==> pull.expectedSha1.value == m.w.steam[slot].raw)
  }

  /** A run in progress compares this slot next, and what discovery saw of it is BASE. */
  ghost predicate ObservedIsBase(m: Machine, slot: nat) {
    && m.run.Some? && m.run.value.todo != [] && m.run.value.todo[0].slot == slot
    && BaseOf(m.run.value.st.files, slot) == Some(m.run.value.todo[0].content)
  }

  /** Who may replace a live save: the game; or the engine while replacement is allowed, after
      storing what it replaces, with the Steam content when discovery saw BASE or the user chose this
      Steam version, or with the approved backup, a valid save, of a queued restore. */
  ghost predicate LocalExplained(m: Machine, e: Event, m': Machine) {
    forall s :: Differs(m.w.local, m'.w.local, s) ==>
      || (e.GameWrites? && e.slot == s)
      || (&& m.w.replacementAllowed
          && s in m.w.local && s in m'.w.local && Saved(m'.w.backups, s, m.w.local[s])
          && (|| (&& e == SyncsNext && (ObservedIsBase(m, s) || ChosenByUser(m, s))
                  && s in m.w.steam && ContentOf(m'.w.local[s]) == ContentOf(m.w.steam[s].raw))
              || (&& e == AppliesRestore && m.w.state.restore.Some? && m.w.state.restore.value in m.restores
                  && m.w.state.restore.value.slot == s && m'.w.local[s] == m.w.state.restore.value.expected
                  && ContentOf(m'.w.local[s]).Some?)))
  }

  /** An uploading run compares this slot next, and Steam holds BASE or what discovery saw locally. */
  ghost predicate SteamIsKnown(m: Machine, slot: nat) {
    && m.run.Some? && m.run.value.todo != [] && m.run.value.todo[0].slot == slot && m.run.value.allowUpload
    && slot in m.w.steam && ContentOf(m.w.steam[slot].raw).Some?
    && (|| BaseOf(m.run.value.st.files, slot) == ContentOf(m.w.steam[slot].raw)
        || ContentOf(m.w.steam[slot].raw) == Some(m.run.value.todo[0].content))
  }

  /** Who may change a Steam object: another device, an account change, or the engine, which uploads
      the canonical form of the live save after storing what it replaces, in a manual run on a known
      version or because the user chose the local side. */
  ghost predicate SteamExplained(m: Machine, e: Event, m': Machine) {
    forall s :: Differs(m.w.steam, m'.w.steam, s) ==>
      || (e.OtherDeviceWrites? && e.slot == s)
      || (e.OtherDeviceDeletes? && e.slot == s)
      || e.Binds?
      || (&& (s in m.w.steam ==> Saved(m'.w.backups, s, m.w.steam[s].raw))
          && s in m'.w.steam && PreparedUpload(m.w, s).Some?
          && m'.w.steam[s].raw == SteamForm(PreparedUpload(m.w, s).value)
          && ((e == SyncsNext && SteamIsKnown(m, s)) || (e.Chooses? && e.slot == s && e.useLocal)))
  }

  lemma SyncsNextLocalExplained(m: Machine, r: SlotResult, f: Faults)
    requires Inv(m) && Enabled(m, SyncsNext)
    requires r == SyncingSlot(m.w, m.run.value.st, m.run.value.todo[0], m.run.value.allowUpload, f)
    requires LocalJustified(m.w, m.run.value.st, m.run.value.todo[0], r.w)
    ensures LocalExplained(m, SyncsNext, Apply(m, SyncsNext, f))
  {
    var run := m.run.value;
    var save := run.todo[0];
    if save.slot in run.st.pulls && save.slot in m.w.steam && SameRemote(run.st.pulls[save.slot], m.w.steam[save.slot]) {
      assert Choice(m.w.state.account, save.slot, run.st.pulls[save.slot]) in m.choices;
      assert ChosenByUser(m, save.slot);
    }
    hide SyncingSlot, Inv, BaseOf, Saved, Sightings, PreparedUpload, ChosenByUser, SameRemote;
  }

  lemma SyncsNextSteamExplained(m: Machine, r: SlotResult, f: Faults)
    requires Enabled(m, SyncsNext)
    requires r == SyncingSlot(m.w, m.run.value.st, m.run.value.todo[0], m.run.value.allowUpload, f)
    requires SteamJustified(m.w, m.run.value.st, m.run.value.todo[0], m.run.value.allowUpload, r.w)
    ensures SteamExplained(m, SyncsNext, Apply(m, SyncsNext, f))
  {
    hide SyncingSlot, BaseOf, Saved, Sightings, PreparedUpload, ContentOf;
  }

  lemma SyncsNextExplained(m: Machine, f: Faults)
    requires Inv(m) && Enabled(m, SyncsNext)
    ensures LocalExplained(m, SyncsNext, Apply(m, SyncsNext, f))
    ensures SteamExplained(m, SyncsNext, Apply(m, SyncsNext, f))
  {
    var run := m.run.value;
    var r := SyncingSlot(m.w, run.st, run.todo[0], run.allowUpload, f);
    SyncingSlotOk(m.w, run.st, run.todo[0], run.allowUpload, f);
    hide SyncingSlot, Inv, Apply, LocalJustified, SteamJustified, LocalExplained, SteamExplained;
    SyncsNextLocalExplained(m, r, f);
    SyncsNextSteamExplained(m, r, f);
  }

  /** Forcing replaces no live save, and a Steam object only for the local side, by the canonical form of
      the live save, after storing it; the persisted state gains at most the pushed record or the pin. */
  ghost predicate ForceEffect(w: World, slot: nat, useLocal: bool, w': World) {
    && Chronological(w'.backups, w'.clock)
    && w' == w.(steam := w'.steam, state := w'.state, backups := w'.backups, clock := w'.clock, tick := w'.tick)
    && (w'.steam != w.steam ==>
          (&& useLocal && PreparedUpload(w, slot).Some?
           && (slot in w.steam ==> Saved(w'.backups, slot, w.steam[slot].raw))
           && exists n :: w'.steam == w.steam[slot := Remote(n, SteamForm(PreparedUpload(w, slot).value), true)]))
    && (|| w'.state == w.state
        || (!useLocal && slot in w.steam && w'.state == Pinning(w, slot))
        || (useLocal && slot in w'.steam && PreparedUpload(w', slot).Some?
            && ContentOf(w'.steam[slot].raw) == PreparedUpload(w', slot)
            && w'.state == Pushed(w, slot, w'.steam[slot], PreparedUpload(w', slot).value)))
  }

  lemma ForcingReplaces(w: World, slot: nat, useLocal: bool, name: Name, f: Faults)
    requires Chronological(w.backups, w.clock)
    ensures var w' := Forcing(w, slot, useLocal, name, f).w;
            w'.steam != w.steam ==>
              (&& useLocal && PreparedUpload(w, slot).Some?
               && (slot in w.steam ==> Saved(w'.backups, slot, w.steam[slot].raw))
               && exists n :: w'.steam == w.steam[slot := Remote(n, SteamForm(PreparedUpload(w, slot).value), true)])
  {
    hide Chronological, Upsert, BackingUpBoth, Pushing, PushingNew, PreparedUpload, Saved;
    if !f(w.tick) && PreparedUpload(w, slot).Some? {
      if slot in w.steam {
        var remote := w.steam[slot];
        BackupBothEffect(Tick(w), slot, remote.raw, LocalBeforeForce, SteamBeforeForce, f);
        var b := BackingUpBoth(Tick(w), slot, remote.raw, LocalBeforeForce, SteamBeforeForce, f);
        PreparedSame(w, b.w, slot);
        PushEffect(b.w, w.state, slot, remote, f);
      } else {
        PreparedSame(w, Tick(w), slot);
        PushNewEffect(Tick(w), w.state, slot, name, f);
      }
    }
  }

  lemma ForcingEffect(w: World, slot: nat, useLocal: bool, name: Name, f: Faults)
    requires WorldOk(w) && name.slot == slot
    ensures ForceEffect(w, slot, useLocal, Forcing(w, slot, useLocal, name, f).w)
  {
    var w', st' := ForcingOk(w, slot, useLocal, name, f);
    SaveEffect(w', st', f);
    ForcingReplaces(w, slot, useLocal, name, f);
    assert Chronological(w'.backups, w'.clock);
    hide Forcing, SaveState, Saved, Upsert, Chronological, ContentOf;
    var w2 := Forcing(w, slot, useLocal, name, f).w;
    PreparedSame(w', w2, slot);
  }

  lemma PreparedSame(w: World, w': World, slot: nat)
    requires w'.local == w.local
    ensures PreparedUpload(w', slot) == PreparedUpload(w, slot)
  {
  }

  lemma ChoosesExplained(m: Machine, slot: nat, useLocal: bool, name: Name, f: Faults)
    requires Inv(m) && Enabled(m, Chooses(slot, useLocal, name))
    ensures var e := Chooses(slot, useLocal, name);
            LocalExplained(m, e, Apply(m, e, f)) && SteamExplained(m, e, Apply(m, e, f))
  {
    ForcingEffect(m.w, slot, useLocal, name, f);
    hide Forcing, Inv, Sightings, PreparedUpload, Saved, Pushed, Pinning, ContentOf, Chronological;
  }

  lemma AppliesRestoreExplained(m: Machine, f: Faults)
    requires Inv(m)
    ensures LocalExplained(m, AppliesRestore, Apply(m, AppliesRestore, f))
    ensures SteamExplained(m, AppliesRestore, Apply(m, AppliesRestore, f))
  {
    ApplyingRestoreOk(m, f);
    var s := ApplyingRestore(m.w, f);
    SaveEffect(s.w, s.w.state.(restore := None), f);
    hide ApplyingRestore, SaveState, Approved, Inv, Chronological, Others, Saved;
  }

  /** The other events change no live save and no Steam object of their own accord. */
  lemma EnvironmentExplained(m: Machine, e: Event, f: Faults)
    requires Enabled(m, e) && !e.SyncsNext? && !e.Chooses? && !e.AppliesRestore?
    ensures LocalExplained(m, e, Apply(m, e, f)) && SteamExplained(m, e, Apply(m, e, f))
  {
    hide Saved, PreparedUpload, ContentOf, FindRecord, Bound;
  }

  /** No silent loss, step by step, whatever fails. */
  lemma StepExplained(m: Machine, e: Event, f: Faults)
    requires Inv(m) && Enabled(m, e)
    ensures LocalExplained(m, e, Apply(m, e, f)) && SteamExplained(m, e, Apply(m, e, f))
  {
    match e
    case SyncsNext =>
      hide LocalExplained, SteamExplained, Apply;
      SyncsNextExplained(m, f);
    case Chooses(slot, useLocal, name) =>
      hide LocalExplained, SteamExplained, Apply;
      ChoosesExplained(m, slot, useLocal, name, f);
    case AppliesRestore =>
      hide LocalExplained, SteamExplained, Apply;
      AppliesRestoreExplained(m, f);
    case _ =>
      EnvironmentExplained(m, e, f);
  }

  /** A run of the machine: each state is the previous one changed by an enabled event. */
  ghost predicate IsRun(ms: seq<Machine>, es: seq<Event>, f: Faults) {
    && |ms| == |es| + 1
    && forall i :: 0 <= i < |es| ==> Enabled(ms[i], es[i]) && ms[i + 1] == Apply(ms[i], es[i], f)
  }

  lemma {:induction false} RunKeepsInv(ms: seq<Machine>, es: seq<Event>, f: Faults, i: nat)
    requires IsRun(ms, es, f) && Inv(ms[0]) && i < |ms|
    ensures Inv(ms[i])
  {
    hide Inv, Enabled, Apply;
    if i == 0 {
    } else {
      RunKeepsInv(ms, es, f, i - 1);
      StepKeepsInv(ms[i - 1], es[i - 1], f);
    }
  }

  /** No silent loss over every run: in any interleaving, with any faults, each change of a live save
      and of a Steam object is explained. */
  lemma NoSilentLoss(ms: seq<Machine>, es: seq<Event>, f: Faults)
    requires IsRun(ms, es, f) && Inv(ms[0])
    ensures forall i :: 0 <= i < |es| ==>
              LocalExplained(ms[i], es[i], ms[i + 1]) && SteamExplained(ms[i], es[i], ms[i + 1])
  {
    hide Inv, Enabled, Apply, LocalExplained, SteamExplained;
    forall i | 0 <= i < |es|
      ensures LocalExplained(ms[i], es[i], ms[i + 1]) && SteamExplained(ms[i], es[i], ms[i + 1])
    {
      RunKeepsInv(ms, es, f, i);
      StepExplained(ms[i], es[i], f);
    }
  }

  /** In every reachable persisted state a slot has at most one record, and its BASE was seen on both
      sides by one operation under the account now bound. */
  lemma BaseInvariant(ms: seq<Machine>, es: seq<Event>, f: Faults, i: nat, slot: nat)
    requires IsRun(ms, es, f) && Inv(ms[0]) && i < |ms|
    ensures var st := ms[i].w.state;
            && (forall k, k' :: k in st.files && k' in st.files && st.files[k].slot == st.files[k'].slot ==> k == k')
            && (BaseOf(st.files, slot).Some? ==>
                  (&& st.account.Some?
                   && exists op :: Sighting(op, st.account, slot, Device, BaseOf(st.files, slot).value) in ms[i].seen
                                && Sighting(op, st.account, slot, Steam, BaseOf(st.files, slot).value) in ms[i].seen))
  {
    RunKeepsInv(ms, es, f, i);
    hide Enabled, Apply, IsRun;
    var m := ms[i];
    var st := m.w.state;
    if k :| k in st.files && st.files[k].slot == slot {
      BaseOfRecord(st.files, k);
      assert Agreed(m.seen, st.account, slot, st.files[k].base);
    }
  }

  /** A first launch, with whatever saves and backups there are, satisfies the invariant. */
  lemma FirstLaunchOk(m: Machine)
    requires WorldOk(m.w) && m.run.None? && m.restores == {}
    requires m.w.state == SyncState(None, map[], map[], None)
    ensures Inv(m)
  {
  }

  /** Choosing the Steam side, or queueing a restore, changes no live save and no Steam object. */
  lemma ChoosingSteamIsQueued(m: Machine, slot: nat, name: Name, id: nat, f: Faults)
    requires Inv(m) && Enabled(m, Chooses(slot, false, name))
    ensures var m' := Apply(m, Chooses(slot, false, name), f);
            m'.w.local == m.w.local && m'.w.steam == m.w.steam
    ensures var m' := Apply(m, QueuesRestore(id), f);
            m'.w.local == m.w.local && m'.w.steam == m.w.steam
  {
    ForcingEffect(m.w, slot, false, name, f);
    hide Forcing, Inv, Sightings;
  }

  /** A queued pull whose Steam version changed is dropped, and the slot is compared as if there had
      been none. */
  lemma ChangedPinIsDropped(w: World, st: SyncState, save: LocalSave, allowUpload: bool, f: Faults)
    requires save.slot in w.steam && ContentOf(w.steam[save.slot].raw).Some? && !f(w.tick)
    requires save.slot in st.pulls && !SameRemote(st.pulls[save.slot], w.steam[save.slot])
    ensures SyncingSlot(w, st, save, allowUpload, f) == SyncingSlot(w, Unpinned(st, save.slot), save, allowUpload, f)
    ensures save.slot !in Unpinned(st, save.slot).pulls
  {
  }

  /** Outside the window a queued pull of an unchanged Steam version only waits for a restart. */
  lemma PinWaitsForWindow(w: World, st: SyncState, save: LocalSave, allowUpload: bool, f: Faults)
    requires save.slot in w.steam && ContentOf(w.steam[save.slot].raw).Some? && !f(w.tick)
    requires save.slot in st.pulls && SameRemote(st.pulls[save.slot], w.steam[save.slot])
    ensures var r := SyncingSlot(w, st, save, allowUpload, f);
            if w.replacementAllowed
            then r.outcome == Settled ==>
                   && save.slot !in r.st.pulls
                   && r.w.local == w.local[save.slot := SteamForm(ContentOf(w.steam[save.slot].raw).value)]
            else r == SlotResult(Tick(w), st, ChoicePending(RestartRequired))
  {
  }
}
