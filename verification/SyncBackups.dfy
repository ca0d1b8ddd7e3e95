/** Which versions each operation stores before it replaces anything, and under which label. */
module SyncBackups {
  import opened Bytes
  import opened Backups
  import opened SyncEngine
  import opened SyncModel
  import opened SyncSafety
  import opened SyncMachine

  ghost predicate SavedAs(rs: seq<BackupRecord<RawSave>>, slot: nat, source: BackupSource, data: RawSave) {
    exists r :: r in rs && r.slot == slot && r.source == source && r.data == data
  }

  lemma StoresAs(w: World, slot: nat, source: BackupSource, data: RawSave, f: Faults)
    requires Chronological(w.backups, w.clock)
    ensures var b := BackupBytes(w, slot, source, data, f);
            && Chronological(b.w.backups, b.w.clock)
            && b.w == w.(backups := b.w.backups, clock := b.w.clock, tick := b.w.tick)
            && (b.ok ==> SavedAs(b.w.backups, slot, source, data))
  {
    BackupEffect(w, slot, source, data, f);
    hide BackupBytes, Chronological, Matches;
  }

  /** A backup loses no version of another label. */
  lemma StillSavedAs(w: World, slot: nat, source: BackupSource, data: RawSave, f: Faults, source': BackupSource, data': RawSave)
    requires Chronological(w.backups, w.clock) && source' != source && SavedAs(w.backups, slot, source', data')
    ensures SavedAs(BackupBytes(w, slot, source, data, f).w.backups, slot, source', data')
  {
    BackupEffect(w, slot, source, data, f);
    hide BackupBytes, Chronological;
  }

  /** Both sides are stored, each under its own label. */
  lemma BothAs(w: World, slot: nat, remote: RawSave, first: BackupSource, second: BackupSource, f: Faults)
    requires Chronological(w.backups, w.clock) && first != second
    ensures var b := BackingUpBoth(w, slot, remote, first, second, f);
            && Chronological(b.w.backups, b.w.clock)
            && b.w == w.(backups := b.w.backups, clock := b.w.clock, tick := b.w.tick)
            && (b.ok ==> slot in w.local && SavedAs(b.w.backups, slot, first, w.local[slot])
                         && SavedAs(b.w.backups, slot, second, remote))
  {
    hide BackupBytes, Chronological, SavedAs;
    if slot in w.local {
      var b := BackupBytes(w, slot, first, w.local[slot], f);
      assert BackingUpBoth(w, slot, remote, first, second, f) == if b.ok then BackupBytes(b.w, slot, second, remote, f) else b;
      hide BackingUpBoth;
      StoresAs(w, slot, first, w.local[slot], f);
      if b.ok {
        StoresAs(b.w, slot, second, remote, f);
        StillSavedAs(b.w, slot, second, remote, f, first, w.local[slot]);
      }
    }
  }

  /** A pull stores the live save it replaces. */
  lemma PullAs(w: World, st: SyncState, slot: nat, remote: Remote, bytes: Content, f: Faults)
    requires Chronological(w.backups, w.clock)
    ensures var p := Pulling(w, st, slot, remote, bytes, f);
            p.outcome == Pulled ==> slot in w.local && SavedAs(p.w.backups, slot, LocalBeforePull, w.local[slot])
  {
    if slot in w.local {
      StoresAs(w, slot, LocalBeforePull, w.local[slot], f);
    }
    hide BackupBytes, Chronological, SavedAs, RollBack, Upsert;
  }

  /** A push stores the Steam object it may replace. */
  lemma PushAs(w: World, st: SyncState, slot: nat, remote: Remote, f: Faults)
    requires Chronological(w.backups, w.clock)
    ensures var p := Pushing(w, st, slot, remote, f);
            p.ok || p.w.steam != w.steam ==> SavedAs(p.w.backups, slot, SteamBeforePush, remote.raw)
  {
    var u := RemoteUnchanged(Tick(w), slot, remote, f);
    UnchangedMeans(Tick(w), slot, remote, f);
    StoresAs(u.w, slot, SteamBeforePush, remote.raw, f);
    hide BackupBytes, Chronological, SavedAs, RemoteUnchanged, PreparedUpload, Upsert;
  }

  /** An upload to a slot Steam lacks stores the live save first. */
  lemma PushNewAs(w: World, st: SyncState, slot: nat, name: Name, f: Faults)
    requires Chronological(w.backups, w.clock)
    ensures var p := PushingNew(w, st, slot, name, f);
            p.ok || p.w.steam != w.steam ==> slot in w.local && SavedAs(p.w.backups, slot, LocalFirstSync, w.local[slot])
  {
    if slot in w.local {
      StoresAs(Tick(Tick(w)), slot, LocalFirstSync, w.local[slot], f);
    }
    hide BackupBytes, Chronological, SavedAs, PreparedUpload, Upsert;
  }

  /** A restore stores the live save it replaces. */
  lemma RestoreAs(w: World, id: nat, slot: nat, f: Faults)
    requires Chronological(w.backups, w.clock) && slot in w.local
    ensures var r := RestoreLocal(w, id, slot, f);
            r.ok || r.w.local != w.local ==> SavedAs(r.w.backups, slot, LocalBeforeRestore, w.local[slot])
  {
    hide BackupBytes, Chronological, SavedAs, FindRecord, WriteLocal;
    StoresAs(Tick(w), slot, LocalBeforeRestore, w.local[slot], f);
    var b := BackupBytes(Tick(w), slot, LocalBeforeRestore, w.local[slot], f);
    if FindRecord(b.w.backups, id).Some? {
      WriteEffect(b.w, slot, FindRecord(b.w.backups, id).value.data, f);
    }
  }

  /** What the decision about one slot stores, and as what, when the step does not fail. */
  ghost predicate DecisionStores(rs: seq<BackupRecord<RawSave>>, slot: nat, local: RawSave, remote: Remote,
                                 decision: SyncDecision, uploads: bool, pulls: bool)
  {
    match decision
    case DownloadRemote => pulls ==> SavedAs(rs, slot, LocalBeforePull, local)
    case FirstSyncChoiceRequired => SavedAs(rs, slot, LocalFirstSync, local) && SavedAs(rs, slot, SteamFirstSync, remote.raw)
    case Conflict => SavedAs(rs, slot, LocalConflict, local) && SavedAs(rs, slot, SteamConflict, remote.raw)
    case UploadLocal => uploads ==> SavedAs(rs, slot, SteamBeforePush, remote.raw)
    case _ => uploads && remote.raw.IosForm? ==> SavedAs(rs, slot, SteamBeforePush, remote.raw)
  }

  lemma CompareStores(w: World, st: SyncState, save: LocalSave, remote: Remote, content: Content, up: bool, f: Faults)
    requires Chronological(w.backups, w.clock) && save.slot in w.local
    ensures var r := Comparing(w, st, save, remote, content, up, f);
            r.outcome != Failed ==>
              DecisionStores(r.w.backups, save.slot, w.local[save.slot], remote,
                             Decide(BaseOf(st.files, save.slot), save.content, content), up, w.replacementAllowed)
  {
    hide Pushing, Pulling, BackingUpBoth, Decide, Chronological, SavedAs, Upsert, BaseOf;
    PullAs(w, st, save.slot, remote, content, f);
    PushAs(w, st, save.slot, remote, f);
    BothAs(w, save.slot, remote.raw, LocalFirstSync, SteamFirstSync, f);
    BothAs(w, save.slot, remote.raw, LocalConflict, SteamConflict, f);
  }

  /** Whatever fails elsewhere, a slot's step that does not fail has stored what its decision calls for; a
      pinned version's pull stores the live save, a slot missing on Steam its live save. */
  lemma SlotStores(w: World, st: SyncState, save: LocalSave, up: bool, f: Faults)
    requires Chronological(w.backups, w.clock) && save.slot in w.local
    ensures var r := SyncingSlot(w, st, save, up, f);
            r.outcome != Failed ==>
              if save.slot !in w.steam then SavedAs(r.w.backups, save.slot, LocalFirstSync, w.local[save.slot])
              else
                var remote := w.steam[save.slot];
                && ContentOf(remote.raw).Some?
                && if save.slot in st.pulls && SameRemote(st.pulls[save.slot], remote)
                   then w.replacementAllowed ==> SavedAs(r.w.backups, save.slot, LocalBeforePull, w.local[save.slot])
                   else DecisionStores(r.w.backups, save.slot, w.local[save.slot], remote,
                                       Decide(BaseOf(st.files, save.slot), save.content, ContentOf(remote.raw).value),
                                       up, w.replacementAllowed)
  {
    hide Comparing, Pulling, Decide, Chronological, SavedAs, BaseOf, ContentOf, DecisionStores, BackupBytes;
    StoresAs(w, save.slot, LocalFirstSync, w.local[save.slot], f);
    if save.slot in w.steam && ContentOf(w.steam[save.slot].raw).Some? {
      var remote, content := w.steam[save.slot], ContentOf(w.steam[save.slot].raw).value;
      CompareStores(Tick(w), st, save, remote, content, up, f);
      CompareStores(Tick(w), Unpinned(st, save.slot), save, remote, content, up, f);
      PullAs(Tick(w), st, save.slot, remote, content, f);
    }
  }

  /** An invalid Steam object is stored as such if its backup can be written. */
  lemma InvalidStores(w: World, st: SyncState, save: LocalSave, up: bool, f: Faults)
    requires Chronological(w.backups, w.clock) && save.slot in w.steam && ContentOf(w.steam[save.slot].raw).None?
    requires !f(w.tick) && !f(w.tick + 1) && !f(w.tick + 2)
    ensures var r := SyncingSlot(w, st, save, up, f);
            r.outcome == Failed && SavedAs(r.w.backups, save.slot, SteamInvalid, w.steam[save.slot].raw)
  {
    StoresAs(Tick(w), save.slot, SteamInvalid, w.steam[save.slot].raw, f);
    hide Chronological, SavedAs, Add;
  }

  // ----- Choices -----

  /** A choice that succeeds has stored both sides under their labels; what it then changes is on the chosen
      side alone. */
  ghost predicate Chosen(w: World, slot: nat, useLocal: bool, name: Name, w': World) {
    && PreparedUpload(w, slot).Some?
    && (slot in w.steam ==>
          SavedAs(w'.backups, slot, LocalBeforeForce, w.local[slot])
          && SavedAs(w'.backups, slot, SteamBeforeForce, w.steam[slot].raw))
    && (if useLocal
        then var uploaded := Remote(if slot in w.steam then w.steam[slot].name else name,
                                    SteamForm(PreparedUpload(w, slot).value), true);
             && w'.steam == w.steam[slot := uploaded]
             && w'.state == w.state.(files := Upsert(w.state.files,
                  FileState(slot, uploaded.name, PreparedUpload(w, slot).value, Some(uploaded.raw))))
             && (if slot in w.steam then SavedAs(w'.backups, slot, SteamBeforePush, w.steam[slot].raw)
                 else SavedAs(w'.backups, slot, LocalFirstSync, w.local[slot]))
        else && slot in w.steam && w'.steam == w.steam
             && w'.state == w.state.(pulls := w.state.pulls[slot := PendingPull(w.steam[slot].name, Sha1(w.steam[slot]))]))
  }

  lemma PushKeepsAs(w: World, st: SyncState, slot: nat, remote: Remote, f: Faults, source: BackupSource, data: RawSave)
    requires Chronological(w.backups, w.clock) && source != SteamBeforePush && SavedAs(w.backups, slot, source, data)
    ensures SavedAs(Pushing(w, st, slot, remote, f).w.backups, slot, source, data)
  {
    hide BackupBytes, Chronological, SavedAs, RemoteUnchanged, PreparedUpload, Upsert;
    var u := RemoteUnchanged(Tick(w), slot, remote, f);
    UnchangedMeans(Tick(w), slot, remote, f);
    StillSavedAs(u.w, slot, SteamBeforePush, remote.raw, f, source, data);
  }

  lemma SavedState(w: World, st: SyncState, f: Faults)
    ensures var s := SaveState(w, st, f);
            s.w == w.(state := s.w.state, tick := s.w.tick) && (s.ok ==> s.w.state == st)
  {
  }

  lemma LocalPushed(w: World, b: World, slot: nat, name: Name, f: Faults)
    requires Chronological(b.backups, b.clock) && slot in w.steam && slot in w.local
    requires b == w.(backups := b.backups, clock := b.clock, tick := b.tick)
    requires SavedAs(b.backups, slot, LocalBeforeForce, w.local[slot])
    requires SavedAs(b.backups, slot, SteamBeforeForce, w.steam[slot].raw)
    ensures var p := Pushing(b, w.state, slot, w.steam[slot], f);
            p.ok ==> Chosen(w, slot, true, name, p.w.(state := p.st))
  {
    hide Pushing, Chronological, SavedAs, PreparedUpload, Upsert;
    var remote := w.steam[slot];
    PushEffect(b, w.state, slot, remote, f);
    PushAs(b, w.state, slot, remote, f);
    PushKeepsAs(b, w.state, slot, remote, f, LocalBeforeForce, w.local[slot]);
    PushKeepsAs(b, w.state, slot, remote, f, SteamBeforeForce, remote.raw);
    SamePrepared(w, b, slot);
  }

  lemma SamePrepared(w: World, w': World, slot: nat)
    requires w'.local == w.local
    ensures PreparedUpload(w', slot) == PreparedUpload(w, slot)
  {
  }

  lemma NewPushed(w: World, slot: nat, name: Name, f: Faults)
    requires Chronological(w.backups, w.clock) && slot !in w.steam
    ensures var p := PushingNew(Tick(w), w.state, slot, name, f);
            p.ok ==> Chosen(w, slot, true, name, p.w.(state := p.st))
  {
    hide PushingNew, Chronological, SavedAs, PreparedUpload, Upsert;
    PushNewEffect(Tick(w), w.state, slot, name, f);
    PushNewAs(Tick(w), w.state, slot, name, f);
    SamePrepared(w, Tick(w), slot);
  }

  /** Whatever may have failed on the way, a choice that reports success has done all of this. */
  lemma ChoiceStores(w: World, slot: nat, useLocal: bool, name: Name, f: Faults)
    requires Chronological(w.backups, w.clock)
    ensures var s := Forcing(w, slot, useLocal, name, f); s.ok ==> Chosen(w, slot, useLocal, name, s.w)
  {
    var w1 := Tick(w);
    if slot in w.steam {
      var remote := w.steam[slot];
      BothAs(w1, slot, remote.raw, LocalBeforeForce, SteamBeforeForce, f);
      var b := BackingUpBoth(w1, slot, remote.raw, LocalBeforeForce, SteamBeforeForce, f);
      hide BackingUpBoth, Pushing, PushingNew, SaveState, Chronological, SavedAs, PreparedUpload, Upsert;
      if b.ok {
        LocalPushed(w, b.w, slot, name, f);
        var p := Pushing(b.w, w.state, slot, remote, f);
        SavedState(p.w, p.st, f);
        SavedState(b.w, w.state.(pulls := w.state.pulls[slot := PendingPull(remote.name, Sha1(remote))]), f);
      }
    } else {
      NewPushed(w, slot, name, f);
      var p := PushingNew(w1, w.state, slot, name, f);
      SavedState(p.w, p.st, f);
      hide PushingNew, SaveState, Chronological, SavedAs, PreparedUpload, Upsert;
    }
  }

  /** Choosing Steam for a slot Steam lacks is a failure that changes nothing. */
  lemma ChoosingNothingFails(w: World, slot: nat, name: Name, f: Faults)
    requires slot !in w.steam
    ensures var s := Forcing(w, slot, false, name, f);
            !s.ok && s.w == w.(tick := s.w.tick)
  {
    hide PreparedUpload;
  }
}
