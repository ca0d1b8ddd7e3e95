/** What the engine achieves when nothing fails: every comparison and every choice of the user. */
module SyncChoices {
  import opened Bytes
  import opened Backups
  import opened SyncEngine
  import opened SyncModel
  import opened SyncSafety
  import opened SyncMachine
  import opened SyncRecovery

  // ----- Comparisons -----

  /** Nothing on either side and no record changes. */
  ghost predicate Untouched(w: World, st: SyncState, r: SlotResult) {
    r.w.local == w.local && r.w.steam == w.steam && r.st == st
  }

  /** The live save holds the content, in canonical form, and its former version is stored. */
  ghost predicate Installed(w: World, slot: nat, content: Content, w': World) {
    && slot in w.local && Saved(w'.backups, slot, w.local[slot])
    && w'.local == w.local[slot := SteamForm(content)] && w'.steam == w.steam
  }

  /** Steam holds the content, in canonical form under the given name, and its former version is stored. */
  ghost predicate Published(w: World, slot: nat, name: Name, content: Content, w': World) {
    && (slot in w.steam ==> Saved(w'.backups, slot, w.steam[slot].raw))
    && w'.steam == w.steam[slot := Remote(name, SteamForm(content), true)] && w'.local == w.local
  }

  /** Both sides are left alone and both versions are stored. */
  ghost predicate Postponed(w: World, st: SyncState, slot: nat, r: SlotResult) {
    && Untouched(w, st, r) && slot in w.local && slot in w.steam
    && Saved(r.w.backups, slot, w.local[slot]) && Saved(r.w.backups, slot, w.steam[slot].raw)
  }

  /** What one slot's step must achieve, by the contents `local` and `steam` and by BASE. */
  ghost predicate Achieves(w: World, st: SyncState, slot: nat, local: Content, steam: Content, up: bool, r: SlotResult)
    requires slot in w.steam
  {
    var base := BaseOf(st.files, slot);
    if local == steam then
      && r.w.local == w.local && SteamContent(r.w, slot) == Some(steam)
      && BaseOf(r.st.files, slot) == Some(steam)
      && r.outcome == (if !up && w.steam[slot].raw.IosForm? then UploadWaiting else Settled)
      && (if up then r.w.steam[slot].raw.SteamForm? else r.w.steam == w.steam)
    else if base == Some(local) then
      if w.replacementAllowed
      then r.outcome == Settled && Installed(w, slot, steam, r.w) && BaseOf(r.st.files, slot) == Some(steam)
      else r.outcome == ChoicePending(RestartRequired) && Untouched(w, st, r)
    else if base == Some(steam) then
      if up
      then && r.outcome == Settled && Published(w, slot, w.steam[slot].name, local, r.w)
           && BaseOf(r.st.files, slot) == Some(local)
      else r.outcome == UploadWaiting && Untouched(w, st, r)
    else
      r.outcome == ChoicePending(if base.None? then FirstSync else TrueConflict) && Postponed(w, st, slot, r)
  }

  lemma BothStored(w: World, slot: nat, remote: RawSave, first: BackupSource, second: BackupSource, f: Faults)
    requires NoFaults(f) && slot in w.local
    ensures BackingUpBoth(w, slot, remote, first, second, f).ok
  {
    hide Add, Keep;
  }

  /** Without faults a slot's step does what its three contents call for, and nothing else. */
  lemma SlotAchieves(w: World, st: SyncState, save: LocalSave, up: bool, f: Faults)
    requires Ready(w, st) && NoFaults(f) && save.slot !in st.pulls
    requires PreparedUpload(w, save.slot) == Some(save.content) && SteamContent(w, save.slot).Some?
    ensures Achieves(w, st, save.slot, save.content, SteamContent(w, save.slot).value, up,
                     SyncingSlot(w, st, save, up, f))
  {
    var steam := SteamContent(w, save.slot).value;
    var remote := w.steam[save.slot];
    var w1 := Tick(w);
    if save.content == steam {
      hide Comparing, BaseOf, Chronological;
      AgreedKeeps(w, st, save, up, f);
    } else {
      assert SyncingSlot(w, st, save, up, f) == Comparing(w1, st, save, remote, steam, up, f);
      assert Differing(w1, st, save, remote, steam, f);
      hide SyncingSlot, Comparing, Differing, BaseOf;
      DifferentAchieves(w1, st, save, remote, steam, up, f);
      Rewound(w, st, save.slot, save.content, steam, up, Comparing(w1, st, save, remote, steam, up, f));
    }
  }

  lemma AgreedKeeps(w: World, st: SyncState, save: LocalSave, up: bool, f: Faults)
    requires Ready(w, st) && NoFaults(f) && save.slot !in st.pulls
    requires PreparedUpload(w, save.slot) == Some(save.content) && SteamContent(w, save.slot) == Some(save.content)
    ensures Achieves(w, st, save.slot, save.content, save.content, up, SyncingSlot(w, st, save, up, f))
  {
    AgreedSlot(w, st, save, up, f);
    hide SyncingSlot, BaseOf, Chronological, FilesOk;
  }

  lemma Rewound(w: World, st: SyncState, slot: nat, local: Content, steam: Content, up: bool, r: SlotResult)
    requires local != steam && slot in w.steam
    requires Achieves(Tick(w), st, slot, local, steam, up, r)
    ensures Achieves(w, st, slot, local, steam, up, r)
  {
    hide BaseOf, Saved;
  }

  ghost predicate Differing(w: World, st: SyncState, save: LocalSave, remote: Remote, steam: Content, f: Faults) {
    && Ready(w, st) && NoFaults(f) && save.content != steam
    && PreparedUpload(w, save.slot) == Some(save.content)
    && save.slot in w.steam && w.steam[save.slot] == remote && ContentOf(remote.raw) == Some(steam)
  }

  lemma DifferentAchieves(w: World, st: SyncState, save: LocalSave, remote: Remote, steam: Content, up: bool, f: Faults)
    requires Differing(w, st, save, remote, steam, f)
    ensures Achieves(w, st, save.slot, save.content, steam, up, Comparing(w, st, save, remote, steam, up, f))
  {
    var base := BaseOf(st.files, save.slot);
    assert save.content != steam && save.slot in w.steam;
    hide Differing, Comparing, Achieves, BaseOf;
    if base == Some(save.content) {
      RemoteChangeAchieves(w, st, save, remote, steam, up, f);
    } else if base == Some(steam) {
      LocalChangeAchieves(w, st, save, remote, steam, up, f);
    } else {
      DivergenceAchieves(w, st, save, remote, steam, up, f);
    }
  }

  lemma RemoteChangeAchieves(w: World, st: SyncState, save: LocalSave, remote: Remote, steam: Content, up: bool, f: Faults)
    requires Differing(w, st, save, remote, steam, f) && BaseOf(st.files, save.slot) == Some(save.content)
    ensures Achieves(w, st, save.slot, save.content, steam, up, Comparing(w, st, save, remote, steam, up, f))
  {
    DecideSafe(BaseOf(st.files, save.slot), save.content, steam);
    if w.replacementAllowed {
      PullAchieves(w, st, save.slot, remote, steam, f);
    }
    hide Pulling, Decide, BaseOf, Saved, Ready, NoFaults;
  }

  lemma LocalChangeAchieves(w: World, st: SyncState, save: LocalSave, remote: Remote, steam: Content, up: bool, f: Faults)
    requires Differing(w, st, save, remote, steam, f) && BaseOf(st.files, save.slot) == Some(steam)
    ensures Achieves(w, st, save.slot, save.content, steam, up, Comparing(w, st, save, remote, steam, up, f))
  {
    DecideSafe(BaseOf(st.files, save.slot), save.content, steam);
    PushAchieves(w, st, save.slot, remote, save.content, f);
    hide Pushing, Decide, BaseOf, Saved, Ready, NoFaults;
  }

  lemma DivergenceAchieves(w: World, st: SyncState, save: LocalSave, remote: Remote, steam: Content, up: bool, f: Faults)
    requires Differing(w, st, save, remote, steam, f)
    requires BaseOf(st.files, save.slot) != Some(steam) && BaseOf(st.files, save.slot) != Some(save.content)
    ensures Achieves(w, st, save.slot, save.content, steam, up, Comparing(w, st, save, remote, steam, up, f))
  {
    DecideSafe(BaseOf(st.files, save.slot), save.content, steam);
    BothStored(w, save.slot, remote.raw, LocalFirstSync, SteamFirstSync, f);
    BothStored(w, save.slot, remote.raw, LocalConflict, SteamConflict, f);
    BackupBothEffect(w, save.slot, remote.raw, LocalFirstSync, SteamFirstSync, f);
    BackupBothEffect(w, save.slot, remote.raw, LocalConflict, SteamConflict, f);
    hide BackingUpBoth, Decide, BaseOf, Saved, Ready, NoFaults;
  }

  lemma PullAchieves(w: World, st: SyncState, slot: nat, remote: Remote, content: Content, f: Faults)
    requires Ready(w, st) && NoFaults(f) && w.replacementAllowed && slot in w.local
    requires remote.name.slot == slot
    ensures var p := Pulling(w, st, slot, remote, content, f);
            && p.outcome == Pulled && Installed(w, slot, content, p.w)
            && BaseOf(p.st.files, slot) == Some(content) && p.st.pulls == st.pulls
  {
    PullSucceeds(w, st, slot, remote, content, f);
    PullEffect(w, st, slot, remote, content, f);
    UpsertOneSlot(st.files, FileState(slot, remote.name, content, Sha1(remote)));
    PullStores(w, st, slot, remote, content, f);
    hide Pulling, Upsert, BaseOf, FilesOk, Chronological, Saved;
  }

  /** A successful pull stores the replaced version even when it equals the new one. */
  lemma PullStores(w: World, st: SyncState, slot: nat, remote: Remote, content: Content, f: Faults)
    requires Chronological(w.backups, w.clock) && NoFaults(f) && w.replacementAllowed && slot in w.local
    ensures Saved(Pulling(w, st, slot, remote, content, f).w.backups, slot, w.local[slot])
  {
    BackupEffect(w, slot, LocalBeforePull, w.local[slot], f);
    hide BackupBytes, Chronological, Upsert;
    var b := BackupBytes(w, slot, LocalBeforePull, w.local[slot], f);
    assert b.ok ==> BackupRecord(w.clock, slot, LocalBeforePull, w.local[slot]) in b.w.backups;
    assert b.ok by { BackupSucceeds(w, slot, LocalBeforePull, w.local[slot], f); }
  }

  lemma BackupSucceeds(w: World, slot: nat, source: BackupSource, data: RawSave, f: Faults)
    requires NoFaults(f)
    ensures BackupBytes(w, slot, source, data, f).ok
  {
  }

  lemma PushAchieves(w: World, st: SyncState, slot: nat, remote: Remote, content: Content, f: Faults)
    requires Ready(w, st) && NoFaults(f) && PreparedUpload(w, slot) == Some(content)
    requires slot in w.steam && w.steam[slot] == remote
    ensures var p := Pushing(w, st, slot, remote, f);
            && p.ok && Published(w, slot, remote.name, content, p.w)
            && BaseOf(p.st.files, slot) == Some(content) && p.st.pulls == st.pulls
  {
    PushSucceeds(w, st, slot, remote, f);
    PushEffect(w, st, slot, remote, f);
    var uploaded := Remote(remote.name, SteamForm(content), true);
    UpsertOneSlot(st.files, FileState(slot, remote.name, content, Sha1(uploaded)));
    hide Pushing, Upsert, BaseOf, FilesOk, Chronological, Saved, PreparedUpload, ContentOf;
  }

  /** A slot Steam does not have, and a Steam object that is no valid save, change nothing: the first asks
      for a choice after storing the live save, the second fails after storing the exact Steam bytes. */
  lemma UnusableIsKept(w: World, st: SyncState, save: LocalSave, up: bool, f: Faults)
    requires Ready(w, st) && NoFaults(f) && save.slot in w.local && SteamContent(w, save.slot).None?
    ensures var r := SyncingSlot(w, st, save, up, f);
            && Untouched(w, st, r)
            && if save.slot in w.steam
               then r.outcome == Failed && Saved(r.w.backups, save.slot, w.steam[save.slot].raw)
               else r.outcome == ChoicePending(RemoteMissing) && Saved(r.w.backups, save.slot, w.local[save.slot])
  {
    if save.slot in w.steam {
      var raw := w.steam[save.slot].raw;
      BackupEffect(Tick(w), save.slot, SteamInvalid, raw, f);
      BackupSucceeds(Tick(w), save.slot, SteamInvalid, raw, f);
      hide BackupBytes, Comparing, Chronological;
      assert BackupRecord(w.clock, save.slot, SteamInvalid, raw) in SyncingSlot(w, st, save, up, f).w.backups;
    } else {
      var raw := w.local[save.slot];
      BackupEffect(w, save.slot, LocalFirstSync, raw, f);
      BackupSucceeds(w, save.slot, LocalFirstSync, raw, f);
      hide BackupBytes, Comparing, Chronological;
      assert BackupRecord(w.clock, save.slot, LocalFirstSync, raw) in SyncingSlot(w, st, save, up, f).w.backups;
    }
  }

  // ----- Whole runs -----

  /** How a run leaves one slot, and the choice it asks for it, by the contents it started from. */
  ghost predicate EndsAs(w: World, st: SyncState, slot: nat, local: Content, steam: Content, up: bool,
                         w': World, st': SyncState, choice: Option<ChoiceKind>)
  {
    var base := BaseOf(st.files, slot);
    if local == steam then
      && choice == None && !Differs(w.local, w'.local, slot)
      && SteamContent(w', slot) == Some(steam) && BaseOf(st'.files, slot) == Some(steam)
    else if base == Some(local) && w.replacementAllowed then
      && choice == None && !Differs(w.steam, w'.steam, slot)
      && slot in w'.local && w'.local[slot] == SteamForm(steam) && BaseOf(st'.files, slot) == Some(steam)
    else if base == Some(steam) && up then
      && choice == None && !Differs(w.local, w'.local, slot)
      && slot in w'.steam && w'.steam[slot].raw == SteamForm(local) && BaseOf(st'.files, slot) == Some(local)
    else
      && SameSlot(w, st, w', st', slot)
      && choice == (if base == Some(local) then Some(RestartRequired)
                    else if base == Some(steam) then None
                    else if base == None then Some(FirstSync)
                    else Some(TrueConflict))
  }

  function ChoiceOf(pending: map<nat, ChoiceKind>, slot: nat): Option<ChoiceKind> {
    if slot in pending then Some(pending[slot]) else None
  }

  lemma SlotEnds(w: World, st: SyncState, save: LocalSave, up: bool, f: Faults)
    requires Ready(w, st) && NoFaults(f) && save.slot !in st.pulls
    requires PreparedUpload(w, save.slot) == Some(save.content) && SteamContent(w, save.slot).Some?
    ensures var r := SyncingSlot(w, st, save, up, f);
            && r.outcome != Failed
            && EndsAs(w, st, save.slot, save.content, SteamContent(w, save.slot).value, up, r.w, r.st,
                      if r.outcome.ChoicePending? then Some(r.outcome.kind) else None)
  {
    SlotAchieves(w, st, save, up, f);
    hide SyncingSlot, BaseOf, Ready, PreparedUpload, NoFaults, Saved;
  }

  lemma EndsStay(w: World, st: SyncState, slot: nat, local: Content, steam: Content, up: bool, choice: Option<ChoiceKind>,
                 w1: World, st1: SyncState, w2: World, st2: SyncState)
    requires EndsAs(w, st, slot, local, steam, up, w1, st1, choice) && SameSlot(w1, st1, w2, st2, slot)
    ensures EndsAs(w, st, slot, local, steam, up, w2, st2, choice)
  {
    hide BaseOf;
  }

  lemma EndsFrom(w: World, st: SyncState, w1: World, st1: SyncState, slot: nat, local: Content, steam: Content, up: bool,
                 w2: World, st2: SyncState, choice: Option<ChoiceKind>)
    requires SameSlot(w, st, w1, st1, slot) && w1.replacementAllowed == w.replacementAllowed
    requires EndsAs(w1, st1, slot, local, steam, up, w2, st2, choice)
    ensures EndsAs(w, st, slot, local, steam, up, w2, st2, choice)
  {
    hide BaseOf;
  }

  lemma PermissionStays(w: World, st: SyncState, save: LocalSave, up: bool, f: Faults)
    requires Ready(w, st)
    ensures SyncingSlot(w, st, save, up, f).w.replacementAllowed == w.replacementAllowed
  {
    SyncingSlotOk(w, st, save, up, f);
    hide SyncingSlot, LocalJustified, SteamJustified, BaseWitnessed;
  }

  /** A completed run without faults leaves every slot that has no queued pull as its own three contents
      call for, whatever the other slots hold. */
  lemma {:induction false} RunAchieves(w: World, st: SyncState, saves: seq<LocalSave>, up: bool, f: Faults, save: LocalSave)
    requires Ready(w, st) && NoFaults(f) && UniqueSlots(saves) && save in saves && save.slot !in st.pulls
    requires PreparedUpload(w, save.slot) == Some(save.content) && SteamContent(w, save.slot).Some?
    requires RunningSlots(w, st, saves, up, f).ok
    ensures var r := RunningSlots(w, st, saves, up, f);
            EndsAs(w, st, save.slot, save.content, SteamContent(w, save.slot).value, up, r.w, r.st,
                   ChoiceOf(r.pending, save.slot))
    decreases |saves|
  {
    var r := SyncingSlot(w, st, saves[0], up, f);
    var rest := RunningSlots(r.w, r.st, saves[1..], up, f);
    var steam := SteamContent(w, save.slot).value;
    SlotFrame(w, st, saves[0], up, f, save.slot);
    assert saves == [saves[0]] + saves[1..];
    if saves[0].slot == save.slot {
      assert saves[0] == save;
      SlotEnds(w, st, save, up, f);
      hide SyncingSlot, BaseOf, Ready, EndsAs, SameSlot, PreparedUpload, SteamContent, NoFaults;
      var choice := if r.outcome.ChoicePending? then Some(r.outcome.kind) else None;
      RunFrame(r.w, r.st, saves[1..], up, f, save.slot);
      EndsStay(w, st, save.slot, save.content, steam, up, choice, r.w, r.st, rest.w, rest.st);
    } else {
      PermissionStays(w, st, saves[0], up, f);
      SameViews(w, r.w, save.slot);
      assert save.slot !in r.st.pulls;
      hide SyncingSlot, BaseOf, Ready, EndsAs, SameSlot, PreparedUpload, SteamContent, NoFaults;
      RunAchieves(r.w, r.st, saves[1..], up, f, save);
      EndsFrom(w, st, r.w, r.st, save.slot, save.content, steam, up, rest.w, rest.st, ChoiceOf(rest.pending, save.slot));
    }
  }

  // ----- Choices -----

  lemma SavesState(w: World, st: SyncState, f: Faults)
    requires NoFaults(f)
    ensures SaveState(w, st, f) == Step(w.(state := st, tick := w.tick + 2), true)
  {
  }

  /** Choosing Steam queues exactly the version Steam holds and stores both sides; the next step of that
      slot under an open window installs it, makes it BASE and empties the queue. */
  lemma ChosenSteamIsInstalled(w: World, slot: nat, name: Name, content: Content, save: LocalSave, up: bool, f: Faults)
    requires Ready(w, w.state) && NoFaults(f) && PreparedUpload(w, slot).Some?
    requires SteamContent(w, slot) == Some(content) && save.slot == slot
    ensures var s := Forcing(w, slot, false, name, f);
            && s.ok && s.w.local == w.local && s.w.steam == w.steam
            && s.w.state == w.state.(pulls := w.state.pulls[slot := PendingPull(w.steam[slot].name, Sha1(w.steam[slot]))])
            && Saved(s.w.backups, slot, w.local[slot]) && Saved(s.w.backups, slot, w.steam[slot].raw)
            && var open := s.w.(replacementAllowed := true);
               var r := SyncingSlot(open, open.state, save, up, f);
               && r.outcome == Settled && Installed(open, slot, content, r.w)
               && BaseOf(r.st.files, slot) == Some(content) && slot !in r.st.pulls
  {
    var remote := w.steam[slot];
    BothStored(Tick(w), slot, remote.raw, LocalBeforeForce, SteamBeforeForce, f);
    BackupBothEffect(Tick(w), slot, remote.raw, LocalBeforeForce, SteamBeforeForce, f);
    var b := BackingUpBoth(Tick(w), slot, remote.raw, LocalBeforeForce, SteamBeforeForce, f);
    var st := w.state.(pulls := w.state.pulls[slot := PendingPull(remote.name, Sha1(remote))]);
    SavesState(b.w, st, f);
    var s := Forcing(w, slot, false, name, f);
    assert s == SaveState(b.w, st, f) by { hide BackingUpBoth, SaveState, PreparedUpload; }
    var open := s.w.(replacementAllowed := true);
    assert Ready(open, open.state);
    hide BackingUpBoth, SaveState, Forcing, BaseOf, Saved, Ready, SyncingSlot, Installed;
    PinInstalls(open, save, content, up, f);
  }

  /** The next step of a slot whose queued version Steam still holds installs it under an open window. */
  lemma PinInstalls(w: World, save: LocalSave, content: Content, up: bool, f: Faults)
    requires Ready(w, w.state) && NoFaults(f) && w.replacementAllowed && save.slot in w.local
    requires SteamContent(w, save.slot) == Some(content)
    requires save.slot in w.state.pulls && SameRemote(w.state.pulls[save.slot], w.steam[save.slot])
    ensures var r := SyncingSlot(w, w.state, save, up, f);
            && r.outcome == Settled && Installed(w, save.slot, content, r.w)
            && BaseOf(r.st.files, save.slot) == Some(content) && save.slot !in r.st.pulls
  {
    var remote := w.steam[save.slot];
    assert Ready(Tick(w), w.state);
    PullAchieves(Tick(w), w.state, save.slot, remote, content, f);
    hide Pulling, Comparing, BaseOf, Saved, Ready;
    var p := Pulling(Tick(w), w.state, save.slot, remote, content, f);
    assert SyncingSlot(w, w.state, save, up, f) == SlotResult(p.w, Unpinned(p.st, save.slot), Settled) by {
      hide Installed, NoFaults;
    }
  }

  /** A listed object passes as the one chosen exactly when it has the same name and either both listings
      have the same SHA-1 or neither has any. */
  lemma PinMatches(chosen: Remote, now: Remote)
    ensures SameRemote(PendingPull(chosen.name, Sha1(chosen)), now)
       <==> now.name == chosen.name && ((chosen.hashed && now.hashed && now.raw == chosen.raw) || (!chosen.hashed && !now.hashed))
  {
  }

  /** What a queued pull installs is certain to be the content the user chose exactly when Steam listed a
      SHA-1 for it. If it did not, any object that later has the name and no SHA-1 is installed. */
  lemma PinInstallsChosenIff(w: World, chosen: Remote, save: LocalSave, up: bool, f: Faults)
    requires Ready(w, w.state) && NoFaults(f) && w.replacementAllowed && save.slot in w.local && chosen.name.slot == save.slot
    requires save.slot in w.state.pulls && w.state.pulls[save.slot] == PendingPull(chosen.name, Sha1(chosen))
    ensures chosen.hashed <==>
              forall now: Remote {:trigger Offering(w, save.slot, now)} ::
                SameRemote(w.state.pulls[save.slot], now) && ContentOf(now.raw).Some? ==>
                  var there := Offering(w, save.slot, now);
                  Installed(there, save.slot, ContentOf(now.raw).value, SyncingSlot(there, there.state, save, up, f).w)
                  && ContentOf(now.raw) == ContentOf(chosen.raw)
  {
    hide SyncingSlot, Installed, SameRemote, BaseOf;
    forall now: Remote | SameRemote(w.state.pulls[save.slot], now) && ContentOf(now.raw).Some?
      ensures var there := Offering(w, save.slot, now);
              Installed(there, save.slot, ContentOf(now.raw).value, SyncingSlot(there, there.state, save, up, f).w)
      ensures chosen.hashed ==> ContentOf(now.raw) == ContentOf(chosen.raw)
    {
      PinMatches(chosen, now);
      OfferingReady(w, save.slot, now);
      PinInstalls(Offering(w, save.slot, now), save, ContentOf(now.raw).value, up, f);
    }
    if !chosen.hashed {
      var other := if ContentOf(chosen.raw) == Some([]) then SteamForm([0]) else SteamForm([]);
      var now := Remote(chosen.name, other, false);
      PinMatches(chosen, now);
      assert ContentOf(now.raw).Some? && ContentOf(now.raw) != ContentOf(chosen.raw);
      var there := Offering(w, save.slot, now);
    }
  }

  /** The world in which Steam now holds this object for the slot. */
  function Offering(w: World, slot: nat, now: Remote): World {
    w.(steam := w.steam[slot := now])
  }

  lemma OfferingReady(w: World, slot: nat, now: Remote)
    requires Ready(w, w.state) && now.name.slot == slot
    ensures var there := Offering(w, slot, now);
            Ready(there, there.state) && SteamContent(there, slot) == ContentOf(now.raw)
  {
  }

  ghost predicate LocalWon(w: World, slot: nat, name: Name, content: Content, s: Step) {
    && s.ok && Published(w, slot, name, content, s.w)
    && BaseOf(s.w.state.files, slot) == Some(content) && s.w.state.pulls == w.state.pulls
  }

  /** Choosing the local side publishes it, stores what Steam held and makes it BASE at once. */
  lemma ChosenLocalIsPublished(w: World, slot: nat, name: Name, content: Content, f: Faults)
    requires Ready(w, w.state) && NoFaults(f) && name.slot == slot && PreparedUpload(w, slot) == Some(content)
    ensures LocalWon(w, slot, if slot in w.steam then w.steam[slot].name else name, content, Forcing(w, slot, true, name, f))
  {
    var w1 := Tick(w);
    if slot in w.steam {
      var remote := w.steam[slot];
      BothStored(w1, slot, remote.raw, LocalBeforeForce, SteamBeforeForce, f);
      BackupBothEffect(w1, slot, remote.raw, LocalBeforeForce, SteamBeforeForce, f);
      var b := BackingUpBoth(w1, slot, remote.raw, LocalBeforeForce, SteamBeforeForce, f);
      hide BackingUpBoth, Chronological, BaseOf;
      PushAchieves(b.w, w.state, slot, remote, content, f);
      var p := Pushing(b.w, w.state, slot, remote, f);
      SavesState(p.w, p.st, f);
      hide Pushing, SaveState, PreparedUpload, ContentOf, Saved, Ready;
      assert Forcing(w, slot, true, name, f) == SaveState(p.w, p.st, f);
    } else {
      hide Chronological, BaseOf;
      PushNewAchieves(w1, w.state, slot, name, content, f);
      var p := PushingNew(w1, w.state, slot, name, f);
      SavesState(p.w, p.st, f);
      hide PushingNew, SaveState, PreparedUpload, ContentOf, Saved, Ready;
      assert Forcing(w, slot, true, name, f) == SaveState(p.w, p.st, f);
    }
  }

  lemma PushNewAchieves(w: World, st: SyncState, slot: nat, name: Name, content: Content, f: Faults)
    requires Ready(w, st) && NoFaults(f) && PreparedUpload(w, slot) == Some(content)
    requires slot !in w.steam && name.slot == slot
    ensures var p := PushingNew(w, st, slot, name, f);
            && p.ok && Published(w, slot, name, content, p.w)
            && BaseOf(p.st.files, slot) == Some(content) && p.st.pulls == st.pulls
  {
    BackupSucceeds(Tick(Tick(w)), slot, LocalFirstSync, w.local[slot], f);
    PushNewEffect(w, st, slot, name, f);
    UpsertOneSlot(st.files, FileState(slot, name, content, Sha1(Remote(name, SteamForm(content), true))));
    hide BackupBytes, Upsert, BaseOf, FilesOk, Chronological, Saved;
  }

  /** Queueing a restore records the backup. Applying it under an open window installs that version exactly
      when it outlives the backup of the live save the restore makes first; otherwise the live save stays,
      the approved version is deleted, and the restore stays queued without its version. */
  lemma QueuedRestoreIsInstalled(w: World, record: BackupRecord<RawSave>, f: Faults)
    requires WorldOk(w) && NoFaults(f) && record in w.backups
    requires ContentOf(record.data).Some? && record.slot in w.local
    ensures var s := QueueingRestore(w, record.id, f);
            && s.ok && s.w == w.(state := s.w.state, tick := s.w.tick)
            && s.w.state == w.state.(restore := Some(PendingRestore(record.id, record.slot, record.data)))
            && var open := s.w.(replacementAllowed := true);
               var r := ApplyingPending(open, None, f);
               && (r.ok <==> Outlives(w.backups, record, record.slot, LocalBeforeRestore))
               && (r.ok ==> r.w.local == w.local[record.slot := record.data] && r.w.state.restore == None)
               && (!r.ok ==> r.w.local == w.local && r.w.state == open.state && Approved(r.w) == None)
               && Saved(r.w.backups, record.slot, w.local[record.slot])
  {
    FindStored(w.backups, record, w.clock);
    var s := QueueingRestore(w, record.id, f);
    var open := s.w.(replacementAllowed := true);
    assert open.backups == w.backups && open.local == w.local;
    RestoreEffect(open, record, record.slot, f);
    RestoreInstallsIff(open, record, f);
    assert Approved(open) == Some(open.state.restore.value);
    var r := RestoreLocal(open, record.id, record.slot, f);
    SavesState(r.w, r.w.state.(restore := None), f);
    hide RestoreLocal, SaveState, FindRecord, Chronological, Saved, Outlives, ContentOf;
  }

  // ----- A restore that deletes its own version -----

  function Twelve(n: nat): (rs: seq<BackupRecord<RawSave>>)
    ensures |rs| == n && forall k :: 0 <= k < n ==> rs[k] == BackupRecord(k, 0, LocalBeforeRestore, SteamForm([]))
  {
    seq(n, k requires 0 <= k < n => BackupRecord(k, 0, LocalBeforeRestore, SteamForm([])))
  }

  lemma {:induction false} AllVersions(rs: seq<BackupRecord<RawSave>>, slot: nat, source: BackupSource)
    requires forall k :: 0 <= k < |rs| ==> Matches(rs[k], slot, source)
    ensures Versions(rs, slot, source) == rs
  {
    if rs == [] {
    } else {
      AllVersions(rs[..|rs| - 1], slot, source);
    }
  }

  /** The oldest of twelve versions kept from restores cannot be restored: asking for it destroys it. */
  lemma RestoreDestroysItself(f: Faults) returns (w: World, record: BackupRecord<RawSave>)
    requires NoFaults(f)
    ensures WorldOk(w) && record in w.backups && ContentOf(record.data).Some? && record.slot in w.local
    ensures var open := QueueingRestore(w, record.id, f).w.(replacementAllowed := true);
            var r := ApplyingPending(open, None, f);
            && Approved(open).Some? && !r.ok && r.w.local == w.local && Approved(r.w) == None
            && record !in r.w.backups
  {
    var rs := Twelve(12);
    record := rs[0];
    w := World(map[0 := SteamForm([1])], map[], SyncState(None, map[], map[], None), rs, 12, false, 0);
    AllVersions(rs, 0, LocalBeforeRestore);
    assert !Outlives(rs, record, 0, LocalBeforeRestore) by {
      assert forall k :: 1 <= k < 12 ==> rs[k].id != 0;
    }
    QueuedRestoreIsInstalled(w, record, f);
    FindStored(rs, record, 12);
    var open := QueueingRestore(w, record.id, f).w.(replacementAllowed := true);
    RestoreGone(open, record, f);
  }

  lemma RestoreGone(w: World, record: BackupRecord<RawSave>, f: Faults)
    requires WorldOk(w) && NoFaults(f) && record in w.backups && record.slot in w.local
    requires Approved(w) == Some(PendingRestore(record.id, record.slot, record.data))
    requires !ApplyingPending(w, None, f).ok
    ensures record !in ApplyingPending(w, None, f).w.backups
  {
    RestoreEffect(w, record, record.slot, f);
    RestoreInstallsIff(w, record, f);
    var r := RestoreLocal(w, record.id, record.slot, f);
    SavesState(r.w, r.w.state.(restore := None), f);
    if record in r.w.backups {
      FindStored(r.w.backups, record, r.w.clock);
    }
    hide RestoreLocal, SaveState, FindRecord, Chronological, Saved, Outlives, ContentOf;
  }
}
