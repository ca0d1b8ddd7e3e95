/** Runs without interference: what survives a failed run, and where repeated runs come to rest. */
module SyncRecovery {
  import opened Bytes
  import opened Backups
  import opened SyncEngine
  import opened SyncModel
  import opened SyncSafety
  import opened SyncMachine

  function SteamContent(w: World, slot: nat): Option<Content> {
    if slot in w.steam then ContentOf(w.steam[slot].raw) else None
  }

  ghost predicate SameSlot(w: World, st: SyncState, w': World, st': SyncState, slot: nat) {
    && !Differs(w.local, w'.local, slot) && !Differs(w.steam, w'.steam, slot)
    && BaseOf(st'.files, slot) == BaseOf(st.files, slot)
    && !Differs(st.pulls, st'.pulls, slot)
  }

  ghost predicate Ready(w: World, st: SyncState) {
    WorldOk(w) && FilesOk(st.files)
  }

  // ----- One slot leaves the others alone -----

  lemma SlotFrame(w: World, st: SyncState, save: LocalSave, up: bool, f: Faults, slot: nat)
    requires Ready(w, st)
    ensures var r := SyncingSlot(w, st, save, up, f);
            Ready(r.w, r.st) && (slot != save.slot ==> SameSlot(w, st, r.w, r.st, slot))
  {
    SyncingSlotOk(w, st, save, up, f);
    var r := SyncingSlot(w, st, save, up, f);
    hide SyncingSlot;
    NamesKept(w, st, save, up, r);
    FilesFrame(w, st, save, up, r, slot);
    hide Chronological, Saved, BaseOf, PreparedUpload, ContentOf, Upsert, FilesOk, BaseWitnessed;
  }

  lemma FilesFrame(w: World, st: SyncState, save: LocalSave, up: bool, r: SlotResult, slot: nat)
    requires Ready(w, st) && WorldOk(r.w) && BaseWitnessed(st, save, r.w, r.st)
    ensures FilesOk(r.st.files)
    ensures slot != save.slot ==> BaseOf(r.st.files, slot) == BaseOf(st.files, slot)
  {
    hide Chronological, BaseOf, PreparedUpload, ContentOf, Upsert;
    if r.st.files != st.files {
      var sha1, base :| r.st.files == Upsert(st.files, FileState(save.slot, r.w.steam[save.slot].name, base, sha1))
           && ContentOf(r.w.steam[save.slot].raw) == Some(base)
           && (base == save.content || PreparedUpload(r.w, save.slot) == Some(base));
      UpsertOneSlot(st.files, FileState(save.slot, r.w.steam[save.slot].name, base, sha1));
    }
  }

  lemma {:induction false} RunFrame(w: World, st: SyncState, saves: seq<LocalSave>, up: bool, f: Faults, slot: nat)
    requires Ready(w, st) && forall i :: 0 <= i < |saves| ==> saves[i].slot != slot
    ensures var r := RunningSlots(w, st, saves, up, f);
            Ready(r.w, r.st) && SameSlot(w, st, r.w, r.st, slot) && slot !in r.pending
    decreases |saves|
  {
    hide Ready, SyncingSlot, BaseOf;
    if saves == [] {
    } else {
      SlotFrame(w, st, saves[0], up, f, slot);
      var r := SyncingSlot(w, st, saves[0], up, f);
      if r.outcome != Failed {
        RunFrame(r.w, r.st, saves[1..], up, f, slot);
      }
    }
  }

  // ----- Recovery -----

  /** A slot whose two sides hold the same content, as discovery saw it, is settled without a choice. */
  lemma AgreedSlot(w: World, st: SyncState, save: LocalSave, up: bool, f: Faults)
    requires Ready(w, st) && save.slot !in st.pulls
    requires PreparedUpload(w, save.slot) == Some(save.content) && SteamContent(w, save.slot) == Some(save.content)
    ensures var r := SyncingSlot(w, st, save, up, f);
            && r.outcome in {Settled, UploadWaiting, Failed}
            && r.w.local == w.local
            && save.slot !in r.st.pulls
            && (r.outcome != Failed ==>
                  (&& BaseOf(r.st.files, save.slot) == Some(save.content)
                   && SteamContent(r.w, save.slot) == Some(save.content)))
            && ((forall n :: !f(n)) ==>
                  (&& r.outcome == (if up || !w.steam[save.slot].raw.IosForm? then Settled else UploadWaiting)
                   && (up ==> r.w.steam[save.slot].raw.SteamForm?)))
            && (BaseOf(st.files, save.slot) == Some(save.content) && w.steam[save.slot].raw.SteamForm? ==>
                  r.w == Tick(w) && r.st == st)
  {
    var remote := w.steam[save.slot];
    DecideSafe(BaseOf(st.files, save.slot), save.content, save.content);
    AgreedPush(Tick(w), st, save, remote, f);
    UpsertOneSlot(st.files, FileState(save.slot, remote.name, save.content, Sha1(remote)));
    hide Decide, Pushing, Pulling, BackingUpBoth, Upsert, BaseOf, FilesOk, Chronological, Saved, Ready;
  }

  lemma AgreedPush(w: World, st: SyncState, save: LocalSave, remote: Remote, f: Faults)
    requires Ready(w, st) && save.slot in w.steam && w.steam[save.slot] == remote
    requires PreparedUpload(w, save.slot) == Some(save.content) && ContentOf(remote.raw) == Some(save.content)
    ensures var p := Pushing(w, st, save.slot, remote, f);
            && p.w.local == w.local && p.st.pulls == st.pulls
            && ((forall n :: !f(n)) ==> p.ok)
            && (p.ok ==>
                  (&& BaseOf(p.st.files, save.slot) == Some(save.content)
                   && save.slot in p.w.steam && p.w.steam[save.slot].raw == SteamForm(save.content)))
  {
    PushEffect(w, st, save.slot, remote, f);
    var uploaded := Remote(remote.name, SteamForm(save.content), true);
    UpsertOneSlot(st.files, FileState(save.slot, remote.name, save.content, Sha1(uploaded)));
    if forall n :: !f(n) {
      PushSucceeds(w, st, save.slot, remote, f);
    }
    hide Pushing, Upsert, BaseOf, FilesOk, Chronological, Saved, PreparedUpload, ContentOf;
  }

  lemma {:induction false} AgreedSettles(w: World, st: SyncState, saves: seq<LocalSave>, up: bool, f: Faults, save: LocalSave)
    requires Ready(w, st) && UniqueSlots(saves) && save in saves && save.slot !in st.pulls
    requires PreparedUpload(w, save.slot) == Some(save.content) && SteamContent(w, save.slot) == Some(save.content)
    requires RunningSlots(w, st, saves, up, f).ok
    ensures var r := RunningSlots(w, st, saves, up, f);
            && save.slot !in r.pending
            && BaseOf(r.st.files, save.slot) == Some(save.content)
            && PreparedUpload(r.w, save.slot) == Some(save.content)
            && SteamContent(r.w, save.slot) == Some(save.content)
    decreases |saves|
  {
    hide SyncingSlot, BaseOf, Ready;
    var r := SyncingSlot(w, st, saves[0], up, f);
    SlotFrame(w, st, saves[0], up, f, save.slot);
    assert saves == [saves[0]] + saves[1..];
    if saves[0].slot == save.slot {
      AgreedSlot(w, st, save, up, f);
      RunFrame(r.w, r.st, saves[1..], up, f, save.slot);
    } else {
      AgreedSettles(r.w, r.st, saves[1..], up, f, save);
    }
  }

  /** Both sides hold the same valid content. */
  ghost predicate Agrees(w: World, slot: nat) {
    PreparedUpload(w, slot).Some? && PreparedUpload(w, slot) == SteamContent(w, slot)
  }

  lemma SlotTouched(w: World, st: SyncState, save: LocalSave, up: bool, f: Faults)
    requires Ready(w, st)
    ensures var r := SyncingSlot(w, st, save, up, f);
            Touched(w, r.w, save.slot) ==> Agrees(r.w, save.slot)
    ensures SyncingSlot(w, st, save, up, f).w.state == w.state
  {
    SyncingSlotOk(w, st, save, up, f);
    hide SyncingSlot, Chronological, Saved, BaseOf, Upsert;
  }

  /** A run changed the slot on one side. */
  ghost predicate Touched(w: World, w': World, slot: nat) {
    Differs(w.local, w'.local, slot) || Differs(w.steam, w'.steam, slot)
  }

  lemma NothingTouched(w: World, slot: nat)
    ensures !Touched(w, w, slot)
  {
  }

  /** Wherever a run stops, each slot it changed holds the same content on both sides. */
  lemma {:induction false} TouchedAgrees(w: World, st: SyncState, saves: seq<LocalSave>, up: bool, f: Faults, slot: nat)
    requires Ready(w, st) && UniqueSlots(saves)
    ensures var r := RunningSlots(w, st, saves, up, f);
            r.w.state == w.state && (Touched(w, r.w, slot) ==> Agrees(r.w, slot))
    decreases |saves|
  {
    hide SyncingSlot, BaseOf, Ready, Agrees, Differs;
    if saves == [] {
      NothingTouched(w, slot);
    } else {
      var r := SyncingSlot(w, st, saves[0], up, f);
      SlotFrame(w, st, saves[0], up, f, slot);
      SlotTouched(w, st, saves[0], up, f);
      if r.outcome != Failed {
        var rest := RunningSlots(r.w, r.st, saves[1..], up, f);
        TouchedAgrees(r.w, r.st, saves[1..], up, f, slot);
        if saves[0].slot == slot {
          RunFrame(r.w, r.st, saves[1..], up, f, slot);
          TouchedMoves(w, r.w, rest.w, slot);
        } else {
          TouchedBefore(w, r.w, rest.w, slot);
        }
      }
    }
  }

  lemma TouchedMoves(w: World, w1: World, w2: World, slot: nat)
    requires Touched(w, w1, slot) ==> Agrees(w1, slot)
    requires !Touched(w1, w2, slot)
    ensures Touched(w, w2, slot) ==> Agrees(w2, slot)
  {
    SameViews(w1, w2, slot);
    hide PreparedUpload, SteamContent;
  }

  lemma TouchedBefore(w: World, w1: World, w2: World, slot: nat)
    requires !Touched(w, w1, slot) && (Touched(w1, w2, slot) ==> Agrees(w2, slot))
    ensures Touched(w, w2, slot) ==> Agrees(w2, slot)
  {
    hide Agrees;
  }

  lemma SameViews(w: World, w': World, slot: nat)
    requires !Touched(w, w', slot)
    ensures PreparedUpload(w', slot) == PreparedUpload(w, slot) && SteamContent(w', slot) == SteamContent(w, slot)
  {
  }

  /** Failure recovery: a run stops at any point, with any faults, before it saves its state; neither
      side then changes. The next run that completes finds every slot the first one changed, and that
      has no queued pull, converged or unchanged, asks no choice for it, and leaves BASE equal to both
      sides. */
  lemma FailedRunRecovers(w: World, saves: seq<LocalSave>, up: bool, f: Faults,
                          saves': seq<LocalSave>, up': bool, f': Faults, save: LocalSave)
    requires Ready(w, w.state) && UniqueSlots(saves)
    requires var w1 := RunningSlots(w, w.state, saves, up, f).w;
             && Touched(w, w1, save.slot) && save.slot !in w.state.pulls
             && UniqueSlots(saves') && Accurate(w1, saves') && save in saves'
             && RunningSlots(w1, w1.state, saves', up', f').ok
    ensures var w1 := RunningSlots(w, w.state, saves, up, f).w;
            var r := RunningSlots(w1, w1.state, saves', up', f');
            && w1.state == w.state
            && SteamContent(w1, save.slot) == Some(save.content)
            && Decide(BaseOf(w.state.files, save.slot), save.content, save.content) in {Unchanged, Converged}
            && save.slot !in r.pending
            && BaseOf(r.st.files, save.slot) == PreparedUpload(r.w, save.slot) == SteamContent(r.w, save.slot)
            && BaseOf(r.st.files, save.slot) == Some(save.content)
  {
    var w1 := RunningSlots(w, w.state, saves, up, f).w;
    TouchedAgrees(w, w.state, saves, up, f, save.slot);
    RunReady(w, w.state, saves, up, f);
    DecideSafe(BaseOf(w.state.files, save.slot), save.content, save.content);
    hide RunningSlots, BaseOf, SteamContent, PreparedUpload;
    AgreedSettles(w1, w1.state, saves', up', f', save);
  }

  lemma {:induction false} RunReady(w: World, st: SyncState, saves: seq<LocalSave>, up: bool, f: Faults)
    requires Ready(w, st)
    ensures var r := RunningSlots(w, st, saves, up, f); Ready(r.w, r.st)
    decreases |saves|
  {
    hide SyncingSlot, Ready, SameSlot;
    if saves == [] {
    } else {
      SlotFrame(w, st, saves[0], up, f, saves[0].slot);
      var r := SyncingSlot(w, st, saves[0], up, f);
      if r.outcome != Failed {
        RunReady(r.w, r.st, saves[1..], up, f);
      }
    }
  }

  // ----- After an account change or a migration -----

  ghost predicate Unrecorded(st: SyncState, slot: nat) {
    BaseOf(st.files, slot) == None && slot !in st.pulls
  }

  lemma UnrecordedSlot(w: World, st: SyncState, save: LocalSave, up: bool, f: Faults)
    requires Ready(w, st) && Unrecorded(st, save.slot) && PreparedUpload(w, save.slot) == Some(save.content)
    ensures var r := SyncingSlot(w, st, save, up, f);
            r.w.local == w.local && forall s :: SteamContent(r.w, s) == SteamContent(w, s)
  {
    SyncingSlotOk(w, st, save, up, f);
    hide SyncingSlot, BaseOf, PreparedUpload, Saved, Chronological, FilesOk, WorldOk;
  }

  /** A run without BASE records and queued pulls, as after an account change or a migration, replaces
      no live save and leaves the content of every Steam object as it was, whatever fails. */
  lemma {:induction false} FreshRunTransfersNothing(w: World, st: SyncState, saves: seq<LocalSave>, up: bool, f: Faults)
    requires Ready(w, st) && UniqueSlots(saves) && Accurate(w, saves)
    requires forall i :: 0 <= i < |saves| ==> Unrecorded(st, saves[i].slot)
    ensures var r := RunningSlots(w, st, saves, up, f);
            r.w.local == w.local && forall s :: SteamContent(r.w, s) == SteamContent(w, s)
    decreases |saves|
  {
    if saves == [] {
    } else {
      var r := SyncingSlot(w, st, saves[0], up, f);
      UnrecordedSlot(w, st, saves[0], up, f);
      SlotFrame(w, st, saves[0], up, f, saves[0].slot);
      hide SyncingSlot, BaseOf, Ready, SteamContent;
      forall i | 0 <= i < |saves[1..]|
        ensures Unrecorded(r.st, saves[1..][i].slot)
        ensures PreparedUpload(r.w, saves[1..][i].slot) == Some(saves[1..][i].content)
      {
        assert saves[1..][i] == saves[i + 1];
        SlotFrame(w, st, saves[0], up, f, saves[i + 1].slot);
      }
      if r.outcome != Failed {
        FreshRunTransfersNothing(r.w, r.st, saves[1..], up, f);
      }
    }
  }

  // ----- The fixed point -----

  /** The slot holds `content` on both sides and in BASE, and no pull is queued for it. */
  ghost predicate AtRest(w: World, st: SyncState, slot: nat, content: Content) {
    && PreparedUpload(w, slot) == Some(content)
    && SteamContent(w, slot) == Some(content)
    && BaseOf(st.files, slot) == Some(content)
    && slot !in st.pulls
  }

  ghost predicate Rests(w: World, st: SyncState, slot: nat) {
    exists c :: AtRest(w, st, slot, c)
  }

  ghost predicate AllRest(w: World, st: SyncState, saves: seq<LocalSave>) {
    forall i :: 0 <= i < |saves| ==> Rests(w, st, saves[i].slot)
  }

  /** A slot's step that settles leaves the slot at rest. */
  lemma SettledAtRest(w: World, st: SyncState, save: LocalSave, up: bool, f: Faults)
    requires Ready(w, st) && PreparedUpload(w, save.slot) == Some(save.content)
    requires SyncingSlot(w, st, save, up, f).outcome == Settled
    ensures var r := SyncingSlot(w, st, save, up, f);
            Rests(r.w, r.st, save.slot)
  {
    var remote := w.steam[save.slot];
    var content := ContentOf(remote.raw).value;
    if save.slot in st.pulls && SameRemote(st.pulls[save.slot], remote) {
      PulledAtRest(Tick(w), st, save, remote, content, f);
      var p := Pulling(Tick(w), st, save.slot, remote, content, f);
      assert AtRest(p.w, Unpinned(p.st, save.slot), save.slot, content);
    } else {
      var st' := if save.slot in st.pulls then Unpinned(st, save.slot) else st;
      ComparedAtRest(Tick(w), st', save, remote, content, up, f);
    }
  }

  lemma PulledAtRest(w: World, st: SyncState, save: LocalSave, remote: Remote, content: Content, f: Faults)
    requires Ready(w, st) && save.slot in w.steam && w.steam[save.slot] == remote && ContentOf(remote.raw) == Some(content)
    requires Pulling(w, st, save.slot, remote, content, f).outcome == Pulled
    ensures var p := Pulling(w, st, save.slot, remote, content, f);
            AtRest(p.w, Unpinned(p.st, save.slot), save.slot, content)
    ensures var p := Pulling(w, st, save.slot, remote, content, f);
            save.slot !in st.pulls ==> AtRest(p.w, p.st, save.slot, content)
  {
    PullEffect(w, st, save.slot, remote, content, f);
    UpsertOneSlot(st.files, FileState(save.slot, remote.name, content, Sha1(remote)));
    hide Pulling, Upsert, BaseOf, FilesOk, Chronological, Saved;
  }

  lemma ComparedAtRest(w: World, st: SyncState, save: LocalSave, remote: Remote, content: Content, up: bool, f: Faults)
    requires Ready(w, st) && save.slot in w.steam && w.steam[save.slot] == remote && ContentOf(remote.raw) == Some(content)
    requires PreparedUpload(w, save.slot) == Some(save.content) && save.slot !in st.pulls
    requires Comparing(w, st, save, remote, content, up, f).outcome == Settled
    ensures var r := Comparing(w, st, save, remote, content, up, f);
            Rests(r.w, r.st, save.slot)
  {
    var r := Comparing(w, st, save, remote, content, up, f);
    var uploaded := Remote(remote.name, SteamForm(save.content), true);
    DecideSafe(BaseOf(st.files, save.slot), save.content, content);
    PushEffect(w, st, save.slot, remote, f);
    UpsertOneSlot(st.files, FileState(save.slot, remote.name, save.content, Sha1(remote)));
    UpsertOneSlot(st.files, FileState(save.slot, remote.name, save.content, Sha1(uploaded)));
    if Decide(BaseOf(st.files, save.slot), save.content, content) == DownloadRemote {
      PulledAtRest(w, st, save, remote, content, f);
      assert AtRest(r.w, r.st, save.slot, content);
    } else {
      hide Decide, Pushing, Pulling, BackingUpBoth, Upsert, BaseOf, FilesOk, Chronological, Saved;
      assert AtRest(r.w, r.st, save.slot, save.content);
    }
  }

  /** The engine reports a synchronized cloud when a run completes with no pending choice and no waiting
      upload; then every slot of the run indeed is at rest. */
  lemma {:induction false} SynchronizedIsTrue(w: World, st: SyncState, saves: seq<LocalSave>, up: bool, f: Faults,
                                              save: LocalSave)
    requires Ready(w, st) && UniqueSlots(saves) && Accurate(w, saves) && save in saves
    requires var r := RunningSlots(w, st, saves, up, f); r.ok && r.pending == map[] && r.waiting == 0
    ensures var r := RunningSlots(w, st, saves, up, f); Rests(r.w, r.st, save.slot)
    decreases |saves|
  {
    var r := SyncingSlot(w, st, saves[0], up, f);
    var rest := RunningSlots(r.w, r.st, saves[1..], up, f);
    ChoicesShow(w, st, saves, up, f);
    SlotFrame(w, st, saves[0], up, f, save.slot);
    assert saves == [saves[0]] + saves[1..];
    if saves[0].slot == save.slot {
      SettledAtRest(w, st, saves[0], up, f);
      var c :| AtRest(r.w, r.st, save.slot, c);
      hide SyncingSlot, BaseOf, Ready, PreparedUpload, SteamContent;
      RunFrame(r.w, r.st, saves[1..], up, f, save.slot);
      SameViews(r.w, rest.w, save.slot);
      assert AtRest(rest.w, rest.st, save.slot, c);
    } else {
      StillAccurate(w, st, saves, up, f);
      hide SyncingSlot, BaseOf, Ready, PreparedUpload, SteamContent;
      SynchronizedIsTrue(r.w, r.st, saves[1..], up, f, save);
    }
  }

  /** A manual run never leaves an upload waiting. */
  lemma {:induction false} ManualRunNeverWaits(w: World, st: SyncState, saves: seq<LocalSave>, f: Faults)
    ensures RunningSlots(w, st, saves, true, f).waiting == 0
    decreases |saves|
  {
    if saves == [] {
    } else {
      var r := SyncingSlot(w, st, saves[0], true, f);
      ManualNeverWaits(w, st, saves[0], f);
      hide SyncingSlot;
      if r.outcome != Failed {
        ManualRunNeverWaits(r.w, r.st, saves[1..], f);
      }
    }
  }

  /** The slot has something to upload: local content Steam lacks over an unchanged BASE, or content both sides
      agree on that Steam does not hold in canonical form. */
  ghost predicate Awaits(w: World, st: SyncState, save: LocalSave) {
    && save.slot in w.steam
    && var remote := w.steam[save.slot];
       && !(save.slot in st.pulls && SameRemote(st.pulls[save.slot], remote))
       && ContentOf(remote.raw).Some?
       && if ContentOf(remote.raw).value == save.content then remote.raw.IosForm?
          else BaseOf(st.files, save.slot) == Some(ContentOf(remote.raw).value)
  }

  ghost function AwaitingCount(w: World, st: SyncState, saves: seq<LocalSave>): nat {
    if saves == [] then 0 else (if Awaits(w, st, saves[0]) then 1 else 0) + AwaitingCount(w, st, saves[1..])
  }

  lemma WaitsIff(w: World, st: SyncState, save: LocalSave, up: bool, f: Faults)
    ensures var r := SyncingSlot(w, st, save, up, f);
            r.outcome != Failed ==> (r.outcome == UploadWaiting <==> !up && Awaits(w, st, save))
  {
    hide Pushing, Pulling, BackingUpBoth, BackupBytes, Upsert, BaseOf, ContentOf, Decide;
    if save.slot in w.steam && ContentOf(w.steam[save.slot].raw).Some? {
      DecideSafe(BaseOf(st.files, save.slot), save.content, ContentOf(w.steam[save.slot].raw).value);
    }
  }

  lemma {:induction false} AwaitingFrame(w: World, st: SyncState, w': World, st': SyncState, saves: seq<LocalSave>)
    requires forall i :: 0 <= i < |saves| ==> SameSlot(w, st, w', st', saves[i].slot)
    ensures AwaitingCount(w', st', saves) == AwaitingCount(w, st, saves)
  {
    if saves == [] {
    } else {
      assert SameSlot(w, st, w', st', saves[0].slot);
      hide BaseOf, ContentOf, SameRemote;
      AwaitingFrame(w, st, w', st', saves[1..]);
    }
  }

  /** A completed run that may not upload reports exactly as many waiting uploads as there are slots with
      something to upload. */
  lemma {:induction false} WaitingCounts(w: World, st: SyncState, saves: seq<LocalSave>, up: bool, f: Faults)
    requires Ready(w, st) && UniqueSlots(saves) && RunningSlots(w, st, saves, up, f).ok
    ensures RunningSlots(w, st, saves, up, f).waiting == if up then 0 else AwaitingCount(w, st, saves)
    decreases |saves|
  {
    if saves == [] {
    } else {
      hide SyncingSlot, BaseOf, Ready, Awaits, SameSlot;
      var r := SyncingSlot(w, st, saves[0], up, f);
      WaitsIff(w, st, saves[0], up, f);
      SlotFrame(w, st, saves[0], up, f, saves[0].slot);
      WaitingCounts(r.w, r.st, saves[1..], up, f);
      forall i | 0 <= i < |saves[1..]|
        ensures SameSlot(w, st, r.w, r.st, saves[1..][i].slot)
      {
        SlotFrame(w, st, saves[0], up, f, saves[1..][i].slot);
      }
      AwaitingFrame(w, st, r.w, r.st, saves[1..]);
    }
  }

  lemma ChoicesShow(w: World, st: SyncState, saves: seq<LocalSave>, up: bool, f: Faults)
    requires saves != []
    ensures SyncingSlot(w, st, saves[0], up, f).outcome.ChoicePending? ==>
              saves[0].slot in RunningSlots(w, st, saves, up, f).pending
    ensures SyncingSlot(w, st, saves[0], up, f).outcome == UploadWaiting ==>
              RunningSlots(w, st, saves, up, f).waiting > 0
  {
    hide SyncingSlot;
  }

  lemma StillAccurate(w: World, st: SyncState, saves: seq<LocalSave>, up: bool, f: Faults)
    requires Ready(w, st) && saves != [] && UniqueSlots(saves) && Accurate(w, saves)
    ensures Accurate(SyncingSlot(w, st, saves[0], up, f).w, saves[1..]) && UniqueSlots(saves[1..])
  {
    var r := SyncingSlot(w, st, saves[0], up, f);
    hide SyncingSlot, Ready, BaseOf, PreparedUpload, SteamContent;
    forall i | 0 <= i < |saves[1..]|
      ensures PreparedUpload(r.w, saves[1..][i].slot) == Some(saves[1..][i].content)
    {
      assert saves[1..][i] == saves[i + 1];
      SlotFrame(w, st, saves[0], up, f, saves[i + 1].slot);
      SameViews(w, r.w, saves[i + 1].slot);
    }
  }

  lemma ManualNeverWaits(w: World, st: SyncState, save: LocalSave, f: Faults)
    ensures SyncingSlot(w, st, save, true, f).outcome != UploadWaiting
  {
    hide Pushing, Pulling, BackingUpBoth, Upsert, BaseOf, BackupBytes;
  }

  ghost predicate AllAtRest(w: World, st: SyncState, saves: seq<LocalSave>) {
    forall i :: 0 <= i < |saves| ==> AtRest(w, st, saves[i].slot, saves[i].content)
  }

  ghost predicate AllCanonical(w: World, saves: seq<LocalSave>) {
    forall i :: 0 <= i < |saves| ==> saves[i].slot in w.steam && w.steam[saves[i].slot].raw.SteamForm?
  }

  ghost predicate NoFaults(f: Faults) {
    forall n :: !f(n)
  }

  lemma StillAtRest(w: World, st: SyncState, saves: seq<LocalSave>, up: bool, f: Faults)
    requires Ready(w, st) && saves != [] && UniqueSlots(saves) && AllAtRest(w, st, saves)
    ensures var r := SyncingSlot(w, st, saves[0], up, f);
            AllAtRest(r.w, r.st, saves[1..]) && UniqueSlots(saves[1..])
  {
    var r := SyncingSlot(w, st, saves[0], up, f);
    hide SyncingSlot, Ready, BaseOf, PreparedUpload, SteamContent;
    forall i | 0 <= i < |saves[1..]|
      ensures AtRest(r.w, r.st, saves[1..][i].slot, saves[1..][i].content)
    {
      assert saves[1..][i] == saves[i + 1];
      SlotFrame(w, st, saves[0], up, f, saves[i + 1].slot);
      SameViews(w, r.w, saves[i + 1].slot);
    }
  }

  /** A manual run over slots at rest changes no live save, and leaves them at rest with every Steam
      object in canonical form. */
  lemma {:induction false} RepairRun(w: World, st: SyncState, saves: seq<LocalSave>, f: Faults)
    requires Ready(w, st) && UniqueSlots(saves) && AllAtRest(w, st, saves) && NoFaults(f)
    ensures var r := RunningSlots(w, st, saves, true, f);
            && r.ok && r.pending == map[] && r.waiting == 0 && r.w.local == w.local
            && AllAtRest(r.w, r.st, saves) && AllCanonical(r.w, saves)
    decreases |saves|
  {
    if saves == [] {
    } else {
      var save := saves[0];
      var r := SyncingSlot(w, st, save, true, f);
      AgreedSlot(w, st, save, true, f);
      SlotFrame(w, st, save, true, f, save.slot);
      StillAtRest(w, st, saves, true, f);
      HeadAtRest(w, st, save, true, f);
      hide SyncingSlot, Ready, BaseOf, PreparedUpload, SteamContent, AtRest, NoFaults;
      RepairRun(r.w, r.st, saves[1..], f);
      var rest := RunningSlots(r.w, r.st, saves[1..], true, f);
      assert forall i :: 0 <= i < |saves[1..]| ==> saves[1..][i] == saves[i + 1];
      RunFrame(r.w, r.st, saves[1..], true, f, save.slot);
      RestMoves(r.w, r.st, rest.w, rest.st, save);
      AllCons(rest.w, rest.st, saves);
    }
  }

  lemma AllCons(w: World, st: SyncState, saves: seq<LocalSave>)
    requires saves != []
    requires AtRest(w, st, saves[0].slot, saves[0].content) && AllAtRest(w, st, saves[1..])
    requires saves[0].slot in w.steam && w.steam[saves[0].slot].raw.SteamForm? && AllCanonical(w, saves[1..])
    ensures AllAtRest(w, st, saves) && AllCanonical(w, saves)
  {
    hide AtRest;
    assert forall i :: 0 < i < |saves| ==> saves[i] == saves[1..][i - 1];
  }

  lemma HeadAtRest(w: World, st: SyncState, save: LocalSave, up: bool, f: Faults)
    requires Ready(w, st) && AtRest(w, st, save.slot, save.content) && NoFaults(f)
    ensures var r := SyncingSlot(w, st, save, up, f);
            AtRest(r.w, r.st, save.slot, save.content)
  {
    AgreedSlot(w, st, save, up, f);
    var r := SyncingSlot(w, st, save, up, f);
    hide SyncingSlot, Ready, BaseOf;
    assert PreparedUpload(r.w, save.slot) == PreparedUpload(w, save.slot);
  }

  lemma RestMoves(w: World, st: SyncState, w': World, st': SyncState, save: LocalSave)
    requires AtRest(w, st, save.slot, save.content) && SameSlot(w, st, w', st', save.slot)
    ensures AtRest(w', st', save.slot, save.content)
    ensures w'.steam[save.slot] == w.steam[save.slot]
  {
    hide BaseOf;
  }

  /** A run over canonical slots at rest changes nothing at all. */
  lemma {:induction false} IdleRun(w: World, st: SyncState, saves: seq<LocalSave>, up: bool, f: Faults)
    requires Ready(w, st) && UniqueSlots(saves) && NoFaults(f)
    requires AllAtRest(w, st, saves) && AllCanonical(w, saves)
    ensures var r := RunningSlots(w, st, saves, up, f);
            && r.ok && r.pending == map[] && r.waiting == 0
            && r.w == w.(tick := r.w.tick) && r.st == st
    decreases |saves|
  {
    if saves == [] {
    } else {
      var r := SyncingSlot(w, st, saves[0], up, f);
      AgreedSlot(w, st, saves[0], up, f);
      SlotFrame(w, st, saves[0], up, f, saves[0].slot);
      StillAtRest(w, st, saves, up, f);
      assert forall i :: 0 <= i < |saves[1..]| ==> saves[1..][i] == saves[i + 1];
      hide SyncingSlot, Ready, BaseOf, PreparedUpload, SteamContent, AtRest, NoFaults;
      IdleRun(r.w, r.st, saves[1..], up, f);
    }
  }

  ghost predicate SameSlots(saves: seq<LocalSave>, saves': seq<LocalSave>) {
    |saves| == |saves'| && forall i :: 0 <= i < |saves| ==> saves'[i].slot == saves[i].slot
  }

  /** What discovery sees next of slots at rest is what they rest at. */
  lemma RediscoveredAtRest(w: World, st: SyncState, saves: seq<LocalSave>, saves': seq<LocalSave>)
    requires SameSlots(saves, saves') && Accurate(w, saves')
    requires AllRest(w, st, saves)
    ensures AllAtRest(w, st, saves')
  {
    forall i | 0 <= i < |saves'|
      ensures AtRest(w, st, saves'[i].slot, saves'[i].content)
    {
      assert Rests(w, st, saves[i].slot);
    }
  }

  lemma SyncSaved(w: World, saves: seq<LocalSave>, up: bool, f: Faults)
    requires saves != [] && NoFaults(f) && RunningSlots(w, w.state, saves, up, f).ok
    ensures var r := RunningSlots(w, w.state, saves, up, f);
            var s := RunningSync(w, saves, up, f);
            && s.ok && s.pending == r.pending && s.waiting == r.waiting
            && s.w == r.w.(state := r.st, tick := s.w.tick)
  {
    hide RunningSlots;
  }

  lemma RestIgnoresState(w: World, w': World, st: SyncState, slot: nat, content: Content)
    requires w'.local == w.local && w'.steam == w.steam
    ensures AtRest(w', st, slot, content) == AtRest(w, st, slot, content)
  {
    hide BaseOf;
  }

  /** The fixed point: without faults or outside changes, a manual run that ends with no pending choice
      leaves each matched slot with local content, Steam content and BASE equal; one more manual run
      changes no live save and puts every Steam object in canonical form; any later run changes
      nothing and asks nothing. */
  lemma FixedPoint(w: World, saves: seq<LocalSave>, f: Faults, saves': seq<LocalSave>, up: bool)
    requires Ready(w, w.state) && saves != [] && UniqueSlots(saves) && Accurate(w, saves) && NoFaults(f)
    requires var r1 := RunningSync(w, saves, true, f);
             r1.ok && r1.pending == map[] && SameSlots(saves, saves') && Accurate(r1.w, saves')
    ensures var r1 := RunningSync(w, saves, true, f);
            var r2 := RunningSync(r1.w, saves', true, f);
            var r3 := RunningSync(r2.w, saves', up, f);
            && AllAtRest(r1.w, r1.w.state, saves')
            && r2.ok && r2.pending == map[] && r2.w.local == r1.w.local
            && AllAtRest(r2.w, r2.w.state, saves') && AllCanonical(r2.w, saves')
            && r3.ok && r3.pending == map[] && r3.waiting == 0 && r3.w == r2.w.(tick := r3.w.tick)
  {
    var q1 := RunningSlots(w, w.state, saves, true, f);
    var r1 := RunningSync(w, saves, true, f);
    FirstRun(w, saves, f);
    RediscoveredAtRest(r1.w, r1.w.state, saves, saves');
    assert UniqueSlots(saves');
    hide RunningSlots, RunningSync, Ready, AllAtRest, AllCanonical, NoFaults, Accurate, UniqueSlots, SameSlots;
    var q2 := RunningSlots(r1.w, r1.w.state, saves', true, f);
    var r2 := RunningSync(r1.w, saves', true, f);
    RepairRun(r1.w, r1.w.state, saves', f);
    RunReady(r1.w, r1.w.state, saves', true, f);
    SyncSaved(r1.w, saves', true, f);
    AllIgnoreState(q2.w, q2.st, r2.w, saves');
    IdleRun(r2.w, r2.w.state, saves', up, f);
    SyncSaved(r2.w, saves', up, f);
    RunKeepsState(r2.w, r2.w.state, saves', up, f);
  }

  lemma RunKeepsState(w: World, st: SyncState, saves: seq<LocalSave>, up: bool, f: Faults)
    requires Ready(w, st) && UniqueSlots(saves)
    ensures RunningSlots(w, st, saves, up, f).w.state == w.state
  {
    TouchedAgrees(w, st, saves, up, f, 0);
  }

  lemma FirstRun(w: World, saves: seq<LocalSave>, f: Faults)
    requires Ready(w, w.state) && saves != [] && UniqueSlots(saves) && Accurate(w, saves) && NoFaults(f)
    requires RunningSync(w, saves, true, f).ok && RunningSync(w, saves, true, f).pending == map[]
    ensures var r := RunningSync(w, saves, true, f);
            Ready(r.w, r.w.state) && AllRest(r.w, r.w.state, saves)
  {
    var q := RunningSlots(w, w.state, saves, true, f);
    var r := RunningSync(w, saves, true, f);
    assert q.ok by { hide RunningSlots; }
    SyncSaved(w, saves, true, f);
    RunReady(w, w.state, saves, true, f);
    ReadyIgnoresState(q.w, q.st, r.w);
    ManualRunNeverWaits(w, w.state, saves, f);
    hide RunningSlots, RunningSync, Ready, NoFaults, Accurate, Rests;
    forall i | 0 <= i < |saves|
      ensures Rests(r.w, r.w.state, saves[i].slot)
    {
      SynchronizedIsTrue(w, w.state, saves, true, f, saves[i]);
      RestsIgnoresState(q.w, r.w, q.st, saves[i].slot);
    }
  }

  lemma ReadyIgnoresState(w: World, st: SyncState, w': World)
    requires Ready(w, st) && w' == w.(state := st, tick := w'.tick)
    ensures Ready(w', st)
  {
    hide Chronological, FilesOk;
  }

  lemma RestsIgnoresState(w: World, w': World, st: SyncState, slot: nat)
    requires Rests(w, st, slot) && w'.local == w.local && w'.steam == w.steam
    ensures Rests(w', st, slot)
  {
    hide AtRest;
    var c :| AtRest(w, st, slot, c);
    RestIgnoresState(w, w', st, slot, c);
  }

  lemma AllIgnoreState(w: World, st: SyncState, w': World, saves: seq<LocalSave>)
    requires Ready(w, st) && AllAtRest(w, st, saves) && AllCanonical(w, saves)
    requires w' == w.(state := st, tick := w'.tick)
    ensures Ready(w', st) && AllAtRest(w', st, saves) && AllCanonical(w', saves)
  {
    hide AtRest, Chronological;
    forall i | 0 <= i < |saves|
      ensures AtRest(w', st, saves[i].slot, saves[i].content)
    {
      RestIgnoresState(w, w', st, saves[i].slot, saves[i].content);
    }
  }
}
