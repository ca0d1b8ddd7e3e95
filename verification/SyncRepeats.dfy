/** When an approved action is applied more than once. */
module SyncRepeats {
  import opened Bytes
  import opened Backups
  import opened SyncModel
  import opened SyncSafety
  import opened SyncMachine
  import opened SyncRuns
  import opened SyncRecovery
  import opened SyncChoices

  // ----- Restores -----

  /** The queue is emptied exactly when the restore succeeded and the rename of the state file was reached. */
  lemma RestoreLeavesQueue(w: World, snapshot: Option<seq<LocalSave>>, f: Faults)
    requires w.state.restore.Some?
    ensures var s := ApplyingRestore(w, f);
            var r := ApplyingPending(w, snapshot, f);
            && r.w.state == (if s.ok && !f(s.w.tick) then w.state.(restore := None) else w.state)
            && r.w.local == s.w.local
  {
    hide RestoreLocal, FindRecord, ContentOf, Others;
    if Approved(w).Some? {
      RestoreKeepsState(w, Approved(w).value.id, Approved(w).value.slot, f);
    }
  }

  lemma RestoreKeepsState(w: World, id: nat, slot: nat, f: Faults)
    ensures RestoreLocal(w, id, slot, f).w.state == w.state
  {
    hide Add, FindRecord;
  }

  /** The queued restore is still approved, and its version outlives the backup the restore makes first. */
  ghost predicate Installable(w: World, p: PendingRestore) {
    && Approved(w) == Some(p)
    && Outlives(w.backups, FindRecord(w.backups, p.id).value, p.slot, LocalBeforeRestore)
  }

  /** A fault-free prelaunch step replaces a live save exactly when its queued restore is installable, and
      then stores what it replaces. */
  lemma AppliesIff(w: World, p: PendingRestore, snapshot: Option<seq<LocalSave>>, f: Faults)
    requires WorldOk(w) && w.state.restore == Some(p) && forall n :: w.tick <= n ==> !f(n)
    ensures var r := ApplyingPending(w, snapshot, f);
            if Installable(w, p)
            then && r.ok && r.w.local == w.local[p.slot := p.expected] && Saved(r.w.backups, p.slot, w.local[p.slot])
                 && r.w.state.restore == None
            else !r.ok && r.w.local == w.local
  {
    RestoreLeavesQueue(w, snapshot, f);
    if Approved(w).Some? {
      var record := FindRecord(w.backups, p.id).value;
      FoundRecord(w.backups, p.id);
      RestoreInstallsIff(w, record, f);
      RestoreEffect(w, record, p.slot, f);
      hide RestoreLocal, FindRecord, Chronological, Saved, Others, Outlives, ContentOf;
    } else {
      hide RestoreLocal, FindRecord, Chronological, Saved, Others, Outlives, ContentOf;
    }
  }

  // ----- The queue over runs of the machine -----

  /** A run in progress holds the queued restore it loaded, which only the prelaunch step may have taken
      from the persisted queue since. */
  ghost predicate QueueInv(m: Machine) {
    m.run.Some? ==> m.run.value.st.restore == m.w.state.restore || m.w.state.restore == None
  }

  function Queued(m: Machine): Option<PendingRestore> {
    m.w.state.restore
  }

  /** Which events change the persisted queue. */
  ghost predicate QueueMoves(m: Machine, e: Event, m': Machine, f: Faults) {
    match e
    case AppliesRestore =>
      m'.run == m.run
      && Queued(m') == if Queued(m).Some? && ApplyingRestore(m.w, f).ok && !f(ApplyingRestore(m.w, f).w.tick)
                       then None else Queued(m)
    case Finishes => m.run.Some? && m'.run == None && Queued(m') == if f(m.w.tick) then Queued(m) else m.run.value.st.restore
    case QueuesRestore(_) => m'.run == None
    case Begins(_, _, _) => m.run == None && m'.run.Some? && m'.run.value.st.restore == Queued(m) && Queued(m') == Queued(m)
    case SyncsNext =>
      && Queued(m') == Queued(m) && m.run.Some?
      && (m'.run.Some? ==> m'.run.value.st.restore == m.run.value.st.restore)
    case Crashes => Queued(m') == Queued(m) && m'.run == None
    case _ => Queued(m') == Queued(m) && m'.run == m.run
  }

  lemma QueueStep(m: Machine, e: Event, f: Faults)
    requires Inv(m) && Enabled(m, e)
    ensures QueueMoves(m, e, Apply(m, e, f), f)
  {
    match e
    case AppliesRestore =>
      if m.w.state.restore.Some? {
        RestoreLeavesQueue(m.w, m.snapshot, f);
      }
      hide ApplyingRestore, Others, Inv;
    case SyncsNext =>
      SyncingSlotOk(m.w, m.run.value.st, m.run.value.todo[0], m.run.value.allowUpload, f);
      hide SyncingSlot, Chronological, LocalJustified, SteamJustified, BaseWitnessed, StateOk, Sightings;
    case Chooses(slot, useLocal, name) =>
      ForcingEffect(m.w, slot, useLocal, name, f);
      hide Forcing, Chronological, StateOk, Sightings, Saved, PreparedUpload, ContentOf;
    case Binds(account, cloud) =>
      BoundOk(m, account);
      SaveEffect(m.w, Bound(m.w.state, account), f);
      hide SaveState, Bound, StateOk, Chronological;
    case _ => hide StateOk, Chronological, QueueingRestore, Observed;
  }

  lemma QueueInvStep(m: Machine, e: Event, f: Faults)
    requires Inv(m) && Enabled(m, e) && QueueInv(m)
    ensures QueueInv(Apply(m, e, f))
  {
    QueueStep(m, e, f);
    hide Apply, Inv, Enabled, ApplyingRestore;
  }

  lemma {:induction false} RunQueueInv(ms: seq<Machine>, es: seq<Event>, f: Faults, i: nat)
    requires IsRun(ms, es, f) && Inv(ms[0]) && QueueInv(ms[0]) && i < |ms|
    ensures Inv(ms[i]) && QueueInv(ms[i])
  {
    hide Inv, Enabled, Apply, QueueInv;
    if i == 0 {
    } else {
      RunQueueInv(ms, es, f, i - 1);
      StepKeepsInv(ms[i - 1], es[i - 1], f);
      QueueInvStep(ms[i - 1], es[i - 1], f);
    }
  }

  /** The run in progress at i is still in progress at j. */
  ghost predicate InProgress(ms: seq<Machine>, i: nat, j: nat)
    requires j < |ms|
  {
    forall t :: i <= t <= j ==> ms[t].run.Some?
  }

  /** The run that was in progress at i saved its state between i and j. */
  ghost predicate Revived(ms: seq<Machine>, es: seq<Event>, f: Faults, i: nat, j: nat)
    requires j < |ms| && |ms| == |es| + 1
  {
    exists k :: i < k < j && es[k] == Finishes && !f(ms[k].w.tick) && InProgress(ms, i, k)
  }

  /** No restore is queued or applied strictly between i and j. */
  ghost predicate QueueAlone(es: seq<Event>, i: nat, j: nat)
    requires j <= |es|
  {
    forall k :: i < k < j ==> !es[k].QueuesRestore? && !es[k].AppliesRestore?
  }

  /** What the persisted queue, and a run in progress, hold since the restore p was installed. */
  ghost predicate Tracks(m: Machine, p: PendingRestore, running: bool, queued: bool) {
    && Queued(m) == (if queued then Some(p) else None)
    && (running ==> m.run.Some? && m.run.value.st.restore == Some(p))
    && (!running && m.run.Some? ==> m.run.value.st.restore == Queued(m))
  }

  lemma TracksStep(m: Machine, e: Event, m': Machine, f: Faults, p: PendingRestore, running: bool, queued: bool)
    requires Tracks(m, p, running, queued) && QueueMoves(m, e, m', f)
    requires !e.QueuesRestore? && !e.AppliesRestore?
    ensures Tracks(m', p, running && m'.run.Some?, queued || (running && e == Finishes && !f(m.w.tick)))
  {
    hide ApplyingRestore;
  }

  lemma {:induction false} Tracking(ms: seq<Machine>, es: seq<Event>, f: Faults, i: nat, j: nat, p: PendingRestore)
    requires IsRun(ms, es, f) && Inv(ms[0]) && QueueInv(ms[0]) && i < j < |ms|
    requires es[i] == AppliesRestore && Queued(ms[i]) == Some(p) && ApplyingRestore(ms[i].w, f).ok
    requires QueueAlone(es, i, j)
    ensures Tracks(ms[j], p, InProgress(ms, i, j), f(ApplyingRestore(ms[i].w, f).w.tick) || Revived(ms, es, f, i, j))
    decreases j
  {
    hide Inv, Enabled, Apply, ApplyingRestore, Tracks, QueueMoves;
    RunQueueInv(ms, es, f, j - 1);
    QueueStep(ms[j - 1], es[j - 1], f);
    if j == i + 1 {
      TracksFirst(ms[i], ms[i + 1], f, p);
    } else {
      Tracking(ms, es, f, i, j - 1, p);
      var early := f(ApplyingRestore(ms[i].w, f).w.tick);
      TracksStep(ms[j - 1], es[j - 1], ms[j], f, p, InProgress(ms, i, j - 1), early || Revived(ms, es, f, i, j - 1));
      RevivedStep(ms, es, f, i, j);
    }
  }

  lemma TracksFirst(m: Machine, m': Machine, f: Faults, p: PendingRestore)
    requires QueueInv(m) && Queued(m) == Some(p) && ApplyingRestore(m.w, f).ok && QueueMoves(m, AppliesRestore, m', f)
    ensures Tracks(m', p, m.run.Some? && m'.run.Some?, f(ApplyingRestore(m.w, f).w.tick))
  {
    hide ApplyingRestore;
  }

  lemma RevivedStep(ms: seq<Machine>, es: seq<Event>, f: Faults, i: nat, j: nat)
    requires |ms| == |es| + 1 && i + 1 < j < |ms|
    ensures InProgress(ms, i, j) <==> InProgress(ms, i, j - 1) && ms[j].run.Some?
    ensures Revived(ms, es, f, i, j)
       <==> Revived(ms, es, f, i, j - 1) || (InProgress(ms, i, j - 1) && es[j - 1] == Finishes && !f(ms[j - 1].w.tick))
  {
  }

  /** After a restore was installed it is queued, until another is queued or the next prelaunch step, exactly
      when the rename of the state file was not reached, or a run that was in progress meanwhile, and so
      had loaded it, saved its state since. */
  lemma RestoreQueuedAgain(ms: seq<Machine>, es: seq<Event>, f: Faults, i: nat, j: nat, p: PendingRestore)
    requires IsRun(ms, es, f) && Inv(ms[0]) && QueueInv(ms[0]) && i < j < |ms|
    requires es[i] == AppliesRestore && Queued(ms[i]) == Some(p) && ApplyingRestore(ms[i].w, f).ok
    requires QueueAlone(es, i, j)
    ensures Queued(ms[j])
         == if f(ApplyingRestore(ms[i].w, f).w.tick) || Revived(ms, es, f, i, j) then Some(p) else None
  {
    hide Inv, Enabled, Apply, ApplyingRestore, IsRun;
    Tracking(ms, es, f, i, j, p);
  }

  /** Over every run: the next prelaunch step installs the same restore again, over whatever the game wrote
      since, exactly when it is queued again and still installable; the version lost that way is stored.
      Otherwise that step replaces no live save. */
  lemma RestoreAppliedTwice(ms: seq<Machine>, es: seq<Event>, f: Faults, i: nat, j: nat, p: PendingRestore)
    requires IsRun(ms, es, f) && Inv(ms[0]) && QueueInv(ms[0]) && i < j < |es|
    requires es[i] == AppliesRestore && Queued(ms[i]) == Some(p) && ApplyingRestore(ms[i].w, f).ok
    requires QueueAlone(es, i, j) && es[j] == AppliesRestore && forall n :: ms[j].w.tick <= n ==> !f(n)
    ensures var again := f(ApplyingRestore(ms[i].w, f).w.tick) || Revived(ms, es, f, i, j);
            if again && Installable(ms[j].w, p)
            then && ms[j + 1].w.local == ms[j].w.local[p.slot := p.expected]
                 && Saved(ms[j + 1].w.backups, p.slot, ms[j].w.local[p.slot])
            else ms[j + 1].w.local == ms[j].w.local
  {
    RestoreQueuedAgain(ms, es, f, i, j, p);
    RunQueueInv(ms, es, f, j);
    assert WorldOk(ms[j].w);
    assert ms[j + 1] == Apply(ms[j], AppliesRestore, f);
    var m := ms[j];
    if Queued(m).Some? {
      AppliesIff(m.w, p, m.snapshot, f);
    }
    hide IsRun, Inv, QueueInv, Installable, ApplyingRestore, Saved, Revived, WorldOk;
  }

  // ----- A run that brings a restore back -----

  /** The fault-free events of such a run: a run that loaded the queued restore is about to finish, the
      prelaunch step installs the restore, the run saves its older state, the game plays on, and the next
      prelaunch step installs the restore again. */
  lemma RestoreRevived(m: Machine, p: PendingRestore, record: BackupRecord<RawSave>, data: RawSave, f: Faults)
    returns (ms: seq<Machine>, es: seq<Event>)
    requires Inv(m) && NoFaults(f) && m.w.replacementAllowed
    requires m.run.Some? && m.run.value.todo == [] && m.run.value.st.restore == Queued(m) == Some(p)
    requires record in m.w.backups && record == BackupRecord(p.id, p.slot, record.source, p.expected)
    requires record.source != LocalBeforeRestore && ContentOf(p.expected).Some? && p.slot in m.w.local
    ensures es == [AppliesRestore, Finishes, GameWrites(p.slot, data), AppliesRestore]
    ensures IsRun(ms, es, f) && ms[0] == m
    ensures ms[1].w.local == m.w.local[p.slot := p.expected] && Queued(ms[1]) == None
    ensures ms[3].w.local == m.w.local[p.slot := data] && Queued(ms[3]) == Some(p)
    ensures ms[4].w.local == m.w.local[p.slot := p.expected] && Saved(ms[4].w.backups, p.slot, data)
  {
    var m1 := FirstInstall(m, p, record, f);
    var m3 := BackAgain(m1, p, data, f);
    var m2 := Apply(m1, Finishes, f);
    var m4 := FirstInstall(m3, p, record, f);
    hide Inv, Apply, Saved, Enabled;
    ms, es := [m, m1, m2, m3, m4], [AppliesRestore, Finishes, GameWrites(p.slot, data), AppliesRestore];
    forall k | 0 <= k < 4
      ensures Enabled(ms[k], es[k]) && ms[k + 1] == Apply(ms[k], es[k], f)
    {
    }
    assert m.w.local[p.slot := p.expected][p.slot := data] == m.w.local[p.slot := data];
    assert m.w.local[p.slot := data][p.slot := p.expected] == m.w.local[p.slot := p.expected];
  }

  /** There is such a machine. */
  lemma RevivableMachine() returns (m: Machine, p: PendingRestore, record: BackupRecord<RawSave>)
    ensures Inv(m) && QueueInv(m) && m.w.replacementAllowed
    ensures m.run.Some? && m.run.value.todo == [] && m.run.value.st.restore == Queued(m) == Some(p)
    ensures record in m.w.backups && record == BackupRecord(p.id, p.slot, record.source, p.expected)
    ensures record.source != LocalBeforeRestore && ContentOf(p.expected).Some? && p.slot in m.w.local
  {
    p := PendingRestore(0, 0, SteamForm([]));
    record := BackupRecord(0, 0, Manual, SteamForm([]));
    var st := SyncState(Some(1), map[], map[], Some(p));
    var w := World(map[0 := SteamForm([1])], map[], st, [record], 1, true, 0);
    m := Machine(w, Some(Run(0, false, [], st)), None, 1, {}, {}, {p});
    assert Observed(0, Some(1), []) == {};
  }

  lemma FirstInstall(m: Machine, p: PendingRestore, record: BackupRecord<RawSave>, f: Faults) returns (m': Machine)
    requires Inv(m) && NoFaults(f) && m.w.replacementAllowed && Queued(m) == Some(p)
    requires record in m.w.backups && record == BackupRecord(p.id, p.slot, record.source, p.expected)
    requires record.source != LocalBeforeRestore && ContentOf(p.expected).Some? && p.slot in m.w.local
    ensures Enabled(m, AppliesRestore) && m' == Apply(m, AppliesRestore, f) && Inv(m') && m'.run == m.run
    ensures m'.w.local == m.w.local[p.slot := p.expected] && Queued(m') == None && m'.w.replacementAllowed
    ensures Saved(m'.w.backups, p.slot, m.w.local[p.slot]) && record in m'.w.backups
  {
    assert WorldOk(m.w) && Enabled(m, AppliesRestore);
    AppliesRestoreIs(m, f);
    m' := Apply(m, AppliesRestore, f);
    hide Inv, Apply, Enabled, WorldOk, ApplyingPending, Saved, ContentOf;
    StepKeepsInv(m, AppliesRestore, f);
    InstallsKept(m.w, p, record, m.snapshot, f);
  }

  lemma AppliesRestoreIs(m: Machine, f: Faults)
    ensures var r := ApplyingPending(m.w, m.snapshot, f);
            Apply(m, AppliesRestore, f) == m.(w := r.w, snapshot := r.snapshot)
  {
  }

  lemma BackAgain(m: Machine, p: PendingRestore, data: RawSave, f: Faults) returns (m': Machine)
    requires Inv(m) && NoFaults(f)
    requires m.run.Some? && m.run.value.todo == [] && m.run.value.st.restore == Some(p)
    ensures Enabled(m, Finishes) && Enabled(Apply(m, Finishes, f), GameWrites(p.slot, data))
    ensures m' == Apply(Apply(m, Finishes, f), GameWrites(p.slot, data), f) && Inv(m')
    ensures m'.w.local == m.w.local[p.slot := data] && Queued(m') == Some(p)
    ensures m'.w.backups == m.w.backups && m'.w.replacementAllowed == m.w.replacementAllowed
  {
    FinishesBack(m, f);
    StepKeepsInv(m, Finishes, f);
    var m2 := Apply(m, Finishes, f);
    StepKeepsInv(m2, GameWrites(p.slot, data), f);
    m' := Apply(m2, GameWrites(p.slot, data), f);
    hide Inv, SaveState;
  }

  lemma FinishesBack(m: Machine, f: Faults)
    requires m.run.Some? && m.run.value.todo == [] && NoFaults(f)
    ensures var m' := Apply(m, Finishes, f);
            && m'.w == m.w.(state := m.run.value.st, tick := m'.w.tick) && m'.run == None
  {
  }

  lemma InstallsKept(w: World, p: PendingRestore, record: BackupRecord<RawSave>, snapshot: Option<seq<LocalSave>>, f: Faults)
    requires WorldOk(w) && NoFaults(f) && w.replacementAllowed && w.state.restore == Some(p)
    requires record in w.backups && record == BackupRecord(p.id, p.slot, record.source, p.expected)
    requires record.source != LocalBeforeRestore && ContentOf(p.expected).Some? && p.slot in w.local
    ensures var r := ApplyingPending(w, snapshot, f);
            && r.w == w.(local := w.local[p.slot := p.expected], state := w.state.(restore := None),
                         backups := r.w.backups, clock := r.w.clock, tick := r.w.tick)
            && Saved(r.w.backups, p.slot, w.local[p.slot]) && record in r.w.backups
  {
    FindStored(w.backups, record, w.clock);
    AppliesIff(w, p, snapshot, f);
    RestoreEffect(w, record, p.slot, f);
    RestoreInstallsIff(w, record, f);
    var r := RestoreLocal(w, record.id, p.slot, f);
    SavesState(r.w, r.w.state.(restore := None), f);
    hide RestoreLocal, SaveState, FindRecord, Chronological, Saved, Others, ContentOf;
  }

  // ----- Queued pulls -----

  /** A run that has dealt with a queued pull leaves it in the persisted queue exactly when a slot failed or
      the rename of the state file was not reached; then the whole persisted state is as before. */
  lemma PinStays(w: World, saves: seq<LocalSave>, up: bool, f: Faults, slot: nat)
    requires Ready(w, w.state) && UniqueSlots(saves) && saves != []
    requires slot in w.state.pulls && slot !in RunningSlots(w, w.state, saves, up, f).st.pulls
    ensures var q := RunningSlots(w, w.state, saves, up, f);
            var after := RunningSync(w, saves, up, f).w.state;
            && (slot in after.pulls <==> !q.ok || f(q.w.tick))
            && (slot in after.pulls ==> after == w.state)
  {
    RunKeepsState(w, w.state, saves, up, f);
    hide RunningSlots, Ready, UniqueSlots;
  }

  /** A queued pull is applied again by the next window exactly when its run did not get its state saved:
      the Steam version, if it is still the approved one, then replaces whatever the game wrote since,
      which is stored first. Otherwise the live save is only replaced if it still is BASE. */
  lemma PinAppliedTwice(w: World, saves: seq<LocalSave>, up: bool, f: Faults, slot: nat,
                        later: World, save: LocalSave, content: Content, up': bool, f': Faults)
    requires Ready(w, w.state) && UniqueSlots(saves) && saves != []
    requires slot in w.state.pulls && slot !in RunningSlots(w, w.state, saves, up, f).st.pulls
    requires Ready(later, later.state) && later.state == RunningSync(w, saves, up, f).w.state && NoFaults(f')
    requires later.replacementAllowed && save.slot == slot && slot in later.local
    requires SteamContent(later, slot) == Some(content) && SameRemote(w.state.pulls[slot], later.steam[slot])
    ensures var q := RunningSlots(w, w.state, saves, up, f);
            var r := SyncingSlot(later, later.state, save, up', f');
            if !q.ok || f(q.w.tick)
            then r.outcome == Settled && Installed(later, slot, content, r.w) && slot !in r.st.pulls
            else r.w.local != later.local ==>
                   && BaseOf(later.state.files, slot) == Some(save.content)
                   && Saved(r.w.backups, slot, later.local[slot])
  {
    PinStays(w, saves, up, f, slot);
    SyncingSlotOk(later, later.state, save, up', f');
    hide RunningSlots, RunningSync, BaseOf, Saved, FilesOk, Chronological, UniqueSlots;
    if slot in later.state.pulls {
      hide SlotOk, SyncingSlot, Installed, SameRemote;
      PinInstalls(later, save, content, up', f');
    }
  }
}
