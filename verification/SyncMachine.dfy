/** Every run of the engine: operations slot by slot, interleaved with the game, other devices, the
    user, account changes, crashes and faults. */
module SyncMachine {
  import opened Bytes
  import opened Backups
  import opened SyncModel
  import opened SyncSafety

  // ----- States and events -----

  datatype Side = Device | Steam

  /** Operation `op`, under an account, saw a slot's content on one side. */
  datatype Sighting = Sighting(op: nat, account: Option<nat>, slot: nat, side: Side, content: Content)

  /** Under an account, the user asked for this Steam version of a slot. */
  datatype Choice = Choice(account: Option<nat>, slot: nat, pull: PendingPull)

  /** A run holds the state it loaded; `todo` is what discovery saw and is still to be compared. */
  datatype Run = Run(op: nat, allowUpload: bool, todo: seq<LocalSave>, st: SyncState)

  /** `seen`, `choices` and `restores` only record history; no operation reads them. */
  datatype Machine = Machine(
    w: World,
    run: Option<Run>,
    snapshot: Option<seq<LocalSave>>,
    ops: nat,
    seen: set<Sighting>,
    choices: set<Choice>,
    restores: set<PendingRestore>)

  datatype Event =
    | GameWrites(slot: nat, data: RawSave)
    | OtherDeviceWrites(slot: nat, remote: Remote)
    | OtherDeviceDeletes(slot: nat)
    | Binds(account: nat, cloud: map<nat, Remote>)
    | Captures(saves: seq<LocalSave>)
    | Begins(prelaunch: bool, allowUpload: bool, saves: seq<LocalSave>)
    | SyncsNext
    | Finishes
    | Crashes
    | Chooses(slot: nat, useLocal: bool, name: Name)
    | QueuesRestore(id: nat)
    | AppliesRestore
    | OpensWindow
    | ClosesWindow

  ghost predicate Accurate(w: World, saves: seq<LocalSave>) {
    forall i :: 0 <= i < |saves| ==> PreparedUpload(w, saves[i].slot) == Some(saves[i].content)
  }

  ghost predicate UniqueSlots(saves: seq<LocalSave>) {
    forall i, j :: 0 <= i < j < |saves| ==> saves[i].slot != saves[j].slot
  }

  /** An operation needs a session, and a session has bound its account; one operation runs at a time. */
  ghost predicate Enabled(m: Machine, e: Event) {
    match e
    case OtherDeviceWrites(slot, remote) => remote.name.slot == slot
    case Binds(_, cloud) => m.run.None? && forall s :: s in cloud ==> cloud[s].name.slot == s
    case Captures(saves) => UniqueSlots(saves) && Accurate(m.w, saves)
    case Begins(prelaunch, allowUpload, saves) =>
      && m.run.None? && m.w.state.account.Some? && UniqueSlots(saves) && saves != []
      && (if prelaunch
          then !allowUpload && m.snapshot.Some? && forall i :: 0 <= i < |saves| ==> saves[i] in m.snapshot.value
          else Accurate(m.w, saves))
    case SyncsNext => m.run.Some? && m.run.value.todo != []
    case Finishes => m.run.Some? && m.run.value.todo == []
    case Chooses(slot, _, name) => m.run.None? && m.w.state.account.Some? && name.slot == slot
    case QueuesRestore(_) => m.run.None?
    case _ => true
  }

  // ----- Operations outside a run -----

  /** Choosing one side of a slot: both sides are backed up; the local side is pushed at once, the
      Steam side is only queued. */
  function Forcing(w: World, slot: nat, useLocal: bool, name: Name, f: Faults): Step {
    if f(w.tick) || PreparedUpload(w, slot).None? then Step(Tick(w), false)
    else if slot in w.steam then
      var remote := w.steam[slot];
      var b := BackingUpBoth(Tick(w), slot, remote.raw, LocalBeforeForce, SteamBeforeForce, f);
      if !b.ok then b
      else if useLocal then
        var p := Pushing(b.w, w.state, slot, remote, f);
        if !p.ok then Step(p.w, false) else SaveState(p.w, p.st, f)
      else
        SaveState(b.w, w.state.(pulls := w.state.pulls[slot := PendingPull(remote.name, Sha1(remote))]), f)
    else if useLocal then
      var p := PushingNew(Tick(w), w.state, slot, name, f);
      if !p.ok then Step(p.w, false) else SaveState(p.w, p.st, f)
    else Step(Tick(w), false)
  }

  function Choosing(w: World, slot: nat): Choice
    requires slot in w.steam
  {
    Choice(w.state.account, slot, PendingPull(w.steam[slot].name, Sha1(w.steam[slot])))
  }

  function Bound(st: SyncState, account: nat): SyncState {
    if st.account.Some? && st.account != Some(account)
    then st.(account := Some(account), files := map[], pulls := map[])
    else st.(account := Some(account))
  }

  function QueueingRestore(w: World, id: nat, f: Faults): Step {
    match FindRecord(w.backups, id)
    case None => Step(Tick(w), false)
    case Some(record) =>
      if f(w.tick) || ContentOf(record.data).None? then Step(Tick(w), false)
      else SaveState(Tick(w), w.state.(restore := Some(PendingRestore(id, record.slot, record.data))), f)
  }

  /** The backup a queued restore would install, if it is still the approved one. */
  function Approved(w: World): Option<PendingRestore> {
    if w.state.restore.None? then None
    else
      var p := w.state.restore.value;
      var record := FindRecord(w.backups, p.id);
      if record.None? || record.value.slot != p.slot || record.value.data != p.expected then None
      else if ContentOf(p.expected).None? || p.slot !in w.local || !w.replacementAllowed then None
      else Some(p)
  }

  function ApplyingRestore(w: World, f: Faults): Step {
    match Approved(w)
    case None => Step(w, false)
    case Some(p) => RestoreLocal(w, p.id, p.slot, f)
  }

  function Others(saves: seq<LocalSave>, slot: nat): seq<LocalSave> {
    if saves == [] then []
    else if saves[0].slot == slot then Others(saves[1..], slot)
    else [saves[0]] + Others(saves[1..], slot)
  }

  datatype Restored = Restored(w: World, snapshot: Option<seq<LocalSave>>, ok: bool)

  /** The whole prelaunch step: nothing queued is a success; an installed restore also replaces the slot's
      entry in the prelaunch snapshot, and then leaves the queue if the state can be saved. */
  function ApplyingPending(w: World, snapshot: Option<seq<LocalSave>>, f: Faults): Restored {
    if w.state.restore.None? then Restored(w, snapshot, true)
    else
      var s := ApplyingRestore(w, f);
      if !s.ok then Restored(s.w, snapshot, false)
      else
        var p := w.state.restore.value;
        var kept := if snapshot.None? then [] else Others(snapshot.value, p.slot);
        var saved := SaveState(s.w, s.w.state.(restore := None), f);
        Restored(saved.w, Some(kept + [LocalSave(p.slot, ContentOf(p.expected).value)]), saved.ok)
  }

  // ----- Transitions -----

  function Sightings(op: nat, account: Option<nat>, slot: nat, w: World): set<Sighting> {
    (match PreparedUpload(w, slot)
     case None => {}
     case Some(c) => {Sighting(op, account, slot, Device, c)})
    + (if slot in w.steam && ContentOf(w.steam[slot].raw).Some?
       then {Sighting(op, account, slot, Steam, ContentOf(w.steam[slot].raw).value)} else {})
  }

  function Observed(op: nat, account: Option<nat>, saves: seq<LocalSave>): set<Sighting> {
    set i | 0 <= i < |saves| :: Sighting(op, account, saves[i].slot, Device, saves[i].content)
  }

  ghost function Apply(m: Machine, e: Event, f: Faults): Machine
    requires Enabled(m, e)
  {
    match e
    case GameWrites(slot, data) => m.(w := m.w.(local := m.w.local[slot := data]))
    case OtherDeviceWrites(slot, remote) => m.(w := m.w.(steam := m.w.steam[slot := remote]))
    case OtherDeviceDeletes(slot) =>
      m.(w := m.w.(steam := map s | s in m.w.steam && s != slot :: m.w.steam[s]))
    case Binds(account, cloud) =>
      var s := SaveState(m.w, Bound(m.w.state, account), f);
      if s.w.state.account == Some(account) && m.w.state.account != Some(account)
      then m.(w := s.w.(steam := cloud)) else m.(w := s.w)
    case Captures(saves) => m.(snapshot := Some(saves))
    case Begins(prelaunch, allowUpload, saves) =>
      m.(run := Some(Run(m.ops, allowUpload, saves, m.w.state)),
         snapshot := if prelaunch then None else m.snapshot,
         ops := m.ops + 1,
         seen := m.seen + Observed(m.ops, m.w.state.account, saves))
    case SyncsNext =>
      var run := m.run.value;
      var r := SyncingSlot(m.w, run.st, run.todo[0], run.allowUpload, f);
      m.(w := r.w,
         run := if r.outcome == Failed then None else Some(run.(todo := run.todo[1..], st := r.st)),
         seen := m.seen + Sightings(run.op, run.st.account, run.todo[0].slot, r.w))
    case Finishes => m.(w := SaveState(m.w, m.run.value.st, f).w, run := None)
    case Crashes => m.(run := None)
    case Chooses(slot, useLocal, name) =>
      var s := Forcing(m.w, slot, useLocal, name, f);
      m.(w := s.w,
         ops := m.ops + 1,
         seen := m.seen + Sightings(m.ops, m.w.state.account, slot, s.w),
         choices := if useLocal || slot !in m.w.steam then m.choices
                    else m.choices + {Choosing(m.w, slot)})
    case QueuesRestore(id) =>
      var s := QueueingRestore(m.w, id, f);
      m.(w := s.w,
         restores := if s.w.state.restore.Some? then m.restores + {s.w.state.restore.value} else m.restores)
    case AppliesRestore =>
      var r := ApplyingPending(m.w, m.snapshot, f);
      m.(w := r.w, snapshot := r.snapshot)
    case OpensWindow => m.(w := m.w.(replacementAllowed := true))
    case ClosesWindow => m.(w := m.w.(replacementAllowed := false))
  }

  // ----- The invariant -----

  /** One operation under this account saw the content on both sides. */
  ghost predicate Agreed(seen: set<Sighting>, account: Option<nat>, slot: nat, content: Content) {
    exists op {:trigger Sighting(op, account, slot, Device, content)} ::
      && Sighting(op, account, slot, Device, content) in seen
      && Sighting(op, account, slot, Steam, content) in seen
  }

  /** At most one record a slot, every BASE agreed and every queued pull chosen under the bound account,
      every queued restore chosen by the user. */
  ghost predicate StateOk(m: Machine, st: SyncState) {
    && FilesOk(st.files)
    && (st.account.None? ==> st.files == map[] && st.pulls == map[])
    && (forall k :: k in st.files ==> Agreed(m.seen, st.account, k.slot, st.files[k].base))
    && (forall s :: s in st.pulls ==> Choice(st.account, s, st.pulls[s]) in m.choices)
    && (st.restore.Some? ==> st.restore.value in m.restores)
  }

  ghost predicate Inv(m: Machine) {
    && WorldOk(m.w)
    && StateOk(m, m.w.state)
    && (forall p :: p in m.restores ==> ContentOf(p.expected).Some?)
    && (m.run.Some? ==>
          (&& StateOk(m, m.run.value.st)
           && m.run.value.st.account == m.w.state.account && m.w.state.account.Some?
           && Observed(m.run.value.op, m.run.value.st.account, m.run.value.todo) <= m.seen))
  }
}
