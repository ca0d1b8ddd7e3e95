/** One engine operation as a function of the world it runs in and of the faults it meets. */
module SyncModel {
  import opened Bytes
  import opened Backups
  import opened SyncEngine

  // ----- The world -----

  /** Canonical save bytes; SHA-256 identities are taken to be injective, so they stand for themselves. */
  type Content = seq<byte>

  /** The bytes of a save file, read the way the codec reads them. */
  datatype RawSave =
    | SteamForm(bytes: Content)
    | IosForm(bytes: Content, raw: seq<byte>)
    | Invalid(raw: seq<byte>)

  function ContentOf(r: RawSave): Option<Content> {
    match r
    case SteamForm(bytes) => Some(bytes)
    case IosForm(bytes, _) => Some(bytes)
    case Invalid(_) => None
  }

  /** A save's cloud name determines its slot. */
  datatype Name = Name(slot: nat, text: string)

  /** A Steam object; its listing may lack a SHA-1. */
  datatype Remote = Remote(name: Name, raw: RawSave, hashed: bool)

  function Sha1(remote: Remote): Option<RawSave> {
    if remote.hashed then Some(remote.raw) else None
  }

  datatype FileState = FileState(slot: nat, remoteName: Name, base: Content, baseSha1: Option<RawSave>)

  datatype PendingPull = PendingPull(remoteName: Name, expectedSha1: Option<RawSave>)

  datatype PendingRestore = PendingRestore(id: nat, slot: nat, expected: RawSave)

  datatype SyncState = SyncState(
    account: Option<nat>,
    files: map<Name, FileState>,
    pulls: map<nat, PendingPull>,
    restore: Option<PendingRestore>)

  /** `tick` counts the fallible actions performed so far; a fault oracle says which of them fail. */
  datatype World = World(
    local: map<nat, RawSave>,
    steam: map<nat, Remote>,
    state: SyncState,
    backups: seq<BackupRecord<RawSave>>,
    clock: nat,
    replacementAllowed: bool,
    tick: nat)

  type Faults = nat -> bool

  datatype Step = Step(w: World, ok: bool)

  function Tick(w: World): World {
    w.(tick := w.tick + 1)
  }

  // ----- Files -----

  /** A backup may fail before its manifest exists, or after that but before retention. */
  function BackupBytes(w: World, slot: nat, source: BackupSource, data: RawSave, f: Faults): Step {
    if f(w.tick) then Step(Tick(w), false)
    else
      var record := BackupRecord(w.clock, slot, source, data);
      var w' := w.(clock := w.clock + 1, tick := w.tick + 2);
      if f(w.tick + 1) then Step(w'.(backups := w.backups + [record]), false)
      else Step(w'.(backups := Add(w.backups, record)), true)
  }

  function BackupFile(w: World, slot: nat, source: BackupSource, f: Faults): Step {
    if slot in w.local then BackupBytes(w, slot, source, w.local[slot], f) else Step(w, false)
  }

  /** An atomic replacement may fail before the rename, or after it when the directory is synced. */
  function WriteLocal(w: World, slot: nat, data: RawSave, f: Faults): Step {
    if f(w.tick) then Step(Tick(w), false)
    else Step(w.(local := w.local[slot := data], tick := w.tick + 2), !f(w.tick + 1))
  }

  function FindRecord(rs: seq<BackupRecord<RawSave>>, id: nat): Option<BackupRecord<RawSave>> {
    if rs == [] then None
    else if rs[|rs| - 1].id == id then Some(rs[|rs| - 1])
    else FindRecord(rs[..|rs| - 1], id)
  }

  /** Listing, verifying, backing up the destination, replacing it and reading it back. The stored file is
      read only after the backup, whose retention may have deleted it. */
  function RestoreLocal(w: World, id: nat, slot: nat, f: Faults): Step {
    if f(w.tick) then Step(Tick(w), false)
    else
      match FindRecord(w.backups, id)
      case None => Step(Tick(w), false)
      case Some(record) =>
        var b := if slot in w.local then BackupFile(Tick(w), slot, LocalBeforeRestore, f) else Step(Tick(w), true);
        if !b.ok then b
        else
          match FindRecord(b.w.backups, id)
          case None => Step(b.w, false)
          case Some(stored) =>
            var r := WriteLocal(b.w, slot, stored.data, f);
            if !r.ok then r else Step(Tick(r.w), !f(r.w.tick))
  }

  function SaveState(w: World, st: SyncState, f: Faults): Step {
    if f(w.tick) then Step(Tick(w), false)
    else Step(w.(state := st, tick := w.tick + 2), !f(w.tick + 1))
  }

  // ----- Records of the last common version -----

  /** All records of the entry's slot are dropped before it is stored under its name. */
  function Upsert(files: map<Name, FileState>, entry: FileState): map<Name, FileState> {
    (map k | k in files && files[k].slot != entry.slot :: files[k])[entry.remoteName := entry]
  }

  ghost function BaseOf(files: map<Name, FileState>, slot: nat): Option<Content> {
    if exists k :: k in files && files[k].slot == slot then
      var k :| k in files && files[k].slot == slot;
      Some(files[k].base)
    else None
  }

  // ----- Transfers -----

  datatype PullOutcome = Refused | NotBackedUp | RolledBack | RollbackFailed | Pulled

  datatype Pull = Pull(w: World, st: SyncState, outcome: PullOutcome)

  function RollBack(w: World, st: SyncState, id: nat, slot: nat, f: Faults): Pull {
    var r := RestoreLocal(w, id, slot, f);
    Pull(r.w, st, if r.ok then RolledBack else RollbackFailed)
  }

  function Pulling(w: World, st: SyncState, slot: nat, remote: Remote, bytes: Content, f: Faults): Pull {
    if !w.replacementAllowed then Pull(w, st, Refused)
    else
      var b := BackupFile(w, slot, LocalBeforePull, f);
      if !b.ok then Pull(b.w, st, NotBackedUp)
      else
        var r := WriteLocal(b.w, slot, SteamForm(bytes), f);
        if !r.ok then RollBack(r.w, st, w.clock, slot, f)
        else if f(r.w.tick) then RollBack(Tick(r.w), st, w.clock, slot, f)
        else
          var entry := FileState(slot, remote.name, bytes, Sha1(remote));
          Pull(Tick(r.w), st.(files := Upsert(st.files, entry)), Pulled)
  }

  datatype Push = Push(w: World, st: SyncState, ok: bool)

  /** The upload may fail before the commit, or be committed without being confirmed. */
  function Uploading(w: World, st: SyncState, slot: nat, name: Name, content: Content, f: Faults): Push {
    if f(w.tick) then Push(Tick(w), st, false)
    else
      var uploaded := Remote(name, SteamForm(content), true);
      var w' := w.(steam := w.steam[slot := uploaded], tick := w.tick + 2);
      if f(w.tick + 1) then Push(w', st, false)
      else
        var entry := FileState(slot, name, content, Sha1(uploaded));
        Push(w', st.(files := Upsert(st.files, entry)), true)
  }

  /** The canonical bytes of a stable copy of the local save. */
  function PreparedUpload(w: World, slot: nat): Option<Content> {
    if slot in w.local then ContentOf(w.local[slot]) else None
  }

  /** Listing again: an object still under its name is compared by the listed SHA-1s if both listings have
      one, and otherwise by downloading it. */
  function RemoteUnchanged(w: World, slot: nat, remote: Remote, f: Faults): Step {
    if f(w.tick) || slot !in w.steam || w.steam[slot].name != remote.name then Step(Tick(w), false)
    else
      match (Sha1(remote), Sha1(w.steam[slot]))
      case (Some(before), Some(now)) => Step(Tick(w), before == now)
      case _ => Step(Tick(Tick(w)), !f(w.tick + 1) && w.steam[slot].raw == remote.raw)
  }

  function Pushing(w: World, st: SyncState, slot: nat, remote: Remote, f: Faults): Push {
    var content := PreparedUpload(w, slot);
    if f(w.tick) || content.None? then Push(Tick(w), st, false)
    else
      var u := RemoteUnchanged(Tick(w), slot, remote, f);
      if !u.ok then Push(u.w, st, false)
      else
        var b := BackupBytes(u.w, slot, SteamBeforePush, remote.raw, f);
        if !b.ok then Push(b.w, st, false) else Uploading(b.w, st, slot, remote.name, content.value, f)
  }

  function PushingNew(w: World, st: SyncState, slot: nat, name: Name, f: Faults): Push {
    var content := PreparedUpload(w, slot);
    if f(w.tick) || content.None? then Push(Tick(w), st, false)
    else
      var w1 := Tick(w);
      if f(w1.tick) || slot in w.steam then Push(Tick(w1), st, false)
      else
        var b := BackupFile(Tick(w1), slot, LocalFirstSync, f);
        if !b.ok then Push(b.w, st, false) else Uploading(b.w, st, slot, name, content.value, f)
  }

  function BackingUpBoth(w: World, slot: nat, remote: RawSave, first: BackupSource, second: BackupSource, f: Faults): Step {
    var b := BackupFile(w, slot, first, f);
    if !b.ok then b else BackupBytes(b.w, slot, second, remote, f)
  }

  // ----- One slot of a run -----

  /** What discovery saw of a local save. */
  datatype LocalSave = LocalSave(slot: nat, content: Content)

  datatype ChoiceKind = FirstSync | TrueConflict | RestartRequired | RemoteMissing

  datatype Outcome = Settled | UploadWaiting | ChoicePending(kind: ChoiceKind) | Failed

  datatype SlotResult = SlotResult(w: World, st: SyncState, outcome: Outcome)

  function OfPush(p: Push): SlotResult {
    SlotResult(p.w, p.st, if p.ok then Settled else Failed)
  }

  ghost function Comparing(w: World, st: SyncState, save: LocalSave, remote: Remote, content: Content,
                           allowUpload: bool, f: Faults): SlotResult
  {
    var repair := remote.raw.IosForm?;
    match Decide(BaseOf(st.files, save.slot), save.content, content)
    case Unchanged =>
      if !repair then SlotResult(w, st, Settled)
      else if allowUpload then OfPush(Pushing(w, st, save.slot, remote, f))
      else SlotResult(w, st, UploadWaiting)
    case Converged =>
      if repair && allowUpload then OfPush(Pushing(w, st, save.slot, remote, f))
      else
        var entry := FileState(save.slot, remote.name, save.content, Sha1(remote));
        SlotResult(w, st.(files := Upsert(st.files, entry)), if repair then UploadWaiting else Settled)
    case UploadLocal =>
      if allowUpload then OfPush(Pushing(w, st, save.slot, remote, f)) else SlotResult(w, st, UploadWaiting)
    case DownloadRemote =>
      if w.replacementAllowed then
        var p := Pulling(w, st, save.slot, remote, content, f);
        SlotResult(p.w, p.st, if p.outcome == Pulled then Settled else Failed)
      else SlotResult(w, st, ChoicePending(RestartRequired))
    case FirstSyncChoiceRequired =>
      var b := BackingUpBoth(w, save.slot, remote.raw, LocalFirstSync, SteamFirstSync, f);
      SlotResult(b.w, st, if b.ok then ChoicePending(FirstSync) else Failed)
    case Conflict =>
      var b := BackingUpBoth(w, save.slot, remote.raw, LocalConflict, SteamConflict, f);
      SlotResult(b.w, st, if b.ok then ChoicePending(TrueConflict) else Failed)
  }

  function Unpinned(st: SyncState, slot: nat): SyncState {
    st.(pulls := map k | k in st.pulls && k != slot :: st.pulls[k])
  }

  predicate SameRemote(pin: PendingPull, remote: Remote) {
    pin.remoteName == remote.name && pin.expectedSha1 == Sha1(remote)
  }

  ghost function SyncingSlot(w: World, st: SyncState, save: LocalSave, allowUpload: bool, f: Faults): SlotResult {
    if save.slot !in w.steam then
      var b := BackupFile(w, save.slot, LocalFirstSync, f);
      SlotResult(b.w, st, if b.ok then ChoicePending(RemoteMissing) else Failed)
    else if f(w.tick) then SlotResult(Tick(w), st, Failed)
    else
      var remote := w.steam[save.slot];
      match ContentOf(remote.raw)
      case None =>
        SlotResult(BackupBytes(Tick(w), save.slot, SteamInvalid, remote.raw, f).w, st, Failed)
      case Some(content) =>
        if save.slot !in st.pulls then Comparing(Tick(w), st, save, remote, content, allowUpload, f)
        else if !SameRemote(st.pulls[save.slot], remote) then
          Comparing(Tick(w), Unpinned(st, save.slot), save, remote, content, allowUpload, f)
        else if w.replacementAllowed then
          var p := Pulling(Tick(w), st, save.slot, remote, content, f);
          if p.outcome == Pulled then SlotResult(p.w, Unpinned(p.st, save.slot), Settled)
          else SlotResult(p.w, p.st, Failed)
        else SlotResult(Tick(w), st, ChoicePending(RestartRequired))
  }

  // ----- A whole run without interference -----

  datatype RunResult = RunResult(w: World, st: SyncState, pending: map<nat, ChoiceKind>, waiting: nat, ok: bool)

  ghost function RunningSlots(w: World, st: SyncState, saves: seq<LocalSave>, allowUpload: bool, f: Faults): RunResult
    decreases |saves|
  {
    if saves == [] then RunResult(w, st, map[], 0, true)
    else
      var r := SyncingSlot(w, st, saves[0], allowUpload, f);
      if r.outcome == Failed then RunResult(r.w, r.st, map[], 0, false)
      else
        var rest := RunningSlots(r.w, r.st, saves[1..], allowUpload, f);
        match r.outcome
        case ChoicePending(kind) => rest.(pending := rest.pending[saves[0].slot := kind])
        case UploadWaiting => rest.(waiting := rest.waiting + 1)
        case _ => rest
  }

  /** A run loads the state first and saves it only after its last slot. */
  ghost function RunningSync(w: World, saves: seq<LocalSave>, allowUpload: bool, f: Faults): RunResult {
    if saves == [] then RunResult(w, w.state, map[], 0, false)
    else
      var r := RunningSlots(w, w.state, saves, allowUpload, f);
      if !r.ok then r
      else
        var s := SaveState(r.w, r.st, f);
        r.(w := s.w, ok := s.ok)
  }
}
