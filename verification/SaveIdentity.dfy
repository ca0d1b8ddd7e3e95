/** The engine's view of save files, tied to the bytes the codec reads. */
module SaveIdentity {
  import opened Bytes
  import opened SyncModel
  import opened Backups
  import Codec = IsaacFormat
  import Lz4

  /** How the engine sees a file holding these bytes. */
  function Classify(raw: seq<byte>): RawSave {
    match Codec.Canonical(raw)
    case None => Invalid(raw)
    case Some(c) => if c.encoding == Codec.SteamCanonical then SteamForm(c.bytes) else IosForm(c.bytes, raw)
  }

  function RawBytes(r: RawSave): seq<byte> {
    match r
    case SteamForm(bytes) => bytes
    case IosForm(_, raw) => raw
    case Invalid(raw) => raw
  }

  /** The view loses nothing: equal views are equal files, and its content is the canonical save. */
  lemma ClassifyFaithful(raw: seq<byte>)
    ensures RawBytes(Classify(raw)) == raw
    ensures ContentOf(Classify(raw)) == match Codec.Canonical(raw) case None => None case Some(c) => Some(c.bytes)
  {
  }

  /** What pulls write and pushes upload is read back as the canonical form of the same content, so a
      push of a pulled save, or the other way round, never changes the content again. */
  lemma ContentReadsBack(raw: seq<byte>, content: Content)
    requires ContentOf(Classify(raw)) == Some(content)
    ensures Classify(content) == SteamForm(content)
  {
    hide Codec.Canonical;
    Codec.CanonicalIdempotent(raw);
  }

  /** What a push uploads is the canonical form of the live bytes, whichever encoding they are in: a valid
      save in Steam's encoding, the live bytes themselves unless they are LZ4; there is nothing to upload
      exactly when the live bytes are no save. */
  lemma PreparedIsCanonical(w: World, slot: nat, raw: seq<byte>)
    requires slot in w.local && w.local[slot] == Classify(raw)
    ensures PreparedUpload(w, slot).Some? <==> Codec.Canonical(raw).Some?
    ensures PreparedUpload(w, slot).Some? ==>
              (var bytes := PreparedUpload(w, slot).value;
               && Codec.Accepts(bytes) && Classify(bytes) == SteamForm(bytes)
               && (bytes == raw || Lz4.Decoded(raw) == Some(bytes))
               && (bytes == raw <==> Codec.StartsWith(raw, Codec.REPENTANCE_MAGIC)))
  {
    hide Codec.Accepts, Lz4.Decoded;
    ClassifyFaithful(raw);
    if Codec.Canonical(raw).Some? {
      Codec.CanonicalIdempotent(raw);
      ContentReadsBack(raw, Codec.Canonical(raw).value.bytes);
    }
  }

  /** A valid save and a copy damaged in up to three consecutive bytes that still starts as a save. */
  ghost predicate Damaged(save: seq<byte>, copy: seq<byte>, i: nat, n: nat) {
    && Codec.Accepts(save) && copy != save
    && Codec.AgreeOutside(save, copy, i, n) && n <= 3
    && Codec.StartsWith(copy, Codec.REPENTANCE_MAGIC)
  }

  lemma DamagedIsInvalid(save: seq<byte>, copy: seq<byte>, i: nat, n: nat)
    requires Damaged(save, copy, i, n)
    ensures Classify(copy) == Invalid(copy)
  {
    hide Codec.Accepts, Codec.AgreeOutside, Codec.StartsWith;
    Codec.BurstDetected(save, copy, i, n);
  }

  /** A damaged copy of a save never crosses over: found on Steam it fails its slot, with a queued pull
      or without, and changes neither side; on the device it cannot be pushed. */
  lemma DamagedIsNeverTransferred(w: World, st: SyncState, save: LocalSave, remote: Remote, name: Name,
                                  good: seq<byte>, copy: seq<byte>, i: nat, n: nat, up: bool, f: Faults)
    requires Damaged(good, copy, i, n) && save.slot in w.steam
    ensures w.steam[save.slot].raw == Classify(copy) ==>
              var r := SyncingSlot(w, st, save, up, f);
              r.outcome == Failed && r.w.local == w.local && r.w.steam == w.steam && r.st == st
    ensures save.slot in w.local && w.local[save.slot] == Classify(copy) ==>
              && !Pushing(w, st, save.slot, remote, f).ok && Pushing(w, st, save.slot, remote, f).w.steam == w.steam
              && !PushingNew(w, st, save.slot, name, f).ok && PushingNew(w, st, save.slot, name, f).w.steam == w.steam
  {
    DamagedIsInvalid(good, copy, i, n);
    hide Classify, Damaged, SyncingSlot, Pushing, PushingNew;
    if w.steam[save.slot].raw == Invalid(copy) {
      InvalidOnSteam(w, st, save, copy, up, f);
    }
    if save.slot in w.local && w.local[save.slot] == Invalid(copy) {
      InvalidOnDevice(w, st, save.slot, remote, name, copy, f);
    }
  }

  lemma InvalidOnSteam(w: World, st: SyncState, save: LocalSave, raw: seq<byte>, up: bool, f: Faults)
    requires save.slot in w.steam && w.steam[save.slot].raw == Invalid(raw)
    ensures var r := SyncingSlot(w, st, save, up, f);
            r.outcome == Failed && r.w.local == w.local && r.w.steam == w.steam && r.st == st
  {
    hide Comparing, Pulling, BackupBytes;
    StoredOnly(Tick(w), save.slot, Invalid(raw), f);
  }

  lemma StoredOnly(w: World, slot: nat, data: RawSave, f: Faults)
    ensures var b := BackupBytes(w, slot, SteamInvalid, data, f); b.w.local == w.local && b.w.steam == w.steam
  {
  }

  lemma InvalidOnDevice(w: World, st: SyncState, slot: nat, remote: Remote, name: Name, raw: seq<byte>, f: Faults)
    requires slot in w.local && w.local[slot] == Invalid(raw)
    ensures !Pushing(w, st, slot, remote, f).ok && Pushing(w, st, slot, remote, f).w.steam == w.steam
    ensures !PushingNew(w, st, slot, name, f).ok && PushingNew(w, st, slot, name, f).w.steam == w.steam
  {
    assert PreparedUpload(w, slot) == None;
  }
}
