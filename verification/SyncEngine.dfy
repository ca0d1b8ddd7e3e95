/** The three-way comparison every synchronization rests on. */
module SyncEngine {
  import opened Bytes

  datatype SyncDecision = Unchanged | UploadLocal | DownloadRemote | Converged | Conflict | FirstSyncChoiceRequired

  function Decide<C(==)>(base: Option<C>, local: C, remote: C): SyncDecision {
    match base
    case None => if local == remote then Converged else FirstSyncChoiceRequired
    case Some(b) =>
      match (local == b, remote == b, local == remote)
      case (true, true, _) => Unchanged
      case (false, true, _) => UploadLocal
      case (true, false, _) => DownloadRemote
      case (false, false, true) => Converged
      case (false, false, false) => Conflict
  }

  /** A side is only ever replaced when it still holds the version last seen on both sides, and no
      choice is asked for when the sides agree. */
  lemma DecideSafe<C>(base: Option<C>, local: C, remote: C)
    ensures Decide(base, local, remote) == DownloadRemote <==> base == Some(local) && local != remote
    ensures Decide(base, local, remote) == UploadLocal <==> base == Some(remote) && local != remote
    ensures Decide(base, local, remote) in {Unchanged, Converged} <==> local == remote
    ensures Decide(base, local, remote) == Unchanged <==> base == Some(local) && local == remote
    ensures Decide(base, local, remote) == Conflict
       <==> local != remote && base.Some? && base.value != local && base.value != remote
    ensures Decide(base, local, remote) == FirstSyncChoiceRequired <==> base.None? && local != remote
  {
  }

  /** Exchanging the two sides exchanges the two transfers and nothing else. */
  lemma DecideSymmetric<C>(base: Option<C>, local: C, remote: C)
    ensures Decide(base, remote, local)
         == match Decide(base, local, remote)
            case UploadLocal => DownloadRemote
            case DownloadRemote => UploadLocal
            case d => d
  {
  }
}
