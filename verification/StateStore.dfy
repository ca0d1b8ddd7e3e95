/** The stored state of the engine and its migration. */
module StateStore {
  import opened Bytes
  import opened AtomicFile
  import opened SyncModel
  import opened SyncSafety
  import opened SyncMachine

  const STATE_SCHEMA := 3
  const STEAM_APP_ID := 250900

  datatype Document = Document(schema: nat, appId: nat, changeNumber: Option<nat>, state: SyncState)

  /** How documents are written as bytes; reading back what was written gives the document. */
  datatype Coding = Coding(encode: Document -> seq<byte>, decode: seq<byte> -> Option<Document>)

  ghost predicate Lawful(c: Coding) {
    forall d :: c.decode(c.encode(d)) == Some(d)
  }

  /** The state file is missing, holds a document, or holds something that does not decode as one. */
  datatype StateFile = Missing | Stored(document: Document) | Undecodable

  function Reading(files: Files, path: string, coding: Coding): StateFile {
    if path !in files then Missing
    else
      match coding.decode(files[path].bytes)
      case None => Undecodable
      case Some(document) => Stored(document)
  }

  datatype Loaded = Loaded(document: Document) | Undecoded | UnsupportedSchema(schema: nat) | UnexpectedApp(appId: nat)

  const EMPTY := Document(STATE_SCHEMA, STEAM_APP_ID, None, SyncState(None, map[], map[], None))

  /** Documents the program itself writes. */
  predicate Current(document: Document) {
    document.schema == STATE_SCHEMA && document.appId == STEAM_APP_ID
  }

  /** Under a current or migrated schema nothing but BASE records and the change number may be dropped,
      and no BASE record is ever made up: raw-hash records of schema 2 all go. */
  ghost predicate Faithful(file: StateFile, r: Loaded) {
    match file
    case Missing => r == Loaded(EMPTY)
    case Undecodable => r == Undecoded
    case Stored(d) =>
      && (r.Loaded? <==> (d.schema == 2 || d.schema == STATE_SCHEMA) && d.appId == STEAM_APP_ID)
      && (r.Loaded? ==>
            (&& Current(r.document)
             && r.document.state.account == d.state.account
             && r.document.state.pulls == d.state.pulls
             && r.document.state.restore == d.state.restore
             && (d.schema == STATE_SCHEMA ==> r.document == d)
             && (d.schema == 2 ==> r.document.state.files == map[] && r.document.changeNumber == None)))
      && (!r.Loaded? ==> r == if d.schema != 2 && d.schema != STATE_SCHEMA
                              then UnsupportedSchema(d.schema) else UnexpectedApp(d.appId))
  }

  class StateStore {
    const directory: Directory
    const path: string
    const temp: string
    const coding: Coding

    constructor (directory: Directory, path: string, temp: string, coding: Coding)
      ensures this.directory == directory && this.path == path && this.temp == temp && this.coding == coding
    {
      this.directory, this.path, this.temp, this.coding := directory, path, temp, coding;
    }

    method Load() returns (r: Loaded)
      ensures Faithful(Reading(directory.files, path, coding), r)
    {
      if path !in directory.files {
        return Loaded(EMPTY);
      }
      var decoded := coding.decode(directory.files[path].bytes);
      if decoded.None? {
        return Undecoded;
      }
      var d := decoded.value;
      if d.schema == 2 {
        d := d.(schema := STATE_SCHEMA);
        d := d.(state := d.state.(files := map[]));
        d := d.(changeNumber := None);
      } else if d.schema != STATE_SCHEMA {
        return UnsupportedSchema(d.schema);
      }
      if d.appId != STEAM_APP_ID {
        return UnexpectedApp(d.appId);
      }
      r := Loaded(d);
    }

    /** Whichever file operation fails, the next load sees the whole old document or the whole new one,
        and the new one whenever the save reported success. */
    method Save(document: Document, o: Failures) returns (ok: bool)
      requires Lawful(coding) && path != temp
      modifies directory
      ensures Replaced(old(directory.files), directory.files, path, temp, coding.encode(document), o, ok)
      ensures Reading(directory.files, path, coding)
           == if FailsBeforeRename(old(directory.files), path, temp, o)
              then Reading(old(directory.files), path, coding) else Stored(document)
    {
      ghost var was := directory.files;
      ghost var moments;
      ok, moments := directory.WriteBytes(path, temp, coding.encode(document), o);
      Reread(was, directory.files, path, temp, coding, document, o, ok);
    }
  }

  lemma Reread(was: Files, now: Files, path: string, temp: string, coding: Coding, document: Document, o: Failures, ok: bool)
    requires Lawful(coding) && path != temp && Replaced(was, now, path, temp, coding.encode(document), o, ok)
    ensures Reading(now, path, coding)
         == if FailsBeforeRename(was, path, temp, o) then Reading(was, path, coding) else Stored(document)
  {
    hide FailsBeforeRename;
    assert path in Except(now, temp) <==> path in now;
    assert path in Except(was, temp) <==> path in was;
    assert path in now ==> Except(now, temp)[path] == now[path];
    assert path in was ==> Except(was, temp)[path] == was[path];
  }

  /** Saving and loading gives the document back, and loading a migrated document changes nothing more. */
  lemma SavedLoads(document: Document, r: Loaded)
    requires Faithful(Stored(document), r)
    ensures Current(document) ==> r == Loaded(document)
    ensures r.Loaded? ==> Faithful(Stored(r.document), r)
  {
  }

  /** The state operations start from is the one in the file. */
  predicate Holds(st: SyncState, file: StateFile) {
    match file
    case Missing => st == EMPTY.state
    case Stored(document) => st == document.state
    case Undecodable => false
  }

  /** `SaveState` is the replacement of the state file: its first fault stands for any failure up to the
      rename, its second for a failure of the directory synchronization. */
  lemma SaveStateRefined(w: World, document: Document, was: Files, now: Files, path: string, temp: string,
                         coding: Coding, o: Failures, ok: bool, f: Faults)
    requires Lawful(coding) && path != temp && Replaced(was, now, path, temp, coding.encode(document), o, ok)
    requires Holds(w.state, Reading(was, path, coding))
    requires f(w.tick) == FailsBeforeRename(was, path, temp, o) && f(w.tick + 1) == o.fails(6)
    ensures var r := SaveState(w, document.state, f);
            r.ok == ok && Holds(r.w.state, Reading(now, path, coding))
  {
    Reread(was, now, path, temp, coding, document, o, ok);
    hide FailsBeforeRename, Reading, Before, After;
  }

  // ----- Launches -----

  /** The machine right after a launch that loaded this document: nothing has been seen yet, and what the
      document queues is what the user once chose. */
  ghost function Launched(w: World, document: Document): Machine {
    var st := document.state;
    Machine(w.(state := st), None, None, 0, {},
            set s | s in st.pulls :: Choice(st.account, s, st.pulls[s]),
            if st.restore.Some? then {st.restore.value} else {})
  }

  /** Whatever BASE records a schema-2 file holds, the launch that migrates it starts with the invariant of
      all runs; so every BASE any later state holds was seen on both sides after the migration. */
  lemma MigratedLaunchOk(w: World, document: Document, r: Loaded)
    requires WorldOk(w) && document.schema == 2 && Faithful(Stored(document), r) && r.Loaded?
    requires document.state.account.None? ==> document.state.pulls == map[]
    requires document.state.restore.Some? ==> ContentOf(document.state.restore.value.expected).Some?
    ensures Inv(Launched(w, r.document))
    ensures forall slot :: BaseOf(r.document.state.files, slot) == None
  {
    hide ContentOf;
  }
}
