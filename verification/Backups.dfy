/** The store of backups: listing, retention and what every history of backups leaves behind. */
module Backups {
  const RETAIN_PER_SLOT_AND_SOURCE := 12

  datatype BackupSource =
    | LocalBeforePull | LocalBeforeRestore | LocalBeforeForce | LocalFirstSync | LocalConflict
    | SteamBeforePush | SteamBeforeForce | SteamFirstSync | SteamConflict | SteamInvalid | Manual

  /** A stored version; the identifier is fresh and doubles as the creation time. */
  datatype BackupRecord<T> = BackupRecord(id: nat, slot: nat, source: BackupSource, data: T)

  /** Records in order of creation, all older than `now`. */
  ghost predicate Chronological<T>(rs: seq<BackupRecord<T>>, now: nat) {
    && (forall i, j :: 0 <= i < j < |rs| ==> rs[i].id < rs[j].id)
    && (forall i :: 0 <= i < |rs| ==> rs[i].id < now)
  }

  predicate Matches<T>(r: BackupRecord<T>, slot: nat, source: BackupSource) {
    r.slot == slot && r.source == source
  }

  function Versions<T>(rs: seq<BackupRecord<T>>, slot: nat, source: BackupSource): (v: seq<BackupRecord<T>>)
    ensures |v| <= |rs|
  {
    if rs == [] then []
    else
      var v := Versions(rs[..|rs| - 1], slot, source);
      if Matches(rs[|rs| - 1], slot, source) then v + [rs[|rs| - 1]] else v
  }

  function Newest<T>(v: seq<T>, n: nat): seq<T> {
    if |v| <= n then v else v[|v| - n..]
  }

  /** Dropping all but the newest `budget` versions of one slot and source. */
  function Keep<T>(rs: seq<BackupRecord<T>>, slot: nat, source: BackupSource, budget: nat): (k: seq<BackupRecord<T>>)
    ensures |k| <= |rs|
  {
    if rs == [] then []
    else
      var last := rs[|rs| - 1];
      var older := rs[..|rs| - 1];
      if !Matches(last, slot, source) then Keep(older, slot, source, budget) + [last]
      else if budget > 0 then Keep(older, slot, source, budget - 1) + [last]
      else Keep(older, slot, source, 0)
  }

  /** Storing one backup and applying retention to its slot and source. */
  function Add<T>(rs: seq<BackupRecord<T>>, r: BackupRecord<T>): seq<BackupRecord<T>> {
    Keep(rs + [r], r.slot, r.source, RETAIN_PER_SLOT_AND_SOURCE)
  }

  // ----- Retention -----

  lemma {:induction false} KeepMembers<T>(rs: seq<BackupRecord<T>>, slot: nat, source: BackupSource, budget: nat)
    ensures forall r :: r in Keep(rs, slot, source, budget) ==> r in rs
    ensures forall r :: r in rs && !Matches(r, slot, source) ==> r in Keep(rs, slot, source, budget)
  {
    if rs == [] {
    } else {
      var older := rs[..|rs| - 1];
      assert rs == older + [rs[|rs| - 1]];
      KeepMembers(older, slot, source, budget);
      if budget > 0 {
        KeepMembers(older, slot, source, budget - 1);
      }
    }
  }

  lemma NewestOfSnoc<T>(v: seq<T>, x: T, n: nat)
    ensures Newest(v + [x], n) == if n == 0 then [] else Newest(v, n - 1) + [x]
    ensures Newest(v, 0) == []
  {
  }

  lemma {:induction false} KeepVersions<T>(rs: seq<BackupRecord<T>>, slot: nat, source: BackupSource, budget: nat)
    ensures Versions(Keep(rs, slot, source, budget), slot, source) == Newest(Versions(rs, slot, source), budget)
  {
    if rs == [] {
    } else {
      hide Newest;
      var last, older := rs[|rs| - 1], rs[..|rs| - 1];
      NewestOfSnoc(Versions(older, slot, source), last, budget);
      if !Matches(last, slot, source) {
        KeepVersions(older, slot, source, budget);
        VersionsSnoc(Keep(older, slot, source, budget), last, slot, source);
      } else if budget > 0 {
        KeepVersions(older, slot, source, budget - 1);
        VersionsSnoc(Keep(older, slot, source, budget - 1), last, slot, source);
      } else {
        KeepVersions(older, slot, source, 0);
      }
    }
  }

  lemma VersionsSnoc<T>(rs: seq<BackupRecord<T>>, r: BackupRecord<T>, slot: nat, source: BackupSource)
    ensures Versions(rs + [r], slot, source)
         == if Matches(r, slot, source) then Versions(rs, slot, source) + [r] else Versions(rs, slot, source)
  {
    assert (rs + [r])[..|rs|] == rs;
  }

  lemma KeepLast<T>(rs: seq<BackupRecord<T>>, slot: nat, source: BackupSource, budget: nat)
    requires rs != []
    ensures var last, older := rs[|rs| - 1], rs[..|rs| - 1];
            var b := if Matches(last, slot, source) && budget > 0 then budget - 1 else budget;
            Keep(rs, slot, source, budget)
            == if Matches(last, slot, source) && budget == 0 then Keep(older, slot, source, b)
               else Keep(older, slot, source, b) + [last]
  {
  }

  lemma {:induction false} KeepOthers<T>(rs: seq<BackupRecord<T>>, slot: nat, source: BackupSource, budget: nat,
                                         slot': nat, source': BackupSource)
    requires slot != slot' || source != source'
    ensures Versions(Keep(rs, slot, source, budget), slot', source') == Versions(rs, slot', source')
  {
    if rs == [] {
    } else {
      var last, older := rs[|rs| - 1], rs[..|rs| - 1];
      assert Matches(last, slot, source) ==> !Matches(last, slot', source');
      var b := if Matches(last, slot, source) && budget > 0 then budget - 1 else budget;
      KeepLast(rs, slot, source, budget);
      assert rs == older + [last];
      hide Matches, Keep, Versions;
      KeepOthers(older, slot, source, b, slot', source');
      VersionsSnoc(older, last, slot', source');
      VersionsSnoc(Keep(older, slot, source, b), last, slot', source');
    }
  }

  lemma ChronologicalSnoc<T>(rs: seq<BackupRecord<T>>, r: BackupRecord<T>, now: nat)
    requires Chronological(rs, r.id) && r.id < now
    ensures Chronological(rs, now) && Chronological(rs + [r], now)
  {
  }

  lemma {:induction false} KeepChronological<T>(rs: seq<BackupRecord<T>>, slot: nat, source: BackupSource,
                                                budget: nat, now: nat)
    requires Chronological(rs, now)
    ensures Chronological(Keep(rs, slot, source, budget), now)
  {
    if rs == [] {
    } else {
      var last, older := rs[|rs| - 1], rs[..|rs| - 1];
      assert Chronological(older, last.id) && last.id < now;
      hide Chronological;
      var b := if Matches(last, slot, source) && budget > 0 then budget - 1 else budget;
      KeepChronological(older, slot, source, b, last.id);
      ChronologicalSnoc(Keep(older, slot, source, b), last, now);
    }
  }

  /** The store after a history of backups. */
  function Stored<T>(history: seq<BackupRecord<T>>): seq<BackupRecord<T>> {
    if history == [] then [] else Add(Stored(history[..|history| - 1]), history[|history| - 1])
  }

  lemma NewestSnoc<T>(v: seq<T>, x: T, n: nat)
    requires 0 < n
    ensures Newest(Newest(v, n) + [x], n) == Newest(v + [x], n)
  {
  }

  /** After any history each slot and source holds exactly its newest twelve versions. */
  lemma {:induction false} RetentionExact<T>(history: seq<BackupRecord<T>>, slot: nat, source: BackupSource)
    ensures Versions(Stored(history), slot, source)
         == Newest(Versions(history, slot, source), RETAIN_PER_SLOT_AND_SOURCE)
  {
    if history == [] {
    } else {
      var r, older := history[|history| - 1], history[..|history| - 1];
      RetentionExact(older, slot, source);
      var rs := Stored(older);
      VersionsSnoc(rs, r, slot, source);
      if Matches(r, slot, source) {
        KeepVersions(rs + [r], slot, source, RETAIN_PER_SLOT_AND_SOURCE);
        NewestSnoc(Versions(older, slot, source), r, RETAIN_PER_SLOT_AND_SOURCE);
      } else {
        KeepOthers(rs + [r], r.slot, r.source, RETAIN_PER_SLOT_AND_SOURCE, slot, source);
      }
    }
  }

  /** A backup just made is stored, and making it removes no version of another slot or source. */
  lemma AddKeeps<T>(rs: seq<BackupRecord<T>>, r: BackupRecord<T>)
    ensures r in Add(rs, r)
    ensures forall q :: q in rs && !Matches(q, r.slot, r.source) ==> q in Add(rs, r)
    ensures forall q :: q in Add(rs, r) ==> q in rs || q == r
  {
    var all := rs + [r];
    KeepMembers(all, r.slot, r.source, RETAIN_PER_SLOT_AND_SOURCE);
    assert all[|all| - 1] == r && all[..|all| - 1] == rs;
    KeepMembers(rs, r.slot, r.source, RETAIN_PER_SLOT_AND_SOURCE - 1);
  }

  lemma {:induction false} VersionsIff<T>(rs: seq<BackupRecord<T>>, slot: nat, source: BackupSource, q: BackupRecord<T>)
    ensures q in Versions(rs, slot, source) <==> q in rs && Matches(q, slot, source)
  {
    if rs == [] {
    } else {
      var older := rs[..|rs| - 1];
      assert rs == older + [rs[|rs| - 1]];
      VersionsIff(older, slot, source, q);
    }
  }

  /** An older version outlives a new backup exactly when it is of another slot or source, or one of the
      newest eleven of its own. */
  ghost predicate Outlives<T>(rs: seq<BackupRecord<T>>, q: BackupRecord<T>, slot: nat, source: BackupSource) {
    !Matches(q, slot, source) || q in Newest(Versions(rs, slot, source), RETAIN_PER_SLOT_AND_SOURCE - 1)
  }

  lemma OutlivesAdd<T>(rs: seq<BackupRecord<T>>, r: BackupRecord<T>, q: BackupRecord<T>)
    requires q in rs && q != r
    ensures q in Add(rs, r) <==> Outlives(rs, q, r.slot, r.source)
  {
    var budget := RETAIN_PER_SLOT_AND_SOURCE;
    AddKeeps(rs, r);
    VersionsSnoc(rs, r, r.slot, r.source);
    KeepVersions(rs + [r], r.slot, r.source, budget);
    NewestOfSnoc(Versions(rs, r.slot, r.source), r, budget);
    VersionsIff(Add(rs, r), r.slot, r.source, q);
    hide Keep, Versions, Newest;
  }

  lemma AddChronological<T>(rs: seq<BackupRecord<T>>, r: BackupRecord<T>)
    requires Chronological(rs, r.id)
    ensures Chronological(rs + [r], r.id + 1) && Chronological(Add(rs, r), r.id + 1)
  {
    KeepChronological(rs + [r], r.slot, r.source, RETAIN_PER_SLOT_AND_SOURCE, r.id + 1);
  }

  // ----- The manager -----

  function Without<T>(rs: seq<BackupRecord<T>>, ids: set<nat>): seq<BackupRecord<T>> {
    if rs == [] then []
    else
      var kept := Without(rs[..|rs| - 1], ids);
      if rs[|rs| - 1].id in ids then kept else kept + [rs[|rs| - 1]]
  }

  function Reversed<T>(s: seq<T>): (r: seq<T>)
    ensures |r| == |s|
    ensures forall k :: 0 <= k < |s| ==> r[k] == s[|s| - 1 - k]
  {
    if s == [] then [] else [s[|s| - 1]] + Reversed(s[..|s| - 1])
  }

  ghost function Ids<T>(v: seq<BackupRecord<T>>): set<nat> {
    set r | r in v :: r.id
  }

  lemma {:induction false} WithoutTwice<T>(rs: seq<BackupRecord<T>>, a: set<nat>, b: set<nat>)
    ensures Without(Without(rs, a), b) == Without(rs, a + b)
  {
    if rs == [] {
    } else {
      var older := rs[..|rs| - 1];
      WithoutTwice(older, a, b);
      var kept := Without(older, a);
      assert (kept + [rs[|rs| - 1]])[..|kept|] == kept;
    }
  }

  lemma {:induction false} WithoutNone<T>(rs: seq<BackupRecord<T>>)
    ensures Without(rs, {}) == rs
  {
    if rs == [] {
    } else {
      WithoutNone(rs[..|rs| - 1]);
    }
  }

  lemma {:induction false} VersionsMembers<T>(rs: seq<BackupRecord<T>>, slot: nat, source: BackupSource)
    ensures forall r :: r in Versions(rs, slot, source) ==> r in rs
  {
    if rs == [] {
    } else {
      VersionsMembers(rs[..|rs| - 1], slot, source);
    }
  }

  /** Versions beyond the newest `budget`. */
  function Stale<T>(v: seq<T>, budget: nat): seq<T> {
    if |v| <= budget then [] else v[..|v| - budget]
  }

  lemma {:induction false} WithoutFresh<T>(rs: seq<BackupRecord<T>>, ids: set<nat>, id: nat)
    requires forall r :: r in rs ==> r.id != id
    ensures Without(rs, ids + {id}) == Without(rs, ids)
  {
    if rs == [] {
    } else {
      assert rs[|rs| - 1] in rs;
      assert forall r :: r in rs[..|rs| - 1] ==> r in rs;
      WithoutFresh(rs[..|rs| - 1], ids, id);
    }
  }

  lemma StaleSnoc<T>(v: seq<BackupRecord<T>>, x: BackupRecord<T>, n: nat)
    ensures n > 0 ==> Stale(v + [x], n) == Stale(v, n - 1)
    ensures Stale(v, 0) == v
    ensures Ids(v + [x]) == Ids(v) + {x.id}
  {
  }

  lemma OlderIds<T>(rs: seq<BackupRecord<T>>, now: nat)
    requires Chronological(rs, now) && rs != []
    ensures var last, older := rs[|rs| - 1], rs[..|rs| - 1];
            Chronological(older, last.id) && forall r :: r in older ==> r.id < last.id
  {
  }

  lemma WithoutLast<T>(rs: seq<BackupRecord<T>>, ids: set<nat>)
    requires rs != []
    ensures var last, older := rs[|rs| - 1], rs[..|rs| - 1];
            Without(rs, ids) == if last.id in ids then Without(older, ids) else Without(older, ids) + [last]
  {
  }

  /** Deleting the stale versions one by one is what retention means. */
  lemma {:induction false} DeletingStale<T>(rs: seq<BackupRecord<T>>, slot: nat, source: BackupSource, budget: nat, now: nat)
    requires Chronological(rs, now)
    ensures Without(rs, Ids(Stale(Versions(rs, slot, source), budget))) == Keep(rs, slot, source, budget)
  {
    if rs == [] {
    } else {
      var last, older := rs[|rs| - 1], rs[..|rs| - 1];
      var v := Versions(older, slot, source);
      OlderIds(rs, now);
      VersionsMembers(older, slot, source);
      KeepLast(rs, slot, source, budget);
      VersionsSnoc(older, last, slot, source);
      assert rs == older + [last];
      var stale := Ids(Stale(Versions(rs, slot, source), budget));
      WithoutLast(rs, stale);
      hide Stale, Ids, Chronological, Matches, Keep, Without, Versions;
      StaleSnoc(v, last, budget);
      if !Matches(last, slot, source) {
        DeletingStale(older, slot, source, budget, last.id);
        StaleIds(v, budget, last.id);
      } else if budget > 0 {
        DeletingStale(older, slot, source, budget - 1, last.id);
        StaleIds(v, budget - 1, last.id);
      } else {
        DeletingStale(older, slot, source, 0, last.id);
        StaleSnoc(v + [last], last, 0);
        WithoutFresh(older, Ids(v), last.id);
      }
    }
  }

  lemma StaleIds<T>(v: seq<BackupRecord<T>>, n: nat, id: nat)
    requires forall r :: r in v ==> r.id < id
    ensures id !in Ids(Stale(v, n))
  {
  }

  class BackupManager<T(==)> {
    var records: seq<BackupRecord<T>>
    var now: nat

    ghost predicate Valid()
      reads this
    {
      Chronological(records, now)
    }

    constructor ()
      ensures Valid() && records == [] && now == 0
    {
      records := [];
      now := 0;
    }

    /** The newest record comes first. */
    method List() returns (listed: seq<BackupRecord<T>>)
      ensures listed == Reversed(records)
    {
      listed := [];
      for i := 0 to |records|
        invariant listed == Reversed(records[..i])
      {
        assert records[..i + 1][..i] == records[..i];
        listed := [records[i]] + listed;
      }
      assert records[..|records|] == records;
    }

    method Delete(id: nat)
      modifies this`records
      ensures records == Without(old(records), {id})
    {
      var kept: seq<BackupRecord<T>> := [];
      for i := 0 to |records|
        invariant records == old(records)
        invariant kept == Without(records[..i], {id})
      {
        assert records[..i + 1][..i] == records[..i];
        if records[i].id != id {
          kept := kept + [records[i]];
        }
      }
      assert records[..|records|] == records;
      records := kept;
    }

    /** The versions of one slot and source, newest first. */
    method Matching(slot: nat, source: BackupSource) returns (matching: seq<BackupRecord<T>>)
      ensures matching == Reversed(Versions(records, slot, source))
    {
      hide Reversed, Versions;
      var listed := List();
      ghost var was := records;
      matching := [];
      VersionsOfNone<T>(slot, source);
      assert was[|was|..] == [];
      for i := 0 to |listed|
        invariant matching == Reversed(Versions(was[|was| - i..], slot, source))
      {
        ghost var r, newer := was[|was| - i - 1], was[|was| - i..];
        VersionsCons(r, newer, slot, source);
        assert was[|was| - i - 1..] == [r] + newer;
        ReversedCons(r, Versions(newer, slot, source));
        if Matches(listed[i], slot, source) {
          matching := matching + [listed[i]];
        }
      }
      assert was[0..] == was;
    }

    method DeleteAll(stale: seq<BackupRecord<T>>)
      modifies this`records
      ensures records == Without(old(records), Ids(stale))
    {
      hide Without;
      WithoutNone(records);
      assert stale[..0] == [] && Ids<T>([]) == {};
      for i := 0 to |stale|
        invariant records == Without(old(records), Ids(stale[..i]))
      {
        WithoutTwice(old(records), Ids(stale[..i]), {stale[i].id});
        assert stale[..i + 1] == stale[..i] + [stale[i]];
        StaleSnoc(stale[..i], stale[i], 0);
        Delete(stale[i].id);
      }
      assert stale[..|stale|] == stale;
    }

    method ApplyRetention(slot: nat, source: BackupSource)
      requires Valid()
      modifies this`records
      ensures Valid() && records == Keep(old(records), slot, source, RETAIN_PER_SLOT_AND_SOURCE)
    {
      hide Versions, Keep, Without;
      var matching := Matching(slot, source);
      ghost var versions := Versions(records, slot, source);
      DeletingStale(records, slot, source, RETAIN_PER_SLOT_AND_SOURCE, now);
      KeepChronological(records, slot, source, RETAIN_PER_SLOT_AND_SOURCE, now);
      if |matching| > RETAIN_PER_SLOT_AND_SOURCE {
        var stale := matching[RETAIN_PER_SLOT_AND_SOURCE..];
        SkippedIds(versions, RETAIN_PER_SLOT_AND_SOURCE);
        DeleteAll(stale);
      } else {
        WithoutNone(records);
        assert Ids(Stale(versions, RETAIN_PER_SLOT_AND_SOURCE)) == {};
      }
    }

    method Store(data: T, slot: nat, source: BackupSource) returns (record: BackupRecord<T>)
      requires Valid()
      modifies this
      ensures Valid() && now == old(now) + 1
      ensures record == BackupRecord(old(now), slot, source, data)
      ensures records == old(records) + [record]
    {
      record := BackupRecord(now, slot, source, data);
      AddChronological(records, record);
      records := records + [record];
      now := now + 1;
    }

    /** Stores one version and then applies retention. */
    method BackupBytes(data: T, slot: nat, source: BackupSource) returns (record: BackupRecord<T>)
      requires Valid()
      modifies this
      ensures Valid() && now == old(now) + 1
      ensures record == BackupRecord(old(now), slot, source, data)
      ensures records == Add(old(records), record)
    {
      record := Store(data, slot, source);
      ApplyRetention(slot, source);
    }
  }

  lemma VersionsOfNone<T>(slot: nat, source: BackupSource)
    ensures Reversed<BackupRecord<T>>(Versions([], slot, source)) == []
  {
  }

  lemma {:induction false} SkippedReversed<T>(v: seq<T>, n: nat)
    requires n <= |v|
    ensures Reversed(v)[n..] == Reversed(v[..|v| - n])
  {
    if n == 0 {
      assert v[..|v|] == v;
    } else {
      var older := v[..|v| - 1];
      SkippedReversed(older, n - 1);
      assert Reversed(v)[n..] == Reversed(older)[n - 1..];
      assert older[..|older| - (n - 1)] == v[..|v| - n];
    }
  }

  lemma {:induction false} ReversedIds<T>(v: seq<BackupRecord<T>>)
    ensures Ids(Reversed(v)) == Ids(v)
  {
    if v == [] {
    } else {
      var older, last := v[..|v| - 1], v[|v| - 1];
      ReversedIds(older);
      StaleSnoc(older, last, 0);
      assert v == older + [last];
      ConsIds(last, Reversed(older));
    }
  }

  lemma ConsIds<T>(x: BackupRecord<T>, v: seq<BackupRecord<T>>)
    ensures Ids([x] + v) == {x.id} + Ids(v)
  {
  }

  /** Skipping the newest n of the newest-first list leaves the identifiers of the stale versions. */
  lemma SkippedIds<T>(v: seq<BackupRecord<T>>, n: nat)
    requires n < |v|
    ensures Ids(Reversed(v)[n..]) == Ids(Stale(v, n))
  {
    hide Reversed, Ids;
    SkippedReversed(v, n);
    ReversedIds(v[..|v| - n]);
  }

  lemma VersionsCons<T>(r: BackupRecord<T>, rs: seq<BackupRecord<T>>, slot: nat, source: BackupSource)
    ensures Versions([r] + rs, slot, source)
         == if Matches(r, slot, source) then [r] + Versions(rs, slot, source) else Versions(rs, slot, source)
  {
    if rs == [] {
    } else {
      var older := rs[..|rs| - 1];
      assert ([r] + rs)[..|rs|] == [r] + older;
      VersionsCons(r, older, slot, source);
    }
  }

  lemma ReversedCons<T>(x: T, s: seq<T>)
    ensures Reversed([x] + s) == Reversed(s) + [x]
  {
  }
}
