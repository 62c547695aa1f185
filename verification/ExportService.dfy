/**
 * The export service over one table and one object store, each operation uninterrupted, except
 * that `GenerateExportFile` lets others change the table while it writes its file.
 */
module ExportService {
  import opened Wrappers
  import opened Csv
  import opened Paging
  import opened ObjectStore
  import opened ExportArtifact
  import opened ExportProtocol

  const EXPORTS_PREFIX := "exports"

  datatype ServiceError =
    | NoSuchExport | NotReady | ExportFailed | ExportExpired | StorageFailure | FileTooLarge | TooManyExportRows

  // ---------- what the operations do to the table and the store ----------

  ghost predicate KeysDistinct(rows: map<string, ExportRow>) {
    forall i, j :: i in rows && j in rows && i != j && rows[i].storageKey.Some? ==> rows[i].storageKey != rows[j].storageKey
  }

  /** The sweep forgets the file of an expired row if it could delete it, and fails stale rows. */
  function CleanedRow(cfg: Config, row: ExportRow, objects: Objects, now: int): ExportRow {
    if IsSwept(row, now) && row.storageKey.value in objects then Unlinked(row, now)
    else if IsStale(cfg, row, now) then row.(status := Failed, updatedAt := now)
    else row
  }

  function KeysOf(expired: set<Expired>): set<string> { set e | e in expired :: e.key }

  function StoredAmong(expired: set<Expired>, objects: Objects): set<Expired> { set e | e in expired && e.key in objects }

  function StaleIds(cfg: Config, rows: map<string, ExportRow>, now: int): set<string> {
    set id | id in rows && IsStale(cfg, rows[id], now)
  }

  /** Stored exports no row references and last written before the grace period. */
  function OrphanKeys(cfg: Config, rows: map<string, ExportRow>, objects: Objects, now: int): set<string> {
    set k | k in KeysUnder(objects, EXPORTS_PREFIX) && !IsReferenced(rows, k) && objects[k].modifiedAt <= now - cfg.graceMs
  }

  // ---------- the sweep, one row at a time ----------

  /** The table after the sweep has gone through the rows in `done`. */
  function SweptRows(rows: map<string, ExportRow>, objects: Objects, done: set<Expired>, now: int): map<string, ExportRow> {
    map id | id in rows :: SweptRow(id, rows[id], objects, done, now)
  }

  function SweptRow(id: string, row: ExportRow, objects: Objects, done: set<Expired>, now: int): ExportRow {
    if IsSwept(row, now) && Expired(id, row.storageKey.value) in done && row.storageKey.value in objects
    then Unlinked(row, now) else row
  }

  predicate IsNextExpired(rows: map<string, ExportRow>, done: set<Expired>, e: Expired, now: int) {
    e.exportId in rows && IsSwept(rows[e.exportId], now) && rows[e.exportId].storageKey == Some(e.key) && e !in done
    && done <= ExpiredRows(rows, now)
  }

  /** No other row of the sweep has the same file, so whether it is stored does not depend on the order. */
  lemma FileStillThere(rows: map<string, ExportRow>, objects: Objects, done: set<Expired>, e: Expired, now: int)
    requires KeysDistinct(rows) && IsNextExpired(rows, done, e, now)
    ensures e.key !in KeysOf(done)
  {
    forall d | d in done ensures d.key != e.key {
      assert d in ExpiredRows(rows, now);
    }
  }

  lemma ClearsOneRow(rows: map<string, ExportRow>, objects: Objects, done: set<Expired>, e: Expired, now: int)
    requires IsNextExpired(rows, done, e, now) && e.key in objects
    ensures var swept := SweptRows(rows, objects, done, now);
      && KeyCleared(swept, e, now) == SweptRows(rows, objects, done + {e}, now) && e.exportId in swept
      && swept[e.exportId].storageKey == Some(e.key) && swept[e.exportId].status == Ready
  {
    hide ExpiredRows;
    var swept, next := SweptRows(rows, objects, done, now), SweptRows(rows, objects, done + {e}, now);
    var cleared := KeyCleared(swept, e, now);
    assert swept[e.exportId] == rows[e.exportId];
    forall id | id in rows ensures cleared[id] == next[id] {
      assert Expired(id, rows[id].storageKey.GetOr("")) in done + {e} <==>
        Expired(id, rows[id].storageKey.GetOr("")) in done || id == e.exportId;
    }
  }

  lemma SkipsOneRow(rows: map<string, ExportRow>, objects: Objects, done: set<Expired>, e: Expired, now: int)
    requires IsNextExpired(rows, done, e, now) && e.key !in objects
    ensures SweptRows(rows, objects, done + {e}, now) == SweptRows(rows, objects, done, now)
  {
    hide ExpiredRows, IsSwept;
  }

  lemma CountsOneRow(objects: Objects, done: set<Expired>, e: Expired)
    requires e !in done
    ensures |StoredAmong(done + {e}, objects)| == |StoredAmong(done, objects)| + if e.key in objects then 1 else 0
  {
    var before, after := StoredAmong(done, objects), StoredAmong(done + {e}, objects);
    if e.key in objects { assert after == before + {e}; } else { assert after == before; }
  }

  lemma SweepThenStale(cfg: Config, rows: map<string, ExportRow>, objects: Objects, now: int)
    ensures var swept := SweptRows(rows, objects, ExpiredRows(rows, now), now);
      && MarkedStale(cfg, swept, now) == (map id | id in rows :: CleanedRow(cfg, rows[id], objects, now))
      && StaleIds(cfg, swept, now) == StaleIds(cfg, rows, now)
  {
    var swept := SweptRows(rows, objects, ExpiredRows(rows, now), now);
    forall id | id in rows
      ensures swept[id] == if IsSwept(rows[id], now) && rows[id].storageKey.value in objects then Unlinked(rows[id], now) else rows[id]
      ensures IsStale(cfg, swept[id], now) == IsStale(cfg, rows[id], now)
    {
      if IsSwept(rows[id], now) { assert Expired(id, rows[id].storageKey.GetOr("")) in ExpiredRows(rows, now); }
    }
    hide SweptRows, ExpiredRows, IsSwept;
  }

  // ---------- the cleanup on the columns ----------

  /** A ready row with this file whose expiry has passed. */
  predicate HasPassed(row: ExportRow, key: string, now: int) {
    row.status == Ready && row.storageKey == Some(key) && row.expiresAt != None && row.expiresAt.value < now
  }

  predicate LosesFile(row: ExportRow, objects: Objects, now: int) {
    row.storageKey != None && HasPassed(row, row.storageKey.value, now) && row.storageKey.value in objects
  }

  /**
   * A preparing row fails exactly if it was last updated more than the bound ago, a ready row
   * forgets its file exactly if it has passed and could be deleted, and nothing else changes.
   */
  predicate CleanedOnColumns(cfg: Config, before: ExportRow, objects: Objects, now: int, after: ExportRow) {
    match before.status
    case Preparing => after == if before.updatedAt + cfg.staleMs < now then before.(status := Failed, updatedAt := now) else before
    case Ready => after == if LosesFile(before, objects, now) then before.(storageKey := None, updatedAt := now) else before
    case Failed => after == before
  }

  lemma CleanedMeans(cfg: Config, rows: map<string, ExportRow>, objects: Objects, now: int)
    requires KeysDistinct(rows)
    ensures forall id <- rows :: CleanedOnColumns(cfg, rows[id], objects, now, CleanedRow(cfg, rows[id], objects, now))
    ensures forall k :: k in KeysOf(ExpiredRows(rows, now)) <==> exists id <- rows :: HasPassed(rows[id], k, now)
    ensures |StoredAmong(ExpiredRows(rows, now), objects)| == |set id | id in rows && LosesFile(rows[id], objects, now)|
    ensures StaleIds(cfg, rows, now) == set id | id in rows && rows[id].status == Preparing && rows[id].updatedAt + cfg.staleMs < now
  {
    forall k ensures k in KeysOf(ExpiredRows(rows, now)) <==> exists id <- rows :: HasPassed(rows[id], k, now) {
      ExpiredKeys(rows, now, k);
    }
    assert StaleIds(cfg, rows, now) == set id | id in rows && rows[id].status == Preparing && rows[id].updatedAt + cfg.staleMs < now;
    hide KeysOf, ExpiredRows, HasPassed, StaleIds, LosesFile, StoredAmong;
    StoredCount(rows, objects, now);
  }

  lemma StoredCount(rows: map<string, ExportRow>, objects: Objects, now: int)
    ensures |StoredAmong(ExpiredRows(rows, now), objects)| == |set id | id in rows && LosesFile(rows[id], objects, now)|
  {
    hide KeysOf, ExpiredRows, StoredAmong, LosesFile;
    var losing := set id | id in rows && LosesFile(rows[id], objects, now);
    var stored := StoredAmong(ExpiredRows(rows, now), objects);
    forall id ensures id in losing <==> exists e <- stored :: e.exportId == id {
      StoredIds(rows, objects, now, id);
    }
    assert OnePerId(stored) by { StoredIds(rows, objects, now, ""); }
    CountByIds(stored, losing);
  }

  lemma ExpiredKeys(rows: map<string, ExportRow>, now: int, k: string)
    ensures k in KeysOf(ExpiredRows(rows, now)) <==> exists id <- rows :: HasPassed(rows[id], k, now)
  {
    if k in KeysOf(ExpiredRows(rows, now)) {
      var e :| e in ExpiredRows(rows, now) && e.key == k;
      assert HasPassed(rows[e.exportId], k, now);
    }
    if id :| id in rows && HasPassed(rows[id], k, now) {
      assert Expired(id, k) in ExpiredRows(rows, now);
    }
  }

  lemma StoredIds(rows: map<string, ExportRow>, objects: Objects, now: int, id: string)
    ensures id in rows && LosesFile(rows[id], objects, now)
       <==> exists e <- StoredAmong(ExpiredRows(rows, now), objects) :: e.exportId == id
    ensures forall e <- StoredAmong(ExpiredRows(rows, now), objects) :: e.exportId in rows && Some(e.key) == rows[e.exportId].storageKey
  {
    if id in rows && LosesFile(rows[id], objects, now) {
      assert Expired(id, rows[id].storageKey.value) in StoredAmong(ExpiredRows(rows, now), objects);
    }
  }

  ghost predicate OnePerId(es: set<Expired>) { forall d, e :: d in es && e in es && d.exportId == e.exportId ==> d == e }

  lemma {:induction false} CountByIds(es: set<Expired>, ids: set<string>)
    requires OnePerId(es) && forall id :: id in ids <==> exists e <- es :: e.exportId == id
    ensures |es| == |ids|
    decreases |es|
  {
    if es == {} {
      assert ids == {};
    } else {
      var e :| e in es;
      var fewer := es - {e};
      forall id ensures id in ids - {e.exportId} <==> exists x <- fewer :: x.exportId == id {
        if id in ids - {e.exportId} {
          var x :| x in es && x.exportId == id;
          assert x in fewer;
        }
      }
      assert e.exportId in ids;
      CountByIds(fewer, ids - {e.exportId});
    }
  }

  class ExportService {
    const cfg: Config
    const storage: PrivateStorage
    var rows: map<string, ExportRow>
    var owners: map<string, string>

    constructor (cfg: Config, storage: PrivateStorage)
      ensures this.cfg == cfg && this.storage == storage && rows == map[] && owners == map[]
    {
      this.cfg, this.storage, rows, owners := cfg, storage, map[], map[];
    }

    predicate IsOwned(userId: string, id: string)
      reads this
    {
      id in rows && id in owners && owners[id] == userId
    }

    /** Removes the row, then its file if it had one; other rows and files stay. */
    method DeleteExport(userId: string, id: string) returns (result: Result<(), ServiceError>)
      modifies this`rows, storage
      ensures result == if old(IsOwned(userId, id)) then Ok(()) else Err(NoSuchExport)
      ensures result.Err? ==> rows == old(rows) && storage.objects == old(storage.objects)
      ensures result.Ok? ==> rows == old(rows) - {id}
      ensures result.Ok? ==>
        storage.objects == old(storage.objects) - (if old(rows)[id].storageKey.Some? then {old(rows)[id].storageKey.value} else {})
    {
      if !IsOwned(userId, id) { return Err(NoSuchExport); }
      var row := rows[id];
      rows := rows - {id};
      if row.storageKey.Some? {
        var _ := storage.Delete(row.storageKey.value);
      }
      return Ok(());
    }

    /** Bytes come back exactly for a ready, unexpired row of the user whose file is stored. */
    method DownloadExport(userId: string, id: string, now: int) returns (result: Result<seq<Byte>, ServiceError>)
      ensures result == Err(NoSuchExport) <==> !IsOwned(userId, id)
      ensures result == Err(NotReady) <==> IsOwned(userId, id) && rows[id].status == Preparing
      ensures result == Err(ExportFailed) <==> IsOwned(userId, id) && rows[id].status == Failed
      ensures result == Err(ExportExpired) <==> IsOwned(userId, id) && IsExpired(rows[id], now)
      ensures result.Ok? <==>
        IsOwned(userId, id) && rows[id].status == Ready && !IsExpired(rows[id], now)
        && rows[id].storageKey.Some? && rows[id].storageKey.value in storage.objects
      ensures result.Ok? ==> result.value == storage.objects[rows[id].storageKey.value].bytes
      ensures result == Err(ExportExpired) <==>
        id in rows && id in owners && owners[id] == userId && rows[id].status == Ready
        && rows[id].expiresAt != None && rows[id].expiresAt.value <= now
    {
      if !IsOwned(userId, id) { return Err(NoSuchExport); }
      var row := rows[id];
      if row.status == Preparing { return Err(NotReady); }
      if row.status == Failed { return Err(ExportFailed); }
      if IsExpired(row, now) { return Err(ExportExpired); }
      if row.storageKey.None? { return Err(StorageFailure); }
      var fetched := storage.Get(row.storageKey.value);
      if fetched.Err? { return Err(StorageFailure); }
      return Ok(fetched.value);
    }

    /** The guarded finalize: it takes effect only on a row that is still preparing. */
    method Finalize(id: string, artifact: Artifact, now: int) returns (finalized: Option<ExportRow>)
      modifies this`rows
      ensures finalized.Some? <==> id in old(rows) && old(rows)[id].status == Preparing
      ensures finalized.None? ==> rows == old(rows)
      ensures finalized.Some? ==>
        rows == old(rows)[id := finalized.value] && finalized.value == old(rows)[id].(
          status := Ready, storageKey := Some(artifact.storageKey), sizeBytes := Some(artifact.sizeBytes),
          checksum := Some(artifact.checksum), expiresAt := Some(now + cfg.retentionMs), updatedAt := now)
      ensures finalized.Some? ==> forall t :: !IsExpired(finalized.value, t) <==> t < now + cfg.retentionMs
      ensures forall other :: other in old(rows) && other != id ==> other in rows && rows[other] == old(rows)[other]
    {
      if id !in rows || rows[id].status != Preparing { return None; }
      rows := rows[id := rows[id].(
        status := Ready, storageKey := Some(artifact.storageKey), sizeBytes := Some(artifact.sizeBytes),
        checksum := Some(artifact.checksum), expiresAt := Some(now + cfg.retentionMs), updatedAt := now)];
      return Some(rows[id]);
    }

    /** The too-large update, whatever the row's status has become. */
    method FailTooLarge(id: string, now: int)
      modifies this`rows
      ensures rows == if id in old(rows) then old(rows)[id := MarkedTooLarge(old(rows)[id], now)] else old(rows)
      ensures forall other :: other in old(rows) && other != id ==> other in rows && rows[other] == old(rows)[other]
      ensures id in old(rows) ==>
        && rows[id].status == Failed && rows[id].storageKey == old(rows)[id].storageKey
        && rows[id].sizeBytes == old(rows)[id].sizeBytes && rows[id].checksum == old(rows)[id].checksum
      ensures forall k :: IsReferenced(rows, k) <==> IsReferenced(old(rows), k)
    {
      if id in rows { rows := rows[id := MarkedTooLarge(rows[id], now)]; }
    }

    /**
     * Generates the file of `content` under a fresh key and finalizes the row. `meanwhile` is the
     * table as others leave it by the time the file is written. Only the winning attempt links its
     * row, to exactly the file written; a losing or too-large attempt leaves the store as it was.
     */
    method GenerateExportFile(
      id: string, content: Content, limits: Limits, key: string, now: int, meanwhile: map<string, ExportRow>)
      returns (result: Result<Option<ExportRow>, ServiceError>)
      requires key !in storage.objects
      modifies this`rows, storage
      ensures id !in old(rows) ==> result == Ok(None) && rows == old(rows) && storage.objects == old(storage.objects)
      ensures id in old(rows) && old(rows)[id].status != Preparing ==>
        result == Ok(Some(old(rows)[id])) && rows == old(rows) && storage.objects == old(storage.objects)
      ensures id in old(rows) && old(rows)[id].status == Preparing ==>
        Generated(cfg, old(storage.objects), storage.objects, meanwhile, rows, result, id, content, limits, key, now)
    {
      hide FileOf, RowCount, Streamed, IsExpired;
      if id !in rows { return Ok(None); }
      if rows[id].status != Preparing { return Ok(Some(rows[id])); }
      var produced := ProduceArtifact(storage, content, limits, key, now, cfg.sha256);
      rows := meanwhile;
      if produced.Err? && produced.error.TooManyRows? {
        if content.CsvContent? { RowsThenError(produced, old(storage.objects), storage.objects, content, limits, key, now, cfg.sha256); }
        return Err(TooManyExportRows);
      }
      if produced.Err? {
        FailTooLarge(id, now);
        var _ := storage.Delete(key);
        assert storage.objects == old(storage.objects) - {key} == old(storage.objects);
        return Err(FileTooLarge);
      }
      var finalized := Finalize(id, produced.value, now);
      if finalized.Some? { return Ok(finalized); }
      var _ := storage.Delete(key);
      assert storage.objects == old(storage.objects);
      return Ok(if id in rows then Some(rows[id]) else None);
    }

    /** Deletes expired files, forgets them, and fails rows that have been preparing for too long. */
    method CleanupExpiredExports(now: int) returns (expired: nat, stale: nat)
      requires KeysDistinct(rows)
      modifies this`rows, storage
      ensures rows == map id | id in old(rows) :: CleanedRow(cfg, old(rows)[id], old(storage.objects), now)
      ensures storage.objects == old(storage.objects) - KeysOf(ExpiredRows(old(rows), now))
      ensures expired == |StoredAmong(ExpiredRows(old(rows), now), old(storage.objects))|
      ensures stale == |StaleIds(cfg, old(rows), now)|
      ensures rows.Keys == old(rows).Keys && storage.objects.Keys <= old(storage.objects).Keys
      ensures forall id <- rows :: CleanedOnColumns(cfg, old(rows)[id], old(storage.objects), now, rows[id])
      ensures forall k <- old(storage.objects) ::
        && (k in storage.objects ==> storage.objects[k] == old(storage.objects)[k])
        && (k !in storage.objects <==> exists id <- old(rows) :: HasPassed(old(rows)[id], k, now))
      ensures expired == |set id | id in old(rows) && LosesFile(old(rows)[id], old(storage.objects), now)|
      ensures stale == |set id | id in old(rows) && old(rows)[id].status == Preparing && old(rows)[id].updatedAt + cfg.staleMs < now|
    {
      hide IsSwept, IsStale, SweptRows, KeyCleared, StoredAmong, KeysOf, KeysDistinct, MarkedStale, StaleIds, CleanedRow,
        CleanedOnColumns, HasPassed, LosesFile, ExpiredRows;
      ghost var before, objects := rows, storage.objects;
      var expiredRows := ExpiredRows(rows, now);
      var pending := expiredRows;
      ghost var done: set<Expired> := {};
      expired := 0;
      NothingSwept(rows, storage.objects, now);
      while pending != {}
        invariant pending <= expiredRows && done == expiredRows - pending
        invariant rows == SweptRows(before, objects, done, now)
        invariant storage.objects == objects - KeysOf(done)
        invariant expired == |StoredAmong(done, objects)|
        decreases pending
      {
        var e :| e in pending;
        pending := pending - {e};
        ghost var next := done + {e};
        assert next == expiredRows - pending;
        IsNext(before, done, e, now);
        FileStillThere(before, objects, done, e, now);
        CountsOneRow(objects, done, e);
        OneMoreKey(objects, done, e);
        ghost var earlier := done;
        done := next;
        var deleted := storage.Delete(e.key);
        if deleted.Err? {
          SkipsOneRow(before, objects, earlier, e, now);
          continue;
        }
        ClearsOneRow(before, objects, earlier, e, now);
        var updated := e.exportId in rows && rows[e.exportId].storageKey == Some(e.key) && rows[e.exportId].status == Ready;
        rows := KeyCleared(rows, e, now);
        if updated { expired := expired + 1; }
      }
      assert done == expiredRows;
      SweepThenStale(cfg, before, objects, now);
      stale := |StaleIds(cfg, rows, now)|;
      rows := MarkedStale(cfg, rows, now);
      CleanedMeans(cfg, before, objects, now);
    }

    /**
     * Deletes every stored export that no row references and that was last written before the
     * grace period, and nothing else.
     */
    method ReconcileOrphanExports(now: int) returns (removed: nat, scanned: nat)
      modifies storage
      ensures storage.objects == old(storage.objects) - OrphanKeys(cfg, rows, old(storage.objects), now)
      ensures removed == |OrphanKeys(cfg, rows, old(storage.objects), now)|
      ensures scanned == |KeysUnder(old(storage.objects), EXPORTS_PREFIX)|
      ensures storage.objects == WithoutLeftOvers(cfg, rows, old(storage.objects), now)
    {
      hide IsReferenced, OrphanKeys, IsOrphan, OrphansUpTo, WithoutLeftOvers;
      ghost var before := storage.objects;
      var refs := storage.List(EXPORTS_PREFIX);
      RefsAreKeys(refs, before);
      NoOrphansYet(cfg, rows, refs, now);
      removed, scanned := 0, |refs|;
      var i := 0;
      while i < |refs|
        invariant 0 <= i <= |refs|
        invariant storage.objects == before - OrphansUpTo(cfg, rows, refs, i, now)
        invariant removed == |OrphansUpTo(cfg, rows, refs, i, now)|
      {
        var ref := refs[i];
        assert ref in refs;
        OneMoreRef(cfg, rows, refs, i, now);
        i := i + 1;
        if IsReferenced(rows, ref.key) || ref.modifiedAt > now - cfg.graceMs {
          continue;
        }
        var deleted := storage.Delete(ref.key);
        if deleted.Ok? { removed := removed + 1; }
      }
      Reconciled(cfg, rows, refs, before, storage.objects, now);
    }
  }

  /** An export that no row has as its file and that was last written at least the grace period ago. */
  predicate IsLeftOver(cfg: Config, rows: map<string, ExportRow>, key: string, stored: StoredObject, now: int) {
    && "exports/" <= key && stored.modifiedAt + cfg.graceMs <= now
    && (forall id <- rows :: rows[id].storageKey != Some(key))
  }

  function WithoutLeftOvers(cfg: Config, rows: map<string, ExportRow>, objects: Objects, now: int): Objects {
    map k | k in objects && !IsLeftOver(cfg, rows, k, objects[k], now) :: objects[k]
  }

  lemma OrphansOnColumns(cfg: Config, rows: map<string, ExportRow>, objects: Objects, now: int)
    ensures objects - OrphanKeys(cfg, rows, objects, now) == WithoutLeftOvers(cfg, rows, objects, now)
  {
    assert EXPORTS_PREFIX + "/" == "exports/";
    forall k | k in objects ensures k in OrphanKeys(cfg, rows, objects, now) <==> IsLeftOver(cfg, rows, k, objects[k], now) {
    }
  }

  /** What is left once every listed orphan has gone. */
  lemma Reconciled(cfg: Config, rows: map<string, ExportRow>, refs: seq<ObjectRef>, before: Objects, after: Objects, now: int)
    requires ListsExactly(refs, before, EXPORTS_PREFIX)
    requires after == before - OrphansUpTo(cfg, rows, refs, |refs|, now)
    ensures after == before - OrphanKeys(cfg, rows, before, now) == WithoutLeftOvers(cfg, rows, before, now)
    ensures OrphansUpTo(cfg, rows, refs, |refs|, now) == OrphanKeys(cfg, rows, before, now)
  {
    OrphansAreListed(cfg, rows, refs, before, now);
    OrphansOnColumns(cfg, rows, before, now);
    hide OrphansUpTo, OrphanKeys, WithoutLeftOvers;
  }

  /** What an attempt on a preparing row leaves behind, by outcome. */
  ghost predicate Generated(
    cfg: Config, before: Objects, after: Objects, meanwhile: map<string, ExportRow>, rows: map<string, ExportRow>,
    result: Result<Option<ExportRow>, ServiceError>, id: string, content: Content, limits: Limits, key: string, now: int)
  {
    var file := FileOf(content, limits);
    match result
    case Ok(row) =>
      && RowCount(content, limits) <= limits.maxRows && |file| <= limits.maxFileBytes
      && (if id in meanwhile && meanwhile[id].status == Preparing then
            && row == Some(Finalized(cfg, meanwhile[id], key, file, now)) && rows == meanwhile[id := row.value]
            && after == before[key := StoredObject(file, now)]
          else
            && row == (if id in meanwhile then Some(meanwhile[id]) else None) && rows == meanwhile && after == before)
    case Err(FileTooLarge) =>
      && |file| > limits.maxFileBytes && after == before
      && rows == if id in meanwhile then meanwhile[id := MarkedTooLarge(meanwhile[id], now)] else meanwhile
    case Err(error) =>
      && error == TooManyExportRows && RowCount(content, limits) > limits.maxRows && rows == meanwhile
      && after == if content.CsvContent? then before[key := StoredObject(FirstRowsFile(content, limits), now)] else before
  }

  /** The rows within the limit, which a CSV export over it leaves behind unreferenced. */
  function FirstRowsFile(content: Content, limits: Limits): seq<Byte>
    requires content.CsvContent?
  {
    CsvFile(content.headers, FieldsOf(Take(Delivered(content.table, limits.maxRows), limits.maxRows)))
  }

  lemma RowsThenError(
    result: Result<Artifact, ArtifactError>, before: Objects, after: Objects, content: Content, limits: Limits, key: string,
    now: int, sha256: seq<Byte> -> string)
    requires content.CsvContent? && result == Err(TooManyRows)
    requires Streamed(result, before, after, content.headers, Delivered(content.table, limits.maxRows), limits, key, now, sha256)
    ensures after == before[key := StoredObject(FirstRowsFile(content, limits), now)]
  {
    hide CsvFile, FieldsOf, OutcomeFrom, Follow;
    var rows := Delivered(content.table, limits.maxRows);
    assert rows[..0] == [] && FieldsOf([]) == [] by { NoFields(); }
    StopsAtTheFirst(content.headers, rows, limits, 0);
    assert rows[..limits.maxRows] == Take(rows, limits.maxRows);
  }

  lemma NothingSwept(rows: map<string, ExportRow>, objects: Objects, now: int)
    ensures rows == SweptRows(rows, objects, {}, now) && objects == objects - KeysOf({}) && StoredAmong({}, objects) == {}
  {
  }

  lemma IsNext(rows: map<string, ExportRow>, done: set<Expired>, e: Expired, now: int)
    requires e in ExpiredRows(rows, now) && e !in done && done <= ExpiredRows(rows, now)
    ensures IsNextExpired(rows, done, e, now)
  {
  }

  lemma OneMoreKey(objects: Objects, done: set<Expired>, e: Expired)
    ensures objects - KeysOf(done) - {e.key} == objects - KeysOf(done + {e})
  {
    assert KeysOf(done + {e}) == KeysOf(done) + {e.key};
  }

  predicate IsOrphan(cfg: Config, rows: map<string, ExportRow>, r: ObjectRef, now: int) {
    !IsReferenced(rows, r.key) && r.modifiedAt <= now - cfg.graceMs
  }

  lemma RefsAreKeys(refs: seq<ObjectRef>, objects: Objects)
    requires ListsExactly(refs, objects, EXPORTS_PREFIX) && DistinctRefs(refs)
    ensures |refs| == |KeysUnder(objects, EXPORTS_PREFIX)|
  {
    DistinctRefsCount(refs);
    var keys := set r | r in refs :: r.key;
    forall k | k in KeysUnder(objects, EXPORTS_PREFIX) ensures k in keys {
      assert ObjectRef(k, objects[k].modifiedAt) in refs;
    }
    assert keys == KeysUnder(objects, EXPORTS_PREFIX);
  }

  /** The orphans among the first `i` listed objects. */
  function OrphansUpTo(cfg: Config, rows: map<string, ExportRow>, refs: seq<ObjectRef>, i: nat, now: int): set<string>
    requires i <= |refs|
  {
    set j | 0 <= j < i && IsOrphan(cfg, rows, refs[j], now) :: refs[j].key
  }

  lemma NoOrphansYet(cfg: Config, rows: map<string, ExportRow>, refs: seq<ObjectRef>, now: int)
    ensures OrphansUpTo(cfg, rows, refs, 0, now) == {}
  {
  }

  lemma OneMoreRef(cfg: Config, rows: map<string, ExportRow>, refs: seq<ObjectRef>, i: nat, now: int)
    requires i < |refs| && DistinctRefs(refs)
    ensures refs[i].key !in OrphansUpTo(cfg, rows, refs, i, now)
    ensures IsOrphan(cfg, rows, refs[i], now) <==>
      !IsReferenced(rows, refs[i].key) && refs[i].modifiedAt <= now - cfg.graceMs
    ensures OrphansUpTo(cfg, rows, refs, i + 1, now)
         == OrphansUpTo(cfg, rows, refs, i, now) + if IsOrphan(cfg, rows, refs[i], now) then {refs[i].key} else {}
  {
    hide IsReferenced;
  }

  lemma OrphansAreListed(cfg: Config, rows: map<string, ExportRow>, refs: seq<ObjectRef>, objects: Objects, now: int)
    requires ListsExactly(refs, objects, EXPORTS_PREFIX)
    ensures OrphansUpTo(cfg, rows, refs, |refs|, now) == OrphanKeys(cfg, rows, objects, now)
  {
    hide IsReferenced;
    var listed := OrphansUpTo(cfg, rows, refs, |refs|, now);
    forall k | k in OrphanKeys(cfg, rows, objects, now) ensures k in listed {
      var r := ObjectRef(k, objects[k].modifiedAt);
      assert r in refs;
      var j :| 0 <= j < |refs| && refs[j] == r;
      assert IsOrphan(cfg, rows, refs[j], now);
    }
    forall k | k in listed ensures k in OrphanKeys(cfg, rows, objects, now) {
      var j :| 0 <= j < |refs| && IsOrphan(cfg, rows, refs[j], now) && refs[j].key == k;
      assert refs[j] in refs;
    }
  }
}
