/**
 * The export service's operations as runs of the export protocol: done without interruption, the
 * protocol's steps reach exactly the table and the store the operations specify.
 */
module ExportRefinement {
  import opened Wrappers
  import opened Csv
  import opened ObjectStore
  import opened ExportProtocol
  import opened ExportSafety
  import opened ExportService

  // ---------- reconciliation ----------

  function Times(objects: Objects, keys: set<string>): map<string, int> {
    map k | k in keys && k in objects :: objects[k].modifiedAt
  }

  lemma NoTimes(objects: Objects, refs: map<string, int>)
    ensures refs + Times(objects, {}) == refs
  {
  }

  lemma OneMoreTime(objects: Objects, unread: set<string>, refs: map<string, int>, k: string)
    requires k in unread
    ensures (if k in objects then refs[k := objects[k].modifiedAt] else refs) + Times(objects, unread - {k})
         == refs + Times(objects, unread)
  {
  }

  lemma ReadsOneTime(
    cfg: Config, s: System, t: System, p: nat, now: int, unread: set<string>, refs: map<string, int>, k: string)
    requires Leads(cfg, s, t) && p in t.reconcilers && t.reconcilers[p] == Listing(now, unread, refs) && k in unread
    ensures var seen := if k in t.objects then refs[k := t.objects[k].modifiedAt] else refs;
      Leads(cfg, s, t.(reconcilers := t.reconcilers[p := Listing(now, unread - {k}, seen)]))
  {
    hide Leads;
    LeadsNext(cfg, s, t, Reconcile(ReadTime(p, k)));
  }

  lemma {:induction false} ReadsAllTimes(cfg: Config, s: System, t: System, p: nat, now: int, unread: set<string>, refs: map<string, int>)
    requires Leads(cfg, s, t) && p in t.reconcilers && t.reconcilers[p] == Listing(now, unread, refs)
    ensures Leads(cfg, s, t.(reconcilers := t.reconcilers[p := Listing(now, {}, refs + Times(t.objects, unread))]))
    decreases unread
  {
    hide Leads, Times;
    if unread == {} {
      NoTimes(t.objects, refs);
      assert t.reconcilers[p := Listing(now, {}, refs)] == t.reconcilers;
    } else {
      var k :| k in unread;
      ReadsOneTime(cfg, s, t, p, now, unread, refs, k);
      var seen := if k in t.objects then refs[k := t.objects[k].modifiedAt] else refs;
      var next := t.(reconcilers := t.reconcilers[p := Listing(now, unread - {k}, seen)]);
      ReadsAllTimes(cfg, s, next, p, now, unread - {k}, seen);
      OneMoreTime(t.objects, unread, refs, k);
      var read := Listing(now, {}, refs + Times(t.objects, unread));
      assert next.reconcilers[p := read] == t.reconcilers[p := read];
    }
  }

  lemma {:induction false} RemovesAll(cfg: Config, s: System, t: System, p: nat, victims: set<string>)
    requires Leads(cfg, s, t) && p in t.reconcilers && t.reconcilers[p] == Purging(victims)
    ensures Leads(cfg, s, t.(objects := t.objects - victims, reconcilers := t.reconcilers[p := Purging({})]))
    decreases victims
  {
    hide Leads;
    if victims == {} {
      assert t.objects - {} == t.objects && t.reconcilers[p := Purging({})] == t.reconcilers;
    } else {
      var k :| k in victims;
      LeadsNext(cfg, s, t, Reconcile(RemoveOrphan(p, k)));
      var next := t.(objects := t.objects - {k}, reconcilers := t.reconcilers[p := Purging(victims - {k})]);
      RemovesAll(cfg, s, next, p, victims - {k});
      assert t.objects - {k} - (victims - {k}) == t.objects - victims;
      assert next.reconcilers[p := Purging({})] == t.reconcilers[p := Purging({})];
    }
  }

  lemma OrphansOfAllObjects(cfg: Config, rows: map<string, ExportRow>, objects: Objects, now: int)
    requires forall k :: k in objects ==> HasPrefix(k, EXPORTS_PREFIX)
    ensures Orphans(cfg, rows, Times(objects, objects.Keys), now) == OrphanKeys(cfg, rows, objects, now)
  {
    hide IsReferenced, HasPrefix;
  }

  /** An uninterrupted reconciliation of the protocol deletes what `ReconcileOrphanExports` deletes. */
  lemma ReconciliationIsARun(cfg: Config, s: System, p: nat, now: int)
    requires p !in s.reconcilers && now <= s.clock && forall k :: k in s.objects ==> HasPrefix(k, EXPORTS_PREFIX)
    ensures Leads(cfg, s, s.(objects := s.objects - OrphanKeys(cfg, s.rows, s.objects, now)))
  {
    hide Leads, Orphans, OrphanKeys, HasPrefix, Times;
    LeadsNowhere(cfg, s);
    LeadsNext(cfg, s, s, Reconcile(StartReconcile(p, now)));
    var s1 := s.(reconcilers := s.reconcilers[p := Called(now)]);
    LeadsNext(cfg, s, s1, Reconcile(ListKeys(p)));
    var s2 := s.(reconcilers := s1.reconcilers[p := Listing(now, s.objects.Keys, map[])]);
    ReadsAllTimes(cfg, s, s2, p, now, s.objects.Keys, map[]);
    var refs := Times(s.objects, s.objects.Keys);
    assert map[] + refs == refs;
    var s3 := s.(reconcilers := s2.reconcilers[p := Listing(now, {}, refs)]);
    LeadsNext(cfg, s, s3, Reconcile(CompareWithTable(p)));
    OrphansOfAllObjects(cfg, s.rows, s.objects, now);
    var victims := OrphanKeys(cfg, s.rows, s.objects, now);
    var s4 := s.(reconcilers := s3.reconcilers[p := Purging(victims)]);
    RemovesAll(cfg, s, s4, p, victims);
    var s5 := s.(objects := s.objects - victims, reconcilers := s4.reconcilers[p := Purging({})]);
    LeadsNext(cfg, s, s5, Reconcile(StopReconcile(p)));
    assert s5.reconcilers - {p} == s.reconcilers;
  }

  // ---------- the expiry sweep ----------

  /** The sweep has gone through `done` of the rows it selected from `s`. */
  function MidSweep(s: System, p: nat, now: int, done: set<Expired>): System {
    s.(rows := SweptRows(s.rows, s.objects, done, now), objects := s.objects - KeysOf(done),
       sweepers := s.sweepers[p := Sweeper(now, ExpiredRows(s.rows, now) - done, None)])
  }

  lemma SweepsOne(cfg: Config, s: System, p: nat, now: int, done: set<Expired>, e: Expired)
    requires Leads(cfg, s, MidSweep(s, p, now, done)) && KeysDistinct(s.rows)
    requires done <= ExpiredRows(s.rows, now) && e in ExpiredRows(s.rows, now) && e !in done
    ensures Leads(cfg, s, MidSweep(s, p, now, done + {e}))
  {
    hide Leads, KeysDistinct, ExpiredRows, SweptRows, KeysOf, KeyCleared, IsNextExpired;
    var t, u := MidSweep(s, p, now, done), MidSweep(s, p, now, done + {e});
    IsNext(s.rows, done, e, now);
    FileStillThere(s.rows, s.objects, done, e, now);
    OneMoreKey(s.objects, done, e);
    var rest := ExpiredRows(s.rows, now) - done - {e};
    assert rest == ExpiredRows(s.rows, now) - (done + {e});
    if e.key in s.objects {
      ClearsOneRow(s.rows, s.objects, done, e, now);
      LeadsNext(cfg, s, t, Sweep(SweepObject(p, e)));
      var t1 := t.(objects := t.objects - {e.key}, sweepers := t.sweepers[p := Sweeper(now, rest, Some(e))]);
      LeadsNext(cfg, s, t1, Sweep(ClearKey(p)));
      assert t1.sweepers[p := Sweeper(now, rest, None)] == u.sweepers;
    } else {
      SkipsOneRow(s.rows, s.objects, done, e, now);
      assert t.objects - {e.key} == t.objects;
      LeadsNext(cfg, s, t, Sweep(SkipExpired(p, e)));
      assert t.sweepers[p := Sweeper(now, rest, None)] == u.sweepers;
    }
  }

  lemma {:induction false} SweepsAll(cfg: Config, s: System, p: nat, now: int, done: set<Expired>)
    requires Leads(cfg, s, MidSweep(s, p, now, done)) && KeysDistinct(s.rows) && done <= ExpiredRows(s.rows, now)
    ensures Leads(cfg, s, MidSweep(s, p, now, ExpiredRows(s.rows, now)))
    decreases ExpiredRows(s.rows, now) - done
  {
    hide Leads, KeysDistinct, ExpiredRows, MidSweep;
    var pending := ExpiredRows(s.rows, now) - done;
    if pending == {} {
      assert forall e :: e in ExpiredRows(s.rows, now) && e !in done ==> e in pending;
      assert done == ExpiredRows(s.rows, now);
    } else {
      var e :| e in pending;
      SweepsOne(cfg, s, p, now, done, e);
      assert ExpiredRows(s.rows, now) - (done + {e}) < pending by { assert e !in ExpiredRows(s.rows, now) - (done + {e}); }
      SweepsAll(cfg, s, p, now, done + {e});
    }
  }

  /** In every reachable state no two rows have the same file, as the cleanup needs it. */
  lemma ReachableKeysAreDistinct(cfg: Config, s: System)
    requires IsReachable(cfg, s)
    ensures KeysDistinct(s.rows)
  {
    hide IsReachable;
    forall i, j | i in s.rows && j in s.rows && i != j && s.rows[i].storageKey.Some?
      ensures s.rows[i].storageKey != s.rows[j].storageKey
    {
      NoTwoRowsShareAKey(cfg, s, i, j);
    }
  }

  /** An uninterrupted sweep of the protocol, then its stale marking, does what `CleanupExpiredExports` does. */
  lemma CleanupIsARun(cfg: Config, s: System, p: nat, now: int)
    requires p !in s.sweepers && now <= s.clock && KeysDistinct(s.rows)
    ensures Leads(cfg, s, s.(
      rows := map id | id in s.rows :: CleanedRow(cfg, s.rows[id], s.objects, now),
      objects := s.objects - KeysOf(ExpiredRows(s.rows, now))))
  {
    hide Leads, KeysDistinct, ExpiredRows, SweptRows, KeysOf, MarkedStale, CleanedRow;
    LeadsNowhere(cfg, s);
    LeadsNext(cfg, s, s, Sweep(StartSweep(p, now)));
    NothingSwept(s.rows, s.objects, now);
    var all := ExpiredRows(s.rows, now);
    assert all - {} == all;
    assert MidSweep(s, p, now, {}) == s.(sweepers := s.sweepers[p := Sweeper(now, all, None)]);
    SweepsAll(cfg, s, p, now, {});
    var t := MidSweep(s, p, now, all);
    LeadsNext(cfg, s, t, Sweep(StopSweep(p)));
    var u := t.(sweepers := t.sweepers - {p});
    assert u.sweepers == s.sweepers;
    LeadsNext(cfg, s, u, Sweep(MarkStale(now)));
    SweepThenStale(cfg, s.rows, s.objects, now);
  }

  // ---------- a deletion ----------

  /** An uninterrupted deletion removes the row and its file, as `DeleteExport` does. */
  lemma DeletionIsARun(cfg: Config, s: System, p: nat, id: string)
    requires p !in s.deleters && id in s.rows
    ensures Leads(cfg, s, s.(
      rows := s.rows - {id},
      objects := s.objects - if s.rows[id].storageKey.Some? then {s.rows[id].storageKey.value} else {}))
  {
    hide Leads;
    LeadsNowhere(cfg, s);
    LeadsNext(cfg, s, s, User(ReadForDelete(p, id)));
    var row := s.rows[id];
    var t := s.(deleters := s.deleters[p := RowRead(id, row)]);
    LeadsNext(cfg, s, t, User(DeleteRow(p)));
    if row.storageKey.Some? {
      var u := s.(rows := s.rows - {id}, deleters := s.deleters[p := ObjectLeft(row.storageKey.value)]);
      assert t.deleters[p := ObjectLeft(row.storageKey.value)] == u.deleters;
      LeadsNext(cfg, s, u, User(DeleteObject(p)));
      assert u.deleters - {p} == s.deleters;
    } else {
      assert t.deleters - {p} == s.deleters && s.objects - {} == s.objects;
    }
  }

  // ---------- a generation attempt ----------

  function Writing(s: System, p: nat, id: string, key: string, now: int, phase: Phase, bytes: seq<Byte>): System {
    s.(objects := s.objects[key := StoredObject(bytes, s.clock)],
       attempts := s.attempts[p := Attempt(id, key, now, phase, bytes, s.clock)], usedKeys := s.usedKeys + {key})
  }

  lemma WritesOne(
    cfg: Config, s: System, p: nat, id: string, key: string, now: int, bytes: seq<Byte>, chunk: seq<Byte>)
    requires Leads(cfg, s, Writing(s, p, id, key, now, Open, bytes))
    ensures Leads(cfg, s, Writing(s, p, id, key, now, Open, bytes + chunk))
  {
    hide Leads;
    var t, u := Writing(s, p, id, key, now, Open, bytes), Writing(s, p, id, key, now, Open, bytes + chunk);
    LeadsNext(cfg, s, t, Generate(WriteChunk(p, chunk)));
    assert t.objects[key := u.objects[key]] == u.objects && t.attempts[p := u.attempts[p]] == u.attempts;
  }

  lemma {:induction false} WritesAll(
    cfg: Config, s: System, p: nat, id: string, key: string, now: int, chunks: seq<seq<Byte>>)
    requires Leads(cfg, s, Writing(s, p, id, key, now, Open, []))
    ensures Leads(cfg, s, Writing(s, p, id, key, now, Open, Flatten(chunks)))
    decreases |chunks|
  {
    hide Leads, Writing;
    if chunks == [] {
    } else {
      var n := |chunks| - 1;
      WritesAll(cfg, s, p, id, key, now, chunks[..n]);
      WritesOne(cfg, s, p, id, key, now, Flatten(chunks[..n]), chunks[n]);
    }
  }

  /**
   * An uninterrupted attempt of the protocol on a preparing row stores its chunks under its key and
   * finalizes the row with them, as `GenerateExportFile` does when it wins.
   */
  lemma GenerationIsARun(cfg: Config, s: System, p: nat, id: string, key: string, now: int, chunks: seq<seq<Byte>>)
    requires p !in s.attempts && id in s.rows && s.rows[id].status == Preparing && key !in s.usedKeys && now <= s.clock
    ensures Leads(cfg, s, s.(
      rows := s.rows[id := Finalized(cfg, s.rows[id], key, Flatten(chunks), now)],
      objects := s.objects[key := StoredObject(Flatten(chunks), s.clock)], usedKeys := s.usedKeys + {key},
      published := s.published[key := Publication(id, Flatten(chunks), now + cfg.retentionMs)]))
  {
    hide Leads, Finalized, Flatten;
    LeadsNowhere(cfg, s);
    LeadsNext(cfg, s, s, Generate(StartAttempt(p, id, key, now)));
    var s1 := s.(attempts := s.attempts[p := Attempt(id, key, now, New, [], s.clock)], usedKeys := s.usedKeys + {key});
    LeadsNext(cfg, s, s1, Generate(OpenObject(p)));
    var s2 := Writing(s, p, id, key, now, Open, []);
    assert s1.attempts[p := s2.attempts[p]] == s2.attempts;
    assert Apply(cfg, s1, Generate(OpenObject(p))) == s2;
    WritesAll(cfg, s, p, id, key, now, chunks);
    var s3 := Writing(s, p, id, key, now, Open, Flatten(chunks));
    LeadsNext(cfg, s, s3, Generate(FinishWriting(p)));
    var s4 := Writing(s, p, id, key, now, Written, Flatten(chunks));
    assert s3.attempts[p := s4.attempts[p]] == s4.attempts;
    assert Apply(cfg, s3, Generate(FinishWriting(p))) == s4;
    LeadsNext(cfg, s, s4, Generate(Finalize(p)));
    assert s4.attempts - {p} == s.attempts;
  }

  /** An attempt that loses its row leaves neither an object nor a change of the table, like a losing `GenerateExportFile`. */
  lemma LosingAttemptLeavesNothing(cfg: Config, s: System, p: nat)
    requires InPhase(s, p, Written) && !WinsFinalize(s, p)
    ensures Leads(cfg, s, s.(objects := s.objects - {s.attempts[p].key}, attempts := s.attempts - {p}))
  {
    hide Leads;
    LeadsNowhere(cfg, s);
    LeadsNext(cfg, s, s, Generate(Finalize(p)));
    var t := Moved(s, p, Removing);
    LeadsNext(cfg, s, t, Generate(RemoveOwn(p)));
    assert t.attempts - {p} == s.attempts - {p};
  }

  /** One that is too large leaves no object either, and fails its row if it is still there. */
  lemma TooLargeAttemptLeavesNothing(cfg: Config, s: System, p: nat)
    requires InPhase(s, p, TooLarge)
    ensures var a := s.attempts[p];
      Leads(cfg, s, s.(
        rows := if a.exportId in s.rows then s.rows[a.exportId := s.rows[a.exportId].(status := Failed, updatedAt := a.now)] else s.rows,
        objects := s.objects - {a.key}, attempts := s.attempts - {p}))
  {
    hide Leads;
    LeadsNowhere(cfg, s);
    LeadsNext(cfg, s, s, Generate(MarkTooLarge(p)));
    var t := TooLargeMarked(s, p);
    LeadsNext(cfg, s, t, Generate(RemoveOwn(p)));
    assert t.attempts - {p} == s.attempts - {p};
  }

  /**
   * Round trip: a download right after such an attempt, before the new row expires, gets back
   * exactly the bytes of the chunks, with the row that describes them.
   */
  lemma GeneratedFileIsDownloaded(
    cfg: Config, s: System, p: nat, id: string, key: string, now: int, chunks: seq<seq<Byte>>, d: nat)
    returns (t: System)
    requires p !in s.attempts && id in s.rows && s.rows[id].status == Preparing && key !in s.usedKeys && now <= s.clock
    requires d !in s.downloads && s.clock < now + cfg.retentionMs
    ensures Leads(cfg, s, t) && d in t.downloads && id in t.rows
    ensures t.downloads[d] == Got(t.rows[id], Flatten(chunks)) && t.rows[id].checksum == Some(cfg.sha256(Flatten(chunks)))
  {
    hide Leads, Flatten;
    GenerationIsARun(cfg, s, p, id, key, now, chunks);
    var row := Finalized(cfg, s.rows[id], key, Flatten(chunks), now);
    var s1 := s.(
      rows := s.rows[id := row], objects := s.objects[key := StoredObject(Flatten(chunks), s.clock)],
      usedKeys := s.usedKeys + {key}, published := s.published[key := Publication(id, Flatten(chunks), now + cfg.retentionMs)]);
    LeadsNext(cfg, s, s1, User(ReadForDownload(d, id)));
    var s2 := s1.(downloads := s.downloads[d := Reading(row)]);
    assert Apply(cfg, s1, User(ReadForDownload(d, id))) == s2;
    LeadsNext(cfg, s, s2, User(FetchBytes(d)));
    t := Apply(cfg, s2, User(FetchBytes(d)));
  }
}
