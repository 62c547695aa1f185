/**
 * The export protocol between the exports table and object storage, as interleaved steps:
 * generation attempts, user deletes, downloads, the expiry sweep and the orphan reconciler,
 * each stopping at any point.
 */
module ExportProtocol {
  import opened Wrappers
  import opened Csv
  import opened ObjectStore

  datatype Config = Config(graceMs: nat, retentionMs: nat, staleMs: nat, sha256: seq<Byte> -> string)

  datatype Status = Preparing | Ready | Failed

  datatype ExportRow = ExportRow(
    status: Status, storageKey: Option<string>, sizeBytes: Option<nat>, checksum: Option<string>,
    expiresAt: Option<int>, updatedAt: int)

  // ---------- row updates ----------

  function NewRow(now: int): ExportRow { ExportRow(Preparing, None, None, None, None, now) }

  /** The guarded finalize; `now` is the time the attempt was called with. */
  function Finalized(cfg: Config, row: ExportRow, key: string, bytes: seq<Byte>, now: int): ExportRow {
    row.(status := Ready, storageKey := Some(key), sizeBytes := Some(|bytes|), checksum := Some(cfg.sha256(bytes)),
         expiresAt := Some(now + cfg.retentionMs), updatedAt := now)
  }

  /** The too-large update, which looks at the id alone: a ready row fails and keeps its storage key. */
  function MarkedTooLarge(row: ExportRow, now: int): ExportRow { row.(status := Failed, updatedAt := now) }

  function Unlinked(row: ExportRow, now: int): ExportRow { row.(storageKey := None, updatedAt := now) }

  predicate IsStale(cfg: Config, row: ExportRow, now: int) {
    row.status == Preparing && row.updatedAt < now - cfg.staleMs
  }

  function MarkedStale(cfg: Config, rows: map<string, ExportRow>, now: int): map<string, ExportRow> {
    map id | id in rows :: if IsStale(cfg, rows[id], now) then rows[id].(status := Failed, updatedAt := now) else rows[id]
  }

  predicate IsExpired(row: ExportRow, now: int) {
    row.status == Ready && row.expiresAt.Some? && row.expiresAt.value <= now
  }

  /** What the sweep selects: ready, past its expiry, with a file. */
  predicate IsSwept(row: ExportRow, now: int) {
    row.status == Ready && row.expiresAt.Some? && row.expiresAt.value < now && row.storageKey.Some?
  }

  // ---------- processes ----------

  /** `New` has its key, `Open` is writing, `Written` is done, `TooLarge` hit the limit, `Removing` deletes its own object. */
  datatype Phase = New | Open | Written | TooLarge | Removing

  datatype Attempt = Attempt(exportId: string, key: string, now: int, phase: Phase, bytes: seq<Byte>, lastWrite: int)

  datatype Deleter = RowRead(exportId: string, row: ExportRow) | ObjectLeft(key: string)

  datatype Download = Reading(row: ExportRow) | Got(row: ExportRow, bytes: seq<Byte>)

  datatype Expired = Expired(exportId: string, key: string)
  datatype Sweeper = Sweeper(now: int, pending: set<Expired>, deleted: Option<Expired>)

  /** `Listing` has the keys and reads each object's time, before the table is queried; `Purging` deletes. */
  datatype Reconciler =
    | Called(now: int)
    | Listing(now: int, unread: set<string>, refs: map<string, int>)
    | Purging(victims: set<string>)

  /** What was published under a key when its attempt finalized. */
  datatype Publication = Publication(owner: string, bytes: seq<Byte>, expiresAt: int)

  datatype System = System(
    clock: int, rows: map<string, ExportRow>, objects: Objects,
    attempts: map<nat, Attempt>, deleters: map<nat, Deleter>, downloads: map<nat, Download>,
    sweepers: map<nat, Sweeper>, reconcilers: map<nat, Reconciler>,
    usedIds: set<string>, usedKeys: set<string>, published: map<string, Publication>)

  function Start(clock: int): System {
    System(clock, map[], map[], map[], map[], map[], map[], map[], {}, {}, map[])
  }

  // ---------- steps on the table ----------

  datatype TableAction = Tick(time: int) | CreateRow(id: string) | DropRow(id: string)

  predicate TableEnabled(s: System, a: TableAction) {
    match a
    case Tick(time) => time >= s.clock
    case CreateRow(id) => id !in s.usedIds
    case DropRow(id) => id in s.rows
  }

  function TableStep(s: System, a: TableAction): System
    requires TableEnabled(s, a)
  {
    match a
    case Tick(time) => s.(clock := time)
    case CreateRow(id) => s.(rows := s.rows[id := NewRow(s.clock)], usedIds := s.usedIds + {id})
    case DropRow(id) => s.(rows := s.rows - {id})
  }

  // ---------- generation attempts ----------

  datatype AttemptAction =
    | StartAttempt(p: nat, id: string, key: string, now: int)
    | OpenObject(p: nat)
    | WriteChunk(p: nat, chunk: seq<Byte>)
    | FinishWriting(p: nat)
    | HitSizeLimit(p: nat)
    | MarkTooLarge(p: nat)
    | Finalize(p: nat)
    | RemoveOwn(p: nat)
    | StopAttempt(p: nat)

  predicate InPhase(s: System, p: nat, phase: Phase) { p in s.attempts && s.attempts[p].phase == phase }

  predicate AttemptEnabled(s: System, a: AttemptAction) {
    match a
    case StartAttempt(p, id, key, now) =>
      p !in s.attempts && id in s.rows && s.rows[id].status == Preparing && key !in s.usedKeys && now <= s.clock
    case OpenObject(p) => InPhase(s, p, New)
    case WriteChunk(p, _) => InPhase(s, p, Open)
    case FinishWriting(p) => InPhase(s, p, Open)
    case HitSizeLimit(p) => InPhase(s, p, New) || InPhase(s, p, Open)
    case MarkTooLarge(p) => InPhase(s, p, TooLarge)
    case Finalize(p) => InPhase(s, p, Written)
    case RemoveOwn(p) => InPhase(s, p, Removing)
    case StopAttempt(p) => p in s.attempts
  }

  function Moved(s: System, p: nat, phase: Phase): System
    requires p in s.attempts
  {
    s.(attempts := s.attempts[p := s.attempts[p].(phase := phase)])
  }

  function Opened(s: System, p: nat): System
    requires p in s.attempts
  {
    var a := s.attempts[p];
    s.(objects := s.objects[a.key := StoredObject([], s.clock)],
       attempts := s.attempts[p := a.(phase := Open, lastWrite := s.clock)])
  }

  /** Writing to an object that has been deleted meanwhile does not bring it back. */
  function ChunkWritten(s: System, p: nat, chunk: seq<Byte>): System
    requires p in s.attempts
  {
    var a := s.attempts[p];
    s.(objects := if a.key in s.objects then Appended(s.objects, a.key, chunk, s.clock) else s.objects,
       attempts := s.attempts[p := a.(bytes := a.bytes + chunk, lastWrite := s.clock)])
  }

  function TooLargeMarked(s: System, p: nat): System
    requires p in s.attempts
  {
    var a := s.attempts[p];
    Moved(s, p, Removing).(
      rows := if a.exportId in s.rows then s.rows[a.exportId := MarkedTooLarge(s.rows[a.exportId], a.now)] else s.rows)
  }

  /** The guarded update finds the row still preparing. */
  predicate WinsFinalize(s: System, p: nat)
    requires p in s.attempts
  {
    s.attempts[p].exportId in s.rows && s.rows[s.attempts[p].exportId].status == Preparing
  }

  function Published(cfg: Config, s: System, p: nat): System
    requires p in s.attempts && WinsFinalize(s, p)
  {
    var a := s.attempts[p];
    s.(rows := s.rows[a.exportId := Finalized(cfg, s.rows[a.exportId], a.key, a.bytes, a.now)],
       attempts := s.attempts - {p},
       published := s.published[a.key := Publication(a.exportId, a.bytes, a.now + cfg.retentionMs)])
  }

  function OwnRemoved(s: System, p: nat): System
    requires p in s.attempts
  {
    s.(objects := s.objects - {s.attempts[p].key}, attempts := s.attempts - {p})
  }

  function AttemptStep(cfg: Config, s: System, a: AttemptAction): System
    requires AttemptEnabled(s, a)
  {
    match a
    case StartAttempt(p, id, key, now) =>
      s.(attempts := s.attempts[p := Attempt(id, key, now, New, [], s.clock)], usedKeys := s.usedKeys + {key})
    case OpenObject(p) => Opened(s, p)
    case WriteChunk(p, chunk) => ChunkWritten(s, p, chunk)
    case FinishWriting(p) => Moved(s, p, Written)
    case HitSizeLimit(p) => Moved(s, p, TooLarge)
    case MarkTooLarge(p) => TooLargeMarked(s, p)
    case Finalize(p) => if WinsFinalize(s, p) then Published(cfg, s, p) else Moved(s, p, Removing)
    case RemoveOwn(p) => OwnRemoved(s, p)
    case StopAttempt(p) => s.(attempts := s.attempts - {p})
  }

  // ---------- user deletes and downloads ----------

  datatype UserAction =
    | ReadForDelete(p: nat, id: string)
    | DeleteRow(p: nat)
    | DeleteObject(p: nat)
    | StopDelete(p: nat)
    | ReadForDownload(p: nat, id: string)
    | FetchBytes(p: nat)

  predicate UserEnabled(s: System, a: UserAction) {
    match a
    case ReadForDelete(p, id) => p !in s.deleters && id in s.rows
    case DeleteRow(p) => p in s.deleters && s.deleters[p].RowRead?
    case DeleteObject(p) => p in s.deleters && s.deleters[p].ObjectLeft?
    case StopDelete(p) => p in s.deleters
    case ReadForDownload(p, id) =>
      p !in s.downloads && id in s.rows && s.rows[id].status == Ready && !IsExpired(s.rows[id], s.clock)
      && s.rows[id].storageKey.Some?
    case FetchBytes(p) =>
      p in s.downloads && s.downloads[p].Reading? && s.downloads[p].row.storageKey.Some?
      && s.downloads[p].row.storageKey.value in s.objects
  }

  function RowDeleted(s: System, p: nat): System
    requires p in s.deleters && s.deleters[p].RowRead?
  {
    var d := s.deleters[p];
    s.(rows := s.rows - {d.exportId},
       deleters := if d.row.storageKey.Some? then s.deleters[p := ObjectLeft(d.row.storageKey.value)] else s.deleters - {p})
  }

  function UserStep(s: System, a: UserAction): System
    requires UserEnabled(s, a)
  {
    match a
    case ReadForDelete(p, id) => s.(deleters := s.deleters[p := RowRead(id, s.rows[id])])
    case DeleteRow(p) => RowDeleted(s, p)
    case DeleteObject(p) => s.(objects := s.objects - {s.deleters[p].key}, deleters := s.deleters - {p})
    case StopDelete(p) => s.(deleters := s.deleters - {p})
    case ReadForDownload(p, id) => s.(downloads := s.downloads[p := Reading(s.rows[id])])
    case FetchBytes(p) =>
      var row := s.downloads[p].row;
      s.(downloads := s.downloads[p := Got(row, s.objects[row.storageKey.value].bytes)])
  }

  // ---------- the expiry sweep ----------

  datatype SweepAction =
    | StartSweep(p: nat, now: int)
    | SweepObject(p: nat, e: Expired)
    | SkipExpired(p: nat, e: Expired)
    | ClearKey(p: nat)
    | MarkStale(now: int)
    | StopSweep(p: nat)

  predicate SweepEnabled(s: System, a: SweepAction) {
    match a
    case StartSweep(p, now) => p !in s.sweepers && now <= s.clock
    case SweepObject(p, e) =>
      p in s.sweepers && s.sweepers[p].deleted.None? && e in s.sweepers[p].pending && e.key in s.objects
    case SkipExpired(p, e) => p in s.sweepers && s.sweepers[p].deleted.None? && e in s.sweepers[p].pending
    case ClearKey(p) => p in s.sweepers && s.sweepers[p].deleted.Some?
    case MarkStale(now) => now <= s.clock
    case StopSweep(p) => p in s.sweepers
  }

  /** The rows a sweep called at `now` goes through, with their keys. */
  function ExpiredRows(rows: map<string, ExportRow>, now: int): set<Expired> {
    set id | id in rows && IsSwept(rows[id], now) :: Expired(id, rows[id].storageKey.GetOr(""))
  }

  /** The guarded update that forgets a deleted file: same id, same key, still ready. */
  function KeyCleared(rows: map<string, ExportRow>, e: Expired, now: int): map<string, ExportRow> {
    if e.exportId in rows && rows[e.exportId].storageKey == Some(e.key) && rows[e.exportId].status == Ready
    then rows[e.exportId := Unlinked(rows[e.exportId], now)] else rows
  }

  function SweepStep(cfg: Config, s: System, a: SweepAction): System
    requires SweepEnabled(s, a)
  {
    match a
    case StartSweep(p, now) => s.(sweepers := s.sweepers[p := Sweeper(now, ExpiredRows(s.rows, now), None)])
    case SweepObject(p, e) =>
      var w := s.sweepers[p];
      s.(objects := s.objects - {e.key}, sweepers := s.sweepers[p := Sweeper(w.now, w.pending - {e}, Some(e))])
    case SkipExpired(p, e) =>
      var w := s.sweepers[p];
      s.(sweepers := s.sweepers[p := Sweeper(w.now, w.pending - {e}, None)])
    case ClearKey(p) =>
      var w := s.sweepers[p];
      s.(rows := KeyCleared(s.rows, w.deleted.value, w.now), sweepers := s.sweepers[p := w.(deleted := None)])
    case MarkStale(now) => s.(rows := MarkedStale(cfg, s.rows, now))
    case StopSweep(p) => s.(sweepers := s.sweepers - {p})
  }

  // ---------- the orphan reconciler ----------

  datatype ReconcileAction =
    | StartReconcile(p: nat, now: int)
    | ListKeys(p: nat)
    | ReadTime(p: nat, key: string)
    | CompareWithTable(p: nat)
    | RemoveOrphan(p: nat, key: string)
    | StopReconcile(p: nat)

  predicate IsReferenced(rows: map<string, ExportRow>, key: string) {
    exists id <- rows :: rows[id].storageKey == Some(key)
  }

  predicate ReconcileEnabled(s: System, a: ReconcileAction) {
    match a
    case StartReconcile(p, now) => p !in s.reconcilers && now <= s.clock
    case ListKeys(p) => p in s.reconcilers && s.reconcilers[p].Called?
    case ReadTime(p, key) => p in s.reconcilers && s.reconcilers[p].Listing? && key in s.reconcilers[p].unread
    case CompareWithTable(p) => p in s.reconcilers && s.reconcilers[p].Listing? && s.reconcilers[p].unread == {}
    case RemoveOrphan(p, key) => p in s.reconcilers && s.reconcilers[p].Purging? && key in s.reconcilers[p].victims
    case StopReconcile(p) => p in s.reconcilers
  }

  /** Listed keys that no row references and that were last written before the grace period. */
  function Orphans(cfg: Config, rows: map<string, ExportRow>, refs: map<string, int>, now: int): set<string> {
    set k | k in refs && !IsReferenced(rows, k) && refs[k] <= now - cfg.graceMs
  }

  function ReconcileStep(cfg: Config, s: System, a: ReconcileAction): System
    requires ReconcileEnabled(s, a)
  {
    match a
    case StartReconcile(p, now) => s.(reconcilers := s.reconcilers[p := Called(now)])
    case ListKeys(p) => s.(reconcilers := s.reconcilers[p := Listing(s.reconcilers[p].now, s.objects.Keys, map[])])
    case ReadTime(p, key) =>
      var r := s.reconcilers[p];
      var refs := if key in s.objects then r.refs[key := s.objects[key].modifiedAt] else r.refs;
      s.(reconcilers := s.reconcilers[p := Listing(r.now, r.unread - {key}, refs)])
    case CompareWithTable(p) =>
      var r := s.reconcilers[p];
      s.(reconcilers := s.reconcilers[p := Purging(Orphans(cfg, s.rows, r.refs, r.now))])
    case RemoveOrphan(p, key) =>
      s.(objects := s.objects - {key},
         reconcilers := s.reconcilers[p := Purging(s.reconcilers[p].victims - {key})])
    case StopReconcile(p) => s.(reconcilers := s.reconcilers - {p})
  }

  // ---------- steps ----------

  datatype Step =
    | Table(t: TableAction) | Generate(a: AttemptAction) | User(u: UserAction) | Sweep(w: SweepAction)
    | Reconcile(r: ReconcileAction)

  predicate Enabled(s: System, step: Step) {
    match step
    case Table(t) => TableEnabled(s, t)
    case Generate(a) => AttemptEnabled(s, a)
    case User(u) => UserEnabled(s, u)
    case Sweep(w) => SweepEnabled(s, w)
    case Reconcile(r) => ReconcileEnabled(s, r)
  }

  function Apply(cfg: Config, s: System, step: Step): System
    requires Enabled(s, step)
  {
    match step
    case Table(t) => TableStep(s, t)
    case Generate(a) => AttemptStep(cfg, s, a)
    case User(u) => UserStep(s, u)
    case Sweep(w) => SweepStep(cfg, s, w)
    case Reconcile(r) => ReconcileStep(cfg, s, r)
  }

  // ---------- runs ----------

  ghost predicate IsRun(cfg: Config, s: System, steps: seq<Step>)
    decreases |steps|
  {
    steps == [] || (Enabled(s, steps[0]) && IsRun(cfg, Apply(cfg, s, steps[0]), steps[1..]))
  }

  ghost function End(cfg: Config, s: System, steps: seq<Step>): System
    requires IsRun(cfg, s, steps)
    decreases |steps|
  {
    if steps == [] then s else End(cfg, Apply(cfg, s, steps[0]), steps[1..])
  }

  /** Some run of the protocol goes from `s` to `t`. */
  ghost predicate Leads(cfg: Config, s: System, t: System) {
    exists steps :: IsRun(cfg, s, steps) && End(cfg, s, steps) == t
  }

  lemma {:induction false} RunExtends(cfg: Config, s: System, steps: seq<Step>, step: Step)
    requires IsRun(cfg, s, steps) && Enabled(End(cfg, s, steps), step)
    ensures IsRun(cfg, s, steps + [step]) && End(cfg, s, steps + [step]) == Apply(cfg, End(cfg, s, steps), step)
    decreases |steps|
  {
    hide Apply, Enabled;
    if steps == [] {
      assert [step][1..] == [];
      assert steps + [step] == [step];
    } else {
      assert (steps + [step])[1..] == steps[1..] + [step];
      RunExtends(cfg, Apply(cfg, s, steps[0]), steps[1..], step);
    }
  }

  lemma LeadsNext(cfg: Config, s: System, t: System, step: Step)
    requires Leads(cfg, s, t) && Enabled(t, step)
    ensures Leads(cfg, s, Apply(cfg, t, step))
  {
    hide Apply, Enabled;
    var steps :| IsRun(cfg, s, steps) && End(cfg, s, steps) == t;
    RunExtends(cfg, s, steps, step);
  }

  lemma LeadsNowhere(cfg: Config, s: System)
    ensures Leads(cfg, s, s)
  {
    assert IsRun(cfg, s, []) && End(cfg, s, []) == s;
  }

  /**
   * The timing assumption: an attempt writes again, and finalizes, only while less than the grace
   * period has passed since its last write.
   */
  ghost predicate Timely(cfg: Config, s: System, step: Step) {
    match step
    case Generate(WriteChunk(p, _)) => p in s.attempts ==> s.clock < s.attempts[p].lastWrite + cfg.graceMs
    case Generate(Finalize(p)) => p in s.attempts ==> s.clock < s.attempts[p].lastWrite + cfg.graceMs
    case _ => true
  }

  ghost predicate IsTimelyRun(cfg: Config, s: System, steps: seq<Step>)
    requires IsRun(cfg, s, steps)
    decreases |steps|
  {
    steps == [] || (Timely(cfg, s, steps[0]) && IsTimelyRun(cfg, Apply(cfg, s, steps[0]), steps[1..]))
  }
}
