/**
 * Streaming a CSV export to storage page by page, with a running size and hash, against the file
 * that would be built in memory from the same rows.
 */
module ExportArtifact {
  import opened Wrappers
  import opened Csv
  import opened Paging
  import opened ObjectStore

  datatype Limits = Limits(maxRows: nat, maxFileBytes: nat)
  datatype Artifact = Artifact(storageKey: string, sizeBytes: nat, checksum: string)
  datatype ArtifactError = TooManyRows | TooLarge

  function FieldsOf(rows: seq<Row>): (records: seq<seq<string>>)
    ensures |records| == |rows|
  {
    if rows == [] then [] else FieldsOf(rows[..|rows| - 1]) + [rows[|rows| - 1].fields]
  }

  /** The rows the paging loop delivers. */
  function Delivered(table: seq<Row>, maxRows: nat): seq<Row> {
    Follow(table, None, EXPORT_PAGE_SIZE, maxRows, [])
  }

  lemma {:induction false} FieldsOfConcat(a: seq<Row>, b: seq<Row>)
    ensures FieldsOf(a + b) == FieldsOf(a) + FieldsOf(b)
  {
    if b == [] {
      assert a + b == a;
    } else {
      var s := a + b;
      assert s[..|s| - 1] == a + b[..|b| - 1] && s[|s| - 1] == b[|b| - 1];
      FieldsOfConcat(a, b[..|b| - 1]);
    }
  }

  lemma {:induction false} EncodeRecordsConcat(a: seq<seq<string>>, b: seq<seq<string>>)
    ensures EncodeRecords(a + b) == EncodeRecords(a) + EncodeRecords(b)
  {
    hide EncodeCsvRecord;
    if a == [] {
      assert a + b == b;
    } else {
      assert (a + b)[1..] == a[1..] + b;
      EncodeRecordsConcat(a[1..], b);
    }
  }

  /** The file of more rows starts with the file of fewer. */
  lemma LongerFile(headers: seq<string>, a: seq<Row>, b: seq<Row>)
    requires a <= b
    ensures CsvFile(headers, FieldsOf(a)) <= CsvFile(headers, FieldsOf(b))
  {
    hide EncodeRecords, FieldsOf;
    var rest := b[|a|..];
    assert b == a + rest;
    FieldsOfConcat(a, rest);
    assert [headers] + FieldsOf(b) == ([headers] + FieldsOf(a)) + FieldsOf(rest);
    EncodeRecordsConcat([headers] + FieldsOf(a), FieldsOf(rest));
  }

  lemma OneMoreRow(headers: seq<string>, rows: seq<Row>, r: Row)
    ensures CsvFile(headers, FieldsOf(rows + [r])) == CsvFile(headers, FieldsOf(rows)) + EncodeCsvRecord(r.fields)
  {
    hide EncodeRecords, EncodeCsvRecord;
    assert (rows + [r])[..|rows|] == rows;
    assert [headers] + FieldsOf(rows + [r]) == ([headers] + FieldsOf(rows)) + [r.fields];
    EncodeRecordsSnoc([headers] + FieldsOf(rows), r.fields);
  }

  lemma HeaderOnly(headers: seq<string>)
    ensures CsvFile(headers, FieldsOf([])) == CSV_UTF8_BOM + EncodeCsvRecord(headers)
  {
    hide EncodeCsvRecord;
    assert [headers] + FieldsOf([]) == [headers];
    EncodeOneRecord(headers);
  }

  /** How an attempt ends: with every row written, or at the first row over a limit. */
  datatype Outcome = AllWritten | StoppedAt(row: nat, error: ArtifactError)

  /** The limits are checked row by row: first the number of rows, then the bytes with that row. */
  function OutcomeFrom(headers: seq<string>, rows: seq<Row>, limits: Limits, i: nat): (o: Outcome)
    requires i <= |rows|
    ensures o.StoppedAt? ==> i <= o.row < |rows|
    decreases |rows| - i
  {
    if i == |rows| then AllWritten
    else if i + 1 > limits.maxRows then StoppedAt(i, TooManyRows)
    else if |CsvFile(headers, FieldsOf(rows[..i + 1]))| > limits.maxFileBytes then StoppedAt(i, TooLarge)
    else OutcomeFrom(headers, rows, limits, i + 1)
  }

  predicate FitsBoth(headers: seq<string>, rows: seq<Row>, limits: Limits, n: nat)
    requires n <= |rows|
  {
    n <= limits.maxRows && |CsvFile(headers, FieldsOf(rows[..n]))| <= limits.maxFileBytes
  }

  /** The stopping row ends the longest beginning of the rows that fits both limits; with both exceeded, rows count first. */
  lemma {:induction false} StopsAtTheFirst(headers: seq<string>, rows: seq<Row>, limits: Limits, i: nat)
    requires i <= |rows| && FitsBoth(headers, rows, limits, i)
    ensures var o := OutcomeFrom(headers, rows, limits, i);
      && (o == AllWritten <==> FitsBoth(headers, rows, limits, |rows|))
      && (o.StoppedAt? ==>
            && FitsBoth(headers, rows, limits, o.row)
            && (forall n :: o.row < n <= |rows| ==> !FitsBoth(headers, rows, limits, n))
            && (o.error == TooManyRows <==> o.row == limits.maxRows))
    decreases |rows| - i
  {
    hide CsvFile, FieldsOf;
    if i < |rows| {
      if FitsBoth(headers, rows, limits, i + 1) {
        StopsAtTheFirst(headers, rows, limits, i + 1);
      } else {
        forall n | i < n <= |rows| ensures !FitsBoth(headers, rows, limits, n) {
          assert rows[..i + 1] <= rows[..n];
          LongerFile(headers, rows[..i + 1], rows[..n]);
        }
      }
    } else {
      assert rows[..i] == rows;
    }
  }

  /** What happens before the stopping row does not depend on the rows after it. */
  lemma {:induction false} OutcomeOfMore(headers: seq<string>, a: seq<Row>, b: seq<Row>, limits: Limits, i: nat)
    requires a <= b && i <= |a|
    ensures OutcomeFrom(headers, a, limits, i).StoppedAt? ==> OutcomeFrom(headers, b, limits, i) == OutcomeFrom(headers, a, limits, i)
    ensures OutcomeFrom(headers, a, limits, i) == AllWritten ==>
      OutcomeFrom(headers, b, limits, i) == OutcomeFrom(headers, b, limits, |a|)
    decreases |a| - i
  {
    hide CsvFile, FieldsOf;
    if i < |a| {
      assert a[..i + 1] == b[..i + 1];
      OutcomeOfMore(headers, a, b, limits, i + 1);
    }
  }

  function FileUpTo(headers: seq<string>, rows: seq<Row>, n: nat): seq<Byte>
    requires n <= |rows|
  {
    CsvFile(headers, FieldsOf(rows[..n]))
  }

  /** Writes the rows of one page, checking the row limit and the running size before each write. */
  method StreamPage(
    storage: PrivateStorage, headers: seq<string>, ghost done: seq<Row>, rows: seq<Row>, limits: Limits, key: string,
    now: int, hashed: seq<Byte>, rowsSoFar: nat)
    returns (result: Result<seq<Byte>, ArtifactError>)
    requires key in storage.objects && hashed == CsvFile(headers, FieldsOf(done)) && |hashed| <= limits.maxFileBytes
    requires storage.objects[key] == StoredObject(hashed, now) && rowsSoFar == |done| <= limits.maxRows
    modifies storage
    ensures var outcome := OutcomeFrom(headers, done + rows, limits, |done|);
      match outcome
      case AllWritten =>
        && result == Ok(CsvFile(headers, FieldsOf(done + rows)))
        && storage.objects == old(storage.objects)[key := StoredObject(CsvFile(headers, FieldsOf(done + rows)), now)]
      case StoppedAt(n, error) =>
        && result == Err(error)
        && storage.objects == old(storage.objects)[key := StoredObject(FileUpTo(headers, done + rows, n), now)]
  {
    hide CsvFile, FieldsOf, EncodeCsvRecord;
    var absorbed := hashed;
    ghost var all := done + rows;
    assert all[..|done|] == done;
    var i := 0;
    var totalRows := rowsSoFar;
    while i < |rows|
      invariant 0 <= i <= |rows| && totalRows == |done| + i <= limits.maxRows
      invariant absorbed == CsvFile(headers, FieldsOf(all[..|done| + i])) && |absorbed| <= limits.maxFileBytes
      invariant storage.objects == old(storage.objects)[key := StoredObject(absorbed, now)]
      invariant OutcomeFrom(headers, all, limits, |done|) == OutcomeFrom(headers, all, limits, |done| + i)
    {
      totalRows := totalRows + 1;
      ghost var k := |done| + i;
      assert all[..k + 1] == all[..k] + [rows[i]];
      OneMoreRow(headers, all[..k], rows[i]);
      if totalRows > limits.maxRows {
        return Err(TooManyRows);
      }
      var chunk := EncodeCsvRecord(rows[i].fields);
      if |absorbed| + |chunk| > limits.maxFileBytes {
        return Err(TooLarge);
      }
      absorbed := absorbed + chunk;
      storage.WriteChunk(key, chunk, now);
      i := i + 1;
    }
    assert all[..|done| + i] == all;
    result := Ok(absorbed);
  }

  /** Opens the object and writes the mark and the header. */
  method WriteHeader(storage: PrivateStorage, headers: seq<string>, key: string, now: int)
    modifies storage
    ensures storage.objects == old(storage.objects)[key := StoredObject(CSV_UTF8_BOM + EncodeCsvRecord(headers), now)]
  {
    hide EncodeCsvRecord;
    storage.Open(key, now);
    storage.WriteChunk(key, CSV_UTF8_BOM, now);
    storage.WriteChunk(key, EncodeCsvRecord(headers), now);
    assert [] + CSV_UTF8_BOM == CSV_UTF8_BOM;
  }

  /** What streaming `rows` does to the store, and its result. */
  ghost predicate Streamed(
    result: Result<Artifact, ArtifactError>, before: Objects, after: Objects, headers: seq<string>, rows: seq<Row>,
    limits: Limits, key: string, now: int, sha256: seq<Byte> -> string)
  {
    if |CsvFile(headers, [])| > limits.maxFileBytes then
      result == Err(TooLarge) && after == before
    else
      match OutcomeFrom(headers, rows, limits, 0)
      case AllWritten =>
        var file := CsvFile(headers, FieldsOf(rows));
        result == Ok(Artifact(key, |file|, sha256(file))) && after == before[key := StoredObject(file, now)]
      case StoppedAt(n, error) =>
        result == Err(error) && after == before[key := StoredObject(FileUpTo(headers, rows, n), now)]
  }

  /**
   * Streams the export: mark, header, then every delivered row, hashing and counting what it
   * writes. `sha256` is the digest of the bytes absorbed so far.
   */
  method StreamCsvArtifact(
    storage: PrivateStorage, table: seq<Row>, headers: seq<string>, limits: Limits, key: string, now: int,
    sha256: seq<Byte> -> string)
    returns (result: Result<Artifact, ArtifactError>)
    modifies storage
    ensures Streamed(result, old(storage.objects), storage.objects, headers, Delivered(table, limits.maxRows), limits, key, now, sha256)
    ensures var rows := Delivered(table, limits.maxRows);
      var file := CsvFile(headers, FieldsOf(rows));
      && (result.Ok? <==> |rows| <= limits.maxRows && |file| <= limits.maxFileBytes)
      && (result.Ok? ==> result.value == Artifact(key, |file|, sha256(file)))
      && (result.Ok? ==> storage.objects == old(storage.objects)[key := StoredObject(file, now)])
      && (result == Err(TooManyRows) ==> |rows| > limits.maxRows)
      && (result == Err(TooLarge) ==> |file| > limits.maxFileBytes)
      && (result.Err? ==> storage.objects - {key} == old(storage.objects) - {key})
  {
    hide CsvFile, FieldsOf, EncodeCsvRecord, FetchPage, OutcomeFrom, Streamed, FileUpTo;
    ghost var before := storage.objects;
    ghost var all := Delivered(table, limits.maxRows);
    HeaderOnly(headers);
    assert FieldsOf([]) == [] by { NoFields(); }
    var hashed: seq<Byte> := CSV_UTF8_BOM;
    result := Err(TooLarge);
    HeaderTooLarge(result, before, headers, all, limits, key, now, sha256);
    if |hashed| > limits.maxFileBytes { return; }
    hashed := hashed + EncodeCsvRecord(headers);
    if |hashed| > limits.maxFileBytes { return; }
    WriteHeader(storage, headers, key, now);
    ghost var done: seq<Row> := [];
    var totalRows := 0;
    var cursor: Option<Cursor> := None;
    while true
      invariant hashed == CsvFile(headers, FieldsOf(done)) && |hashed| <= limits.maxFileBytes
      invariant totalRows == |done| <= limits.maxRows
      invariant storage.objects == before[key := StoredObject(hashed, now)]
      invariant all == Follow(table, cursor, EXPORT_PAGE_SIZE, limits.maxRows, done)
      invariant done <= all && OutcomeFrom(headers, all, limits, 0) == OutcomeFrom(headers, all, limits, |done|)
      decreases limits.maxRows - |done|
    {
      var page := FetchPage(table, cursor, EXPORT_PAGE_SIZE);
      FollowOnlyAppends(table, cursor, EXPORT_PAGE_SIZE, limits.maxRows, done);
      assert done <= done + page.rows <= all;
      OutcomeOfMore(headers, done + page.rows, all, limits, |done|);
      var streamed := StreamPage(storage, headers, done, page.rows, limits, key, now, hashed, totalRows);
      if streamed.Err? {
        result := Err(streamed.error);
        PageStopped(result, before, storage.objects, headers, done, page.rows, all, limits, key, now, sha256);
        return;
      }
      hashed := streamed.value;
      WholePageFits(headers, done, page.rows, limits);
      done := done + page.rows;
      totalRows := totalRows + |page.rows|;
      cursor := page.nextCursor;
      if cursor.None? { break; }
    }
    result := Ok(Artifact(key, |hashed|, sha256(hashed)));
    EverythingWritten(result, before, storage.objects, headers, all, limits, key, now, sha256);
  }

  lemma NoFields()
    ensures FieldsOf([]) == []
  {
  }

  lemma HeaderTooLarge(
    result: Result<Artifact, ArtifactError>, before: Objects, headers: seq<string>, rows: seq<Row>, limits: Limits, key: string,
    now: int, sha256: seq<Byte> -> string)
    requires result == Err(TooLarge)
    ensures |CsvFile(headers, [])| > limits.maxFileBytes ==>
      && Streamed(result, before, before, headers, rows, limits, key, now, sha256)
      && |CsvFile(headers, FieldsOf(rows))| > limits.maxFileBytes
  {
    hide CsvFile, FieldsOf, OutcomeFrom;
    NoFields();
    LongerFile(headers, [], rows);
  }

  lemma PageStopped(
    result: Result<Artifact, ArtifactError>, before: Objects, after: Objects, headers: seq<string>, done: seq<Row>,
    page: seq<Row>, all: seq<Row>, limits: Limits, key: string, now: int, sha256: seq<Byte> -> string)
    requires done + page <= all && |CsvFile(headers, [])| <= limits.maxFileBytes
    requires FitsBoth(headers, done + page, limits, |done|)
    requires OutcomeFrom(headers, all, limits, 0) == OutcomeFrom(headers, all, limits, |done|)
    requires OutcomeFrom(headers, done + page, limits, |done|).StoppedAt?
    requires result == Err(OutcomeFrom(headers, done + page, limits, |done|).error)
    requires var n := OutcomeFrom(headers, done + page, limits, |done|).row;
      after == before[key := StoredObject(FileUpTo(headers, done + page, n), now)]
    ensures Streamed(result, before, after, headers, all, limits, key, now, sha256)
    ensures !(|all| <= limits.maxRows && |CsvFile(headers, FieldsOf(all))| <= limits.maxFileBytes)
    ensures result == Err(TooManyRows) ==> |all| > limits.maxRows
    ensures result == Err(TooLarge) ==> |CsvFile(headers, FieldsOf(all))| > limits.maxFileBytes
    ensures after - {key} == before - {key}
  {
    hide CsvFile, FieldsOf, OutcomeFrom;
    OutcomeOfMore(headers, done + page, all, limits, |done|);
    var n := OutcomeFrom(headers, done + page, limits, |done|).row;
    assert all[..n] == (done + page)[..n] && all[..|done|] == (done + page)[..|done|];
    StopsAtTheFirst(headers, all, limits, |done|);
    assert all[..|all|] == all;
    LongerFile(headers, all[..n + 1], all);
    assert !FitsBoth(headers, all, limits, n + 1);
  }

  lemma WholePageFits(headers: seq<string>, done: seq<Row>, page: seq<Row>, limits: Limits)
    requires FitsBoth(headers, done + page, limits, |done|)
    requires OutcomeFrom(headers, done + page, limits, |done|) == AllWritten
    ensures |done + page| <= limits.maxRows && |CsvFile(headers, FieldsOf(done + page))| <= limits.maxFileBytes
  {
    hide CsvFile, FieldsOf, OutcomeFrom;
    StopsAtTheFirst(headers, done + page, limits, |done|);
    assert (done + page)[..|done + page|] == done + page;
  }

  lemma EverythingWritten(
    result: Result<Artifact, ArtifactError>, before: Objects, after: Objects, headers: seq<string>, all: seq<Row>,
    limits: Limits, key: string, now: int, sha256: seq<Byte> -> string)
    requires |CsvFile(headers, [])| <= limits.maxFileBytes
    requires OutcomeFrom(headers, all, limits, 0) == AllWritten
    requires var file := CsvFile(headers, FieldsOf(all));
      result == Ok(Artifact(key, |file|, sha256(file))) && after == before[key := StoredObject(file, now)]
    ensures Streamed(result, before, after, headers, all, limits, key, now, sha256)
  {
    hide CsvFile, FieldsOf, OutcomeFrom;
  }

  // ---------- every kind of export ----------

  /** What a file is made of; workbook and archive bytes are made in memory by functions of their own. */
  datatype Content =
    | CsvContent(table: seq<Row>, headers: seq<string>)
    | WorkbookContent(table: seq<Row>, build: seq<Row> -> seq<Byte>)
    | ArchiveContent(bytes: seq<Byte>)

  function FileOf(content: Content, limits: Limits): seq<Byte> {
    match content
    case CsvContent(table, headers) => CsvFile(headers, FieldsOf(Delivered(table, limits.maxRows)))
    case WorkbookContent(table, build) => build(Delivered(table, limits.maxRows))
    case ArchiveContent(bytes) => bytes
  }

  /** The rows that count towards the row limit. */
  function RowCount(content: Content, limits: Limits): nat {
    if content.ArchiveContent? then 0 else |Delivered(content.table, limits.maxRows)|
  }

  /** Makes the file under its key: streamed for CSV, otherwise built in memory and checked before it is put. */
  method ProduceArtifact(
    storage: PrivateStorage, content: Content, limits: Limits, key: string, now: int, sha256: seq<Byte> -> string)
    returns (result: Result<Artifact, ArtifactError>)
    modifies storage
    ensures result.Ok? <==> RowCount(content, limits) <= limits.maxRows && |FileOf(content, limits)| <= limits.maxFileBytes
    ensures result.Ok? ==>
      && result.value == Artifact(key, |FileOf(content, limits)|, sha256(FileOf(content, limits)))
      && storage.objects == old(storage.objects)[key := StoredObject(FileOf(content, limits), now)]
    ensures result == Err(TooManyRows) ==> RowCount(content, limits) > limits.maxRows
    ensures result == Err(TooLarge) ==> |FileOf(content, limits)| > limits.maxFileBytes
    ensures result.Err? ==> storage.objects - {key} == old(storage.objects) - {key}
    ensures result.Err? && !content.CsvContent? ==> storage.objects == old(storage.objects)
    ensures content.CsvContent? ==>
      Streamed(result, old(storage.objects), storage.objects, content.headers, Delivered(content.table, limits.maxRows), limits,
        key, now, sha256)
  {
    hide CsvFile, FieldsOf, Streamed, Follow;
    match content {
      case CsvContent(table, headers) =>
        result := StreamCsvArtifact(storage, table, headers, limits, key, now, sha256);
      case WorkbookContent(table, build) =>
        var rows := SnapshotRows(table, limits.maxRows);
        if rows.Err? { return Err(TooManyRows); }
        result := PutInMemory(storage, build(rows.value), limits, key, now, sha256);
      case ArchiveContent(bytes) =>
        result := PutInMemory(storage, bytes, limits, key, now, sha256);
    }
  }

  method PutInMemory(
    storage: PrivateStorage, bytes: seq<Byte>, limits: Limits, key: string, now: int, sha256: seq<Byte> -> string)
    returns (result: Result<Artifact, ArtifactError>)
    modifies storage
    ensures |bytes| > limits.maxFileBytes ==> result == Err(TooLarge) && storage.objects == old(storage.objects)
    ensures |bytes| <= limits.maxFileBytes ==>
      && result == Ok(Artifact(key, |bytes|, sha256(bytes)))
      && storage.objects == old(storage.objects)[key := StoredObject(bytes, now)]
  {
    if |bytes| > limits.maxFileBytes { return Err(TooLarge); }
    storage.Put(key, bytes, now);
    return Ok(Artifact(key, |bytes|, sha256(bytes)));
  }

  /**
   * Whatever page boundaries do, a successful export reads back as the delivered rows, sanitized;
   * and those are all the rows in order exactly if every row that ends a page has a
   * whole-millisecond time.
   */
  lemma StreamedFileHoldsEveryRow(table: seq<Row>, headers: seq<string>, maxRows: nat)
    requires DistinctIds(table) && |Delivered(table, maxRows)| <= maxRows
    requires headers != [] && forall r :: r in table ==> r.fields != []
    ensures ReadFile(CsvFile(headers, FieldsOf(Delivered(table, maxRows))))
         == Some(SanitizedAll([headers] + FieldsOf(Delivered(table, maxRows))))
    ensures Delivered(table, maxRows) == OrderBy(table)
       <==> |table| <= maxRows && BoundariesWhole(OrderBy(table), 500, 0)
  {
    hide Follow, BoundariesWhole, OrderBy, ReadFile, CsvFile, SanitizedAll;
    var rows := Delivered(table, maxRows);
    SnapshotIsExactIff(table, maxRows);
    FollowedRowsAreInTable(table, None, EXPORT_PAGE_SIZE, maxRows, []);
    forall i | 0 <= i < |rows| ensures FieldsOf(rows)[i] != [] {
      FieldsAt(rows, i);
      assert rows[i] in rows;
    }
    BuiltFileReadsBack(headers, FieldsOf(rows));
  }

  lemma {:induction false} FieldsAt(rows: seq<Row>, i: nat)
    requires i < |rows|
    ensures FieldsOf(rows)[i] == rows[i].fields
  {
    if i < |rows| - 1 { FieldsAt(rows[..|rows| - 1], i); }
  }
}
