/**
 * The CSV printer, its formula-injection sanitizer, and a reader for the grammar
 * in section 2 of RFC 4180 that gives back what was printed.
 */
module Csv {
  import opened Wrappers

  type Byte = b: int | 0 <= b < 256

  const CSV_UTF8_BOM: seq<Byte> := [0xEF, 0xBB, 0xBF]
  const CSV_LINE_ENDING: string := "\r\n"

  // ---------- sanitizing and printing ----------

  predicate IsDangerous(value: string) {
    value != "" && value[0] in ['=', '+', '-', '@', '\t', '\r']
  }

  function SanitizeSpreadsheetText(value: string): string {
    if IsDangerous(value) then "'" + value else value
  }

  predicate NeedsQuotes(c: char) { c == '"' || c == ',' || c == '\r' || c == '\n' }

  /** `value.replace(/"/g, '""')` */
  function DoubleQuotes(value: string): string {
    if value == "" then ""
    else (if value[0] == '"' then "\"\"" else [value[0]]) + DoubleQuotes(value[1..])
  }

  function EscapeCsvField(value: string): string {
    var sanitized := SanitizeSpreadsheetText(value);
    if exists i :: 0 <= i < |sanitized| && NeedsQuotes(sanitized[i]) then "\"" + (DoubleQuotes(sanitized) + "\"")
    else sanitized
  }

  /** `fields.map(escapeCsvField).join(',')` */
  function JoinEscaped(fields: seq<string>): string {
    if fields == [] then ""
    else if |fields| == 1 then EscapeCsvField(fields[0])
    else EscapeCsvField(fields[0]) + ("," + JoinEscaped(fields[1..]))
  }

  function CsvRecord(fields: seq<string>): string { JoinEscaped(fields) + CSV_LINE_ENDING }

  function CsvText(records: seq<seq<string>>): string {
    if records == [] then "" else CsvRecord(records[0]) + CsvText(records[1..])
  }

  // ---------- UTF-8 ----------

  function EncodeChar(c: char): (bytes: seq<Byte>)
    ensures 1 <= |bytes| <= 4
  {
    var n := c as int;
    if n < 0x80 then [n]
    else if n < 0x800 then [0xC0 + n / 0x40, 0x80 + n % 0x40]
    else if n < 0x1_0000 then [0xE0 + n / 0x1000, 0x80 + n / 0x40 % 0x40, 0x80 + n % 0x40]
    else [0xF0 + n / 0x4_0000, 0x80 + n / 0x1000 % 0x40, 0x80 + n / 0x40 % 0x40, 0x80 + n % 0x40]
  }

  /** `new TextEncoder().encode(s)` */
  function Encode(s: string): seq<Byte> {
    if s == "" then [] else EncodeChar(s[0]) + Encode(s[1..])
  }

  function EncodeCsvRecord(fields: seq<string>): seq<Byte> { Encode(CsvRecord(fields)) }

  function EncodeRecords(records: seq<seq<string>>): seq<Byte> {
    if records == [] then [] else EncodeCsvRecord(records[0]) + EncodeRecords(records[1..])
  }

  /** The whole file: the mark, the header record and one record per row. */
  function CsvFile(headers: seq<string>, rows: seq<seq<string>>): seq<Byte> {
    CSV_UTF8_BOM + EncodeRecords([headers] + rows)
  }

  function TotalLength(chunks: seq<seq<Byte>>): nat {
    if chunks == [] then 0 else TotalLength(chunks[..|chunks| - 1]) + |chunks[|chunks| - 1]|
  }

  function Flatten(chunks: seq<seq<Byte>>): (bytes: seq<Byte>)
    ensures |bytes| == TotalLength(chunks)
  {
    if chunks == [] then [] else Flatten(chunks[..|chunks| - 1]) + chunks[|chunks| - 1]
  }

  /** Collects the chunks and copies them one after the other into a buffer of their total size. */
  method BuildCsv(rows: seq<seq<string>>, headers: seq<string>) returns (output: array<Byte>)
    ensures fresh(output) && output[..] == CsvFile(headers, rows)
  {
    hide EncodeCsvRecord, TotalLength, Flatten;
    var chunks: seq<seq<Byte>> := [CSV_UTF8_BOM];
    chunks := chunks + [EncodeCsvRecord(headers)];
    FlattenSnoc([CSV_UTF8_BOM], EncodeCsvRecord(headers));
    assert Flatten([CSV_UTF8_BOM]) == CSV_UTF8_BOM by { FlattenOne(CSV_UTF8_BOM); }
    assert [headers] + rows[..0] == [headers];
    EncodeOneRecord(headers);
    for i := 0 to |rows|
      invariant Flatten(chunks) == CSV_UTF8_BOM + EncodeRecords([headers] + rows[..i])
    {
      ghost var done := [headers] + rows[..i];
      assert [headers] + rows[..i + 1] == done + [rows[i]];
      EncodeRecordsSnoc(done, rows[i]);
      FlattenSnoc(chunks, EncodeCsvRecord(rows[i]));
      chunks := chunks + [EncodeCsvRecord(rows[i])];
    }
    assert rows[..|rows|] == rows;
    output := CopyChunks(chunks);
  }

  method CopyChunks(chunks: seq<seq<Byte>>) returns (output: array<Byte>)
    ensures fresh(output) && output[..] == Flatten(chunks)
  {
    hide TotalLength, Flatten;
    output := new Byte[TotalLength(chunks)];
    var offset := 0;
    NoChunks();
    for i := 0 to |chunks|
      invariant offset == TotalLength(chunks[..i]) <= output.Length
      invariant output[..offset] == Flatten(chunks[..i])
    {
      var chunk := chunks[i];
      assert chunks[..i + 1] == chunks[..i] + [chunk];
      FlattenSnoc(chunks[..i], chunk);
      PrefixIsShorter(chunks, i + 1);
      assert offset + |chunk| <= output.Length;
      ghost var before := output[..offset];
      forall k | 0 <= k < |chunk| { output[offset + k] := chunk[k]; }
      assert output[..offset] == before;
      assert output[..offset + |chunk|] == output[..offset] + chunk;
      offset := offset + |chunk|;
    }
    assert chunks[..|chunks|] == chunks;
    assert output[..offset] == output[..];
  }

  lemma NoChunks()
    ensures Flatten([]) == [] && TotalLength([]) == 0
  {
  }

  lemma FlattenOne(chunk: seq<Byte>)
    ensures Flatten([chunk]) == chunk
  {
    assert [chunk][..0] == [];
  }

  lemma FlattenSnoc(chunks: seq<seq<Byte>>, chunk: seq<Byte>)
    ensures Flatten(chunks + [chunk]) == Flatten(chunks) + chunk
    ensures TotalLength(chunks + [chunk]) == TotalLength(chunks) + |chunk|
  {
    assert (chunks + [chunk])[..|chunks|] == chunks;
  }

  lemma {:induction false} PrefixIsShorter(chunks: seq<seq<Byte>>, i: nat)
    requires i <= |chunks|
    ensures TotalLength(chunks[..i]) <= TotalLength(chunks)
    decreases |chunks|
  {
    if i < |chunks| {
      var init := chunks[..|chunks| - 1];
      PrefixIsShorter(init, i);
      assert init[..i] == chunks[..i];
    } else {
      assert chunks[..i] == chunks;
    }
  }

  lemma EncodeOneRecord(r: seq<string>)
    ensures EncodeRecords([r]) == EncodeCsvRecord(r)
  {
    assert [r][1..] == [];
  }

  lemma {:induction false} EncodeRecordsSnoc(records: seq<seq<string>>, r: seq<string>)
    ensures EncodeRecords(records + [r]) == EncodeRecords(records) + EncodeCsvRecord(r)
  {
    hide EncodeCsvRecord;
    if records == [] {
      EncodeOneRecord(r);
      assert records + [r] == [r];
    } else {
      assert (records + [r])[1..] == records[1..] + [r];
      EncodeRecordsSnoc(records[1..], r);
    }
  }

  // ---------- reading ----------

  /** Reads a quoted field after its opening quote. */
  function ReadQuoted(s: string): (r: Option<(string, string)>)
    ensures r.Some? ==> |r.value.1| < |s|
    decreases |s|
  {
    if s == "" then None
    else if s[0] != '"' then
      var tail :- ReadQuoted(s[1..]);
      Some(([s[0]] + tail.0, tail.1))
    else if |s| > 1 && s[1] == '"' then
      var tail :- ReadQuoted(s[2..]);
      Some((['"'] + tail.0, tail.1))
    else Some(("", s[1..]))
  }

  /** Reads an unquoted field up to a comma, quote or line break. */
  function ReadPlain(s: string): (r: (string, string))
    ensures r.0 + r.1 == s
  {
    if s == "" || NeedsQuotes(s[0]) then ("", s)
    else
      var tail := ReadPlain(s[1..]);
      ([s[0]] + tail.0, tail.1)
  }

  function ReadField(s: string): (r: Option<(string, string)>)
    ensures r.Some? ==> |r.value.1| <= |s|
    ensures r.Some? && s != "" && s[0] == '"' ==> |r.value.1| < |s|
  {
    if s != "" && s[0] == '"' then ReadQuoted(s[1..]) else Some(ReadPlain(s))
  }

  /** record = field *(COMMA field), ended by CRLF or, for the last record, by the end of the file. */
  function ReadRecord(s: string): (r: Option<(seq<string>, string)>)
    ensures r.Some? && s != "" ==> |r.value.1| < |s|
    decreases |s|
  {
    var field :- ReadField(s);
    var rest := field.1;
    if rest == "" then Some(([field.0], ""))
    else if rest[0] == ',' then
      var tail :- ReadRecord(rest[1..]);
      Some(([field.0] + tail.0, tail.1))
    else if CSV_LINE_ENDING <= rest then Some(([field.0], rest[2..]))
    else None
  }

  /** file = record *(CRLF record) [CRLF] */
  function ReadCsv(s: string): Option<seq<seq<string>>>
    decreases |s|
  {
    if s == "" then Some([])
    else
      var record :- ReadRecord(s);
      var tail :- ReadCsv(record.1);
      Some([record.0] + tail)
  }

  // ---------- the sanitizer ----------

  /** Sanitized text never starts with a command prefix, and sanitizing it again changes nothing. */
  lemma SanitizedIsSafe(value: string)
    ensures var safe := SanitizeSpreadsheetText(value);
      safe != "" ==> safe[0] != '=' && safe[0] != '+' && safe[0] != '-' && safe[0] != '@' && safe[0] != '\t' && safe[0] != '\r'
    ensures SanitizeSpreadsheetText(value) == value || SanitizeSpreadsheetText(value) == "'" + value
    ensures !IsDangerous(SanitizeSpreadsheetText(value))
    ensures SanitizeSpreadsheetText(SanitizeSpreadsheetText(value)) == SanitizeSpreadsheetText(value)
    ensures SanitizeSpreadsheetText(value) == value <==>
      value == "" || !(value[0] == '=' || value[0] == '+' || value[0] == '-' || value[0] == '@' || value[0] == '\t' || value[0] == '\r')
    ensures SanitizeSpreadsheetText(value) == value <==> !IsDangerous(value)
  {
    assert ("'" + value)[0] == '\'';
    if IsDangerous(value) { assert |"'" + value| == |value| + 1; }
  }

  /** Sanitizing loses only the difference between a dangerous text and the same text already quoted. */
  lemma SanitizerCollisions(a: string, b: string)
    requires a != b
    ensures SanitizeSpreadsheetText(a) == SanitizeSpreadsheetText(b)
       <==> (IsDangerous(a) && b == "'" + a) || (IsDangerous(b) && a == "'" + b)
  {
    SanitizedIsSafe(a);
    SanitizedIsSafe(b);
    assert ("'" + a)[1..] == a && ("'" + b)[1..] == b;
  }

  /** A field is quoted exactly if its text has a quote, a comma or a line break; inside, quotes are doubled. */
  lemma QuotedIff(value: string)
    ensures var text, field := SanitizeSpreadsheetText(value), EscapeCsvField(value);
      if '"' in text || ',' in text || '\r' in text || '\n' in text then
        2 <= |field| && field[0] == '"' && field[|field| - 1] == '"' && field[1..|field| - 1] == DoubleQuotes(text)
      else field == text
  {
    hide DoubleQuotes, SanitizeSpreadsheetText;
  }

  // ---------- reading undoes printing ----------

  function Sanitized(fields: seq<string>): (r: seq<string>)
    ensures |r| == |fields|
  {
    if fields == [] then [] else [SanitizeSpreadsheetText(fields[0])] + Sanitized(fields[1..])
  }

  /** A record of no fields prints as an empty line, which reads as one empty field. */
  function Shown(fields: seq<string>): seq<string> { if fields == [] then [""] else Sanitized(fields) }

  function ShownAll(records: seq<seq<string>>): (r: seq<seq<string>>)
    ensures |r| == |records|
    ensures forall i :: 0 <= i < |r| ==> r[i] == Shown(records[i])
  {
    if records == [] then [] else [Shown(records[0])] + ShownAll(records[1..])
  }

  /** What may follow a printed field: a comma or a line ending. */
  predicate EndsField(rest: string) { rest != "" && (rest[0] == ',' || CSV_LINE_ENDING <= rest) }

  lemma {:induction false} ReadQuotedOfDoubled(v: string, rest: string)
    requires rest == "" || rest[0] != '"'
    ensures ReadQuoted(DoubleQuotes(v) + ("\"" + rest)) == Some((v, rest))
  {
    var s := DoubleQuotes(v) + ("\"" + rest);
    if v == "" {
      assert s == "\"" + rest;
      assert s[1..] == rest;
    } else {
      var tail := DoubleQuotes(v[1..]) + ("\"" + rest);
      ReadQuotedOfDoubled(v[1..], rest);
      assert v == [v[0]] + v[1..];
      if v[0] == '"' {
        assert s[2..] == tail;
      } else {
        assert s[1..] == tail;
      }
    }
  }

  lemma {:induction false} ReadPlainOfClean(v: string, rest: string)
    requires forall i :: 0 <= i < |v| ==> !NeedsQuotes(v[i])
    requires EndsField(rest)
    ensures ReadPlain(v + rest) == (v, rest)
  {
    if v == "" {
      assert v + rest == rest;
    } else {
      assert (v + rest)[1..] == v[1..] + rest;
      ReadPlainOfClean(v[1..], rest);
      assert v == [v[0]] + v[1..];
    }
  }

  lemma ReadFieldOfEscaped(v: string, rest: string)
    requires EndsField(rest)
    ensures ReadField(EscapeCsvField(v) + rest) == Some((SanitizeSpreadsheetText(v), rest))
  {
    var t := SanitizeSpreadsheetText(v);
    hide SanitizeSpreadsheetText, ReadQuoted, ReadPlain, DoubleQuotes;
    if exists i :: 0 <= i < |t| && NeedsQuotes(t[i]) {
      var s := EscapeCsvField(v) + rest;
      assert s[1..] == DoubleQuotes(t) + ("\"" + rest);
      ReadQuotedOfDoubled(t, rest);
    } else {
      ReadPlainOfClean(t, rest);
      if t != "" { assert !NeedsQuotes(t[0]); }
      assert t + rest != "" && (t + rest)[0] == if t == "" then rest[0] else t[0];
    }
  }

  lemma {:induction false} ReadRecordOfPrinted(fields: seq<string>, rest: string)
    requires fields != []
    ensures ReadRecord(JoinEscaped(fields) + (CSV_LINE_ENDING + rest)) == Some((Sanitized(fields), rest))
    decreases |fields|
  {
    hide EscapeCsvField, SanitizeSpreadsheetText, ReadField;
    var end := CSV_LINE_ENDING + rest;
    if |fields| == 1 {
      ReadFieldOfEscaped(fields[0], end);
      assert end[2..] == rest;
      assert Sanitized(fields) == [SanitizeSpreadsheetText(fields[0])];
    } else {
      var tail := JoinEscaped(fields[1..]) + end;
      assert JoinEscaped(fields) + end == EscapeCsvField(fields[0]) + ("," + tail);
      ReadFieldOfEscaped(fields[0], "," + tail);
      assert ("," + tail)[1..] == tail;
      ReadRecordOfPrinted(fields[1..], rest);
    }
  }

  lemma ReadEmptyLine(rest: string)
    ensures ReadRecord(CSV_LINE_ENDING + rest) == Some(([""], rest))
  {
    var s := CSV_LINE_ENDING + rest;
    assert s[0] == '\r' && s[2..] == rest;
    assert ReadPlain(s) == ("", s);
  }

  /** Reading the printed records gives back each sanitized record, with an empty one read as one empty field. */
  lemma {:induction false} ReadCsvOfPrinted(records: seq<seq<string>>)
    ensures ReadCsv(CsvText(records)) == Some(ShownAll(records))
  {
    hide JoinEscaped, ReadRecord, Sanitized;
    if records != [] {
      var tail := CsvText(records[1..]);
      ReadCsvOfPrinted(records[1..]);
      assert CsvText(records) == JoinEscaped(records[0]) + (CSV_LINE_ENDING + tail) && CsvText(records) != "";
      hide CsvText, CsvRecord;
      if records[0] == [] {
        assert JoinEscaped([]) == "" by { JoinNothing(); }
        assert CsvText(records) == CSV_LINE_ENDING + tail;
        ReadEmptyLine(tail);
      } else {
        ReadRecordOfPrinted(records[0], tail);
      }
    }
  }

  lemma JoinNothing()
    ensures JoinEscaped([]) == ""
  {
  }

  function SanitizedAll(records: seq<seq<string>>): (r: seq<seq<string>>)
    ensures |r| == |records|
    ensures forall i :: 0 <= i < |r| ==> r[i] == Sanitized(records[i])
  {
    if records == [] then [] else [Sanitized(records[0])] + SanitizedAll(records[1..])
  }

  /** A record without fields comes back with one empty field. */
  lemma EmptyRecordComesBackWithAField()
    ensures ReadCsv(CsvText([[]])) == Some([[""]])
  {
    hide ReadCsv, CsvText, ShownAll;
    var records: seq<seq<string>> := [[]];
    ReadCsvOfPrinted(records);
    var shown := ShownAll(records);
    assert |shown| == 1 && shown[0] == Shown(records[0]);
    assert shown == [[""]];
  }

  /** The file reads back as exactly the sanitized records if and only if no record is empty. */
  lemma RoundTripIffNoEmptyRecord(records: seq<seq<string>>)
    ensures ReadCsv(CsvText(records)) == Some(SanitizedAll(records))
       <==> forall i :: 0 <= i < |records| ==> records[i] != []
  {
    hide ReadCsv, CsvText, Sanitized;
    ReadCsvOfPrinted(records);
    if ShownAll(records) == SanitizedAll(records) {
      forall i | 0 <= i < |records| ensures records[i] != [] {
        assert ShownAll(records)[i] == SanitizedAll(records)[i];
      }
    } else {
      var i :| 0 <= i < |records| && ShownAll(records)[i] != SanitizedAll(records)[i];
    }
  }

  // ---------- bytes ----------

  /** Number of bytes the first byte of a character announces. */
  function CharLength(first: Byte): nat {
    if first < 0x80 then 1 else if first < 0xE0 then 2 else if first < 0xF0 then 3 else 4
  }

  predicate IsScalar(n: int) { 0 <= n < 0xD800 || 0xE000 <= n < 0x11_0000 }

  /** The number spelled by the bytes of one character. */
  function CodePoint(b: seq<Byte>): int
    requires 1 <= |b| <= 4
  {
    if |b| == 1 then Bits(b[0], 0)
    else if |b| == 2 then Bits(b[0], 0xC0) * 0x40 + Bits(b[1], 0x80)
    else if |b| == 3 then Bits(b[0], 0xE0) * 0x1000 + Bits(b[1], 0x80) * 0x40 + Bits(b[2], 0x80)
    else Bits(b[0], 0xF0) * 0x4_0000 + Bits(b[1], 0x80) * 0x1000 + Bits(b[2], 0x80) * 0x40 + Bits(b[3], 0x80)
  }

  /** The payload of a byte whose marker bits are `marker`. */
  function Bits(b: Byte, marker: int): int { b - marker }

  function Decode(bytes: seq<Byte>): Option<string>
    decreases |bytes|
  {
    if bytes == [] then Some("")
    else
      var n := CharLength(bytes[0]);
      if |bytes| < n || !IsScalar(CodePoint(bytes[..n])) then None
      else
        var tail :- Decode(bytes[n..]);
        Some([CodePoint(bytes[..n]) as char] + tail)
  }

  lemma EncodedCharReads(c: char)
    ensures CharLength(EncodeChar(c)[0]) == |EncodeChar(c)|
    ensures CodePoint(EncodeChar(c)) == c as int && IsScalar(c as int)
  {
    var n := c as int;
    assert n / 0x1000 == n / 0x40 / 0x40;
    assert n / 0x4_0000 == n / 0x1000 / 0x40;
  }

  lemma {:induction false} DecodeUndoesEncode(s: string)
    ensures Decode(Encode(s)) == Some(s)
  {
    if s != "" {
      hide EncodeChar, CodePoint, CharLength;
      var head, tail := EncodeChar(s[0]), Encode(s[1..]);
      EncodedCharReads(s[0]);
      assert (head + tail)[..|head|] == head && (head + tail)[|head|..] == tail && (head + tail)[0] == head[0];
      DecodeUndoesEncode(s[1..]);
      assert s == [s[0]] + s[1..];
    }
  }

  lemma {:induction false} EncodeConcat(a: string, b: string)
    ensures Encode(a + b) == Encode(a) + Encode(b)
  {
    hide EncodeChar;
    if a == "" {
      assert a + b == b;
    } else {
      assert (a + b)[1..] == a[1..] + b;
      EncodeConcat(a[1..], b);
    }
  }

  lemma {:induction false} EncodeRecordsIsText(records: seq<seq<string>>)
    ensures EncodeRecords(records) == Encode(CsvText(records))
  {
    hide CsvRecord, Encode;
    if records == [] {
      assert Encode("") == [] by { EncodeNothing(); }
    } else {
      EncodeRecordsIsText(records[1..]);
      EncodeConcat(CsvRecord(records[0]), CsvText(records[1..]));
    }
  }

  lemma EncodeNothing()
    ensures Encode("") == []
  {
  }

  /** Reads a file's bytes: the mark, then UTF-8, then the CSV grammar. */
  function ReadFile(bytes: seq<Byte>): Option<seq<seq<string>>> {
    if !(CSV_UTF8_BOM <= bytes) then None
    else
      var text :- Decode(bytes[3..]);
      ReadCsv(text)
  }

  /** The bytes of a built file read back as the sanitized header and rows, when none of them is empty. */
  lemma BuiltFileReadsBack(headers: seq<string>, rows: seq<seq<string>>)
    ensures ReadFile(CsvFile(headers, rows)) == Some(ShownAll([headers] + rows))
    ensures ReadFile(CsvFile(headers, rows)) == Some(SanitizedAll([headers] + rows))
       <==> headers != [] && forall i :: 0 <= i < |rows| ==> rows[i] != []
  {
    hide ReadCsv, CsvText, Encode, Decode, EncodeRecords, ShownAll, SanitizedAll;
    var records := [headers] + rows;
    EncodeRecordsIsText(records);
    DecodeUndoesEncode(CsvText(records));
    assert CsvFile(headers, rows)[3..] == Encode(CsvText(records));
    ReadCsvOfPrinted(records);
    RoundTripIffNoEmptyRecord(records);
    assert records[0] == headers && forall i :: 0 <= i < |rows| ==> records[i + 1] == rows[i];
    assert (forall i :: 0 <= i < |records| ==> records[i] != [])
      <==> headers != [] && forall i :: 0 <= i < |rows| ==> rows[i] != [] by {
      if headers != [] && forall i :: 0 <= i < |rows| ==> rows[i] != [] {
        forall i | 0 <= i < |records| ensures records[i] != [] {
          if i > 0 { assert records[i] == rows[i - 1]; }
        }
      }
    }
  }
}
