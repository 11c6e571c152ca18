/**
 * The CSV reader of the risk map: the text is cut into lines, blank lines
 * are dropped, the first line gives the headers and every later line becomes
 * one record, its comma-separated fields paired with the headers by position.
 * There is no quoting or escaping.
 */
module CsvTable {
  import opened Wrappers
  import opened JsText
  import opened JsArray

  /**
   * One record: header to field. A header whose line has too few fields is
   * still a key, holding `None` (JavaScript's `undefined`).
   */
  type Row = map<string, Option<string>>

  /** `row[h]`: undefined both when `h` is no key and when the key holds undefined. */
  function Get(row: Row, h: string): Option<string>
  {
    if h in row then row[h] else None
  }

  /** JavaScript truthiness of a field: present and not the empty string. */
  predicate Truthy(v: Option<string>)
  {
    v.Some? && v.value != ""
  }

  /** `values[i]`: undefined past the end. */
  function FieldAt(values: seq<string>, i: nat): (v: Option<string>)
    ensures v.Some? <==> i < |values|
    ensures i < |values| ==> v.value == values[i]
  {
    if i < |values| then Some(values[i]) else None
  }

  /** Position `i` is the last place its header appears. */
  predicate IsLastOccurrence(headers: seq<string>, i: nat)
    requires i < |headers|
  {
    forall j :: i < j < |headers| ==> headers[j] != headers[i]
  }

  /** The record that `headers.forEach((h, i) => obj[h] = values[i])` leaves, assignments taken in order. */
  function ZipRow(headers: seq<string>, values: seq<string>): Row
    decreases |headers|
  {
    if headers == [] then map[]
    else
      var n := |headers| - 1;
      ZipRow(headers[..n], values)[headers[n] := FieldAt(values, n)]
  }

  /** The record has exactly the headers as keys. */
  lemma {:induction false} ZipRowKeys(headers: seq<string>, values: seq<string>)
    ensures ZipRow(headers, values).Keys == set h | h in headers
    decreases |headers|
  {
    if headers != [] {
      var n := |headers| - 1;
      ZipRowKeys(headers[..n], values);
      assert headers == headers[..n] + [headers[n]];
      assert (set h | h in headers) == (set h | h in headers[..n]) + {headers[n]};
    }
  }

  /**
   * The field under a header is the one at the header's last position: the
   * field at the same position when the line is long enough, undefined
   * otherwise. Fields past the last header are never read.
   */
  lemma {:induction false} ZipRowField(headers: seq<string>, values: seq<string>, i: nat)
    requires i < |headers| && IsLastOccurrence(headers, i)
    ensures headers[i] in ZipRow(headers, values)
    ensures ZipRow(headers, values)[headers[i]] == FieldAt(values, i)
    decreases |headers|
  {
    var n := |headers| - 1;
    if i < n {
      assert headers[..n][i] == headers[i];
      assert IsLastOccurrence(headers[..n], i) by {
        forall j | i < j < n ensures headers[..n][j] != headers[..n][i] {
          assert headers[..n][j] == headers[j];
        }
      }
      ZipRowField(headers[..n], values, i);
    }
  }

  /**
   * Lines 69-70 of the reader: the record is built by assigning one header
   * after another into an initially empty object.
   */
  method BuildRow(headers: seq<string>, values: seq<string>) returns (row: Row)
    ensures row == ZipRow(headers, values)
    ensures row.Keys == set h | h in headers
    ensures forall i :: 0 <= i < |headers| && IsLastOccurrence(headers, i) ==> row[headers[i]] == FieldAt(values, i)
  {
    row := map[];
    var i := 0;
    while i < |headers|
      invariant 0 <= i <= |headers|
      invariant row == ZipRow(headers[..i], values)
    {
      assert headers[..i + 1][..i] == headers[..i];
      row := row[headers[i] := FieldAt(values, i)];
      i := i + 1;
    }
    assert headers[..i] == headers;
    ZipRowKeys(headers, values);
    forall i | 0 <= i < |headers| && IsLastOccurrence(headers, i) ensures row[headers[i]] == FieldAt(values, i) {
      ZipRowField(headers, values, i);
    }
  }

  /** `map(v => v.trim())`. */
  function TrimAll(parts: seq<string>): (r: seq<string>)
    ensures |r| == |parts|
    ensures forall i :: 0 <= i < |r| ==> r[i] == Trim(parts[i])
  {
    seq(|parts|, i requires 0 <= i < |parts| => Trim(parts[i]))
  }

  predicate IsBlank(line: string)
  {
    Trim(line) == ""
  }

  /** `filter(r => r.trim() !== '')`: the non-blank lines, in their order. */
  function KeepNonBlank(lines: seq<string>): (r: seq<string>)
    ensures |r| <= |lines|
  {
    Filter(lines, NonBlank)
  }

  /** The test the filter applies to each line. */
  predicate NonBlank(line: string)
  {
    !IsBlank(line)
  }

  /** The filter leaves no blank line. */
  lemma KeepNonBlankNoBlank(lines: seq<string>)
    ensures forall i :: 0 <= i < |KeepNonBlank(lines)| ==> !IsBlank(KeepNonBlank(lines)[i])
  {
    FilterAccepted(lines, NonBlank);
  }

  /** The filter keeps exactly the non-blank lines. */
  lemma KeepNonBlankKeeps(lines: seq<string>)
    ensures forall l :: l in KeepNonBlank(lines) <==> l in lines && !IsBlank(l)
  {
    FilterMembers(lines, NonBlank);
  }

  /** The filter works piece by piece: the kept lines stay in their order and keep their repetitions. */
  lemma KeepNonBlankConcat(a: seq<string>, b: seq<string>)
    ensures KeepNonBlank(a + b) == KeepNonBlank(a) + KeepNonBlank(b)
  {
    FilterConcat(a, b, NonBlank);
  }

  /** A table without blank lines is kept whole. */
  lemma KeepNonBlankWhole(lines: seq<string>)
    requires forall i :: 0 <= i < |lines| ==> !IsBlank(lines[i])
    ensures KeepNonBlank(lines) == lines
  {
    FilterWhole(lines, NonBlank);
  }

  function NonBlankLines(text: string): seq<string>
  {
    KeepNonBlank(Split(text, '\n'))
  }

  /** The header line split on commas, each header trimmed. */
  function HeadersOf(line: string): seq<string>
  {
    TrimAll(Split(line, ','))
  }

  /** One data line split on commas, each field trimmed, zipped with the headers. */
  function RowOfLine(headers: seq<string>, line: string): Row
  {
    ZipRow(headers, TrimAll(Split(line, ',')))
  }

  /** Text with no non-blank line makes `rows[0].split` throw, which ends the load. */
  datatype CsvError = NoHeaderLine

  datatype ParseResult = Parsed(rows: seq<Row>) | Failed(error: CsvError)

  /** `lines.map(...)`: one record per line, in order. */
  function DataRows(headers: seq<string>, lines: seq<string>): (rows: seq<Row>)
    ensures |rows| == |lines|
    decreases |lines|
  {
    if lines == [] then []
    else DataRows(headers, lines[..|lines| - 1]) + [RowOfLine(headers, lines[|lines| - 1])]
  }

  /** Record `i` comes from line `i`. */
  lemma {:induction false} DataRowsAt(headers: seq<string>, lines: seq<string>, i: nat)
    requires i < |lines|
    ensures DataRows(headers, lines)[i] == RowOfLine(headers, lines[i])
    decreases |lines|
  {
    var n := |lines| - 1;
    if i < n {
      DataRowsAt(headers, lines[..n], i);
    }
  }

  /** The table made from the non-blank lines: the first gives the headers, the rest the records. */
  function TableOf(lines: seq<string>): ParseResult
  {
    if lines == [] then Failed(NoHeaderLine)
    else Parsed(DataRows(HeadersOf(lines[0]), lines[1..]))
  }

  /** The table the reader produces from the CSV text (js/map.js lines 64-72). */
  function TableOfText(text: string): ParseResult
  {
    TableOf(NonBlankLines(text))
  }

  /** `slice(1).map(...)`: one record built per data line, in order. */
  method BuildRows(headers: seq<string>, lines: seq<string>) returns (rows: seq<Row>)
    ensures rows == DataRows(headers, lines)
  {
    rows := [];
    var i := 0;
    while i < |lines|
      invariant 0 <= i <= |lines|
      invariant rows == DataRows(headers, lines[..i])
    {
      var row := BuildRow(headers, TrimAll(Split(lines[i], ',')));
      assert lines[..i + 1][..i] == lines[..i];
      rows := rows + [row];
      i := i + 1;
    }
    assert lines[..i] == lines;
  }

  /** The reader once the lines are known: header line first, then each record in turn. */
  method ParseLines(lines: seq<string>) returns (result: ParseResult)
    ensures result == TableOf(lines)
  {
    if lines == [] {
      return Failed(NoHeaderLine);
    }
    var headers := HeadersOf(lines[0]);
    var rows := BuildRows(headers, lines[1..]);
    return Parsed(rows);
  }

  /** The reader: split and filter the lines, then build the table. */
  method ParseCsv(text: string) returns (result: ParseResult)
    ensures result == TableOfText(text)
  {
    var lines := NonBlankLines(text);
    result := ParseLines(lines);
  }

  /**
   * What the table made from non-blank lines holds: one record per line
   * after the header line; each record's keys are the trimmed headers; under
   * the header at (last) position j it holds the trimmed field j of its line
   * when the line has more than j fields, and undefined otherwise.
   */
  lemma TableShape(lines: seq<string>, i: nat, j: nat)
    requires lines != [] && i < |lines| - 1
    requires j < |HeadersOf(lines[0])| && IsLastOccurrence(HeadersOf(lines[0]), j)
    ensures TableOf(lines).Parsed? && |TableOf(lines).rows| == |lines| - 1
    ensures TableOf(lines).rows[i].Keys == set h | h in HeadersOf(lines[0])
    ensures var fields := Split(lines[i + 1], ',');
            TableOf(lines).rows[i][HeadersOf(lines[0])[j]]
            == if j < |fields| then Some(Trim(fields[j])) else None
  {
    var headers := HeadersOf(lines[0]);
    var values := TrimAll(Split(lines[i + 1], ','));
    DataRowsAt(headers, lines[1..], i);
    ZipRowKeys(headers, values);
    ZipRowField(headers, values, j);
  }

  /** Every field the reader stores has been trimmed. */
  predicate IsTrimmedRow(row: Row)
  {
    forall h :: h in row && row[h].Some? ==> IsTrimmed(row[h].value)
  }

  lemma {:induction false} ZipRowTrimmed(headers: seq<string>, values: seq<string>)
    requires forall i :: 0 <= i < |values| ==> IsTrimmed(values[i])
    ensures IsTrimmedRow(ZipRow(headers, values))
    decreases |headers|
  {
    if headers != [] {
      ZipRowTrimmed(headers[..|headers| - 1], values);
    }
  }

  lemma DataRowsTrimmed(headers: seq<string>, lines: seq<string>)
    ensures forall i :: 0 <= i < |lines| ==> IsTrimmedRow(DataRows(headers, lines)[i])
  {
    forall i | 0 <= i < |lines| ensures IsTrimmedRow(DataRows(headers, lines)[i]) {
      DataRowsAt(headers, lines, i);
      var values := TrimAll(Split(lines[i], ','));
      assert forall k :: 0 <= k < |values| ==> IsTrimmed(values[k]);
      ZipRowTrimmed(headers, values);
    }
  }

  lemma ParsedRowsTrimmed(text: string)
    requires TableOfText(text).Parsed?
    ensures forall i :: 0 <= i < |TableOfText(text).rows| ==> IsTrimmedRow(TableOfText(text).rows[i])
  {
    var lines := NonBlankLines(text);
    DataRowsTrimmed(HeadersOf(lines[0]), lines[1..]);
  }
}
