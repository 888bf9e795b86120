/**
 * The CSV codec, one level above the CSV text reader and writer: a data row
 * is a map from header name to cell text, as the reader delivers it with
 * header mapping and blank lines skipped.
 */
module CsvParser {
  import opened TaskTypes

  /** A data row: header name to cell text. A header the row lacks has no entry. */
  type Row = map<string, string>

  /** What is handed to the CSV writer: the header row in column order, and the records. */
  datatype Table = Table(fields: seq<string>, rows: seq<Row>)

  /** The two texts produced by one export. */
  datatype Export = Export(calendarCsv: Table, openCsv: Table)

  datatype Result<T> = Success(value: T) | Failure(message: string)

  const CalendarRequired: seq<string> := ["Title", "Details", "Date", "Status"]
  const OpenRequired: seq<string> := ["Title", "Details", "Status"]
  const CalendarColumns: seq<string> := ["Date", "Title", "Details", "Status"]
  const OpenColumns: seq<string> := ["Title", "Details", "Status"]

  predicate NoDuplicates<T(==)>(s: seq<T>) {
    forall i, j :: 0 <= i < j < |s| ==> s[i] != s[j]
  }

  /** a occurs in b with its elements in the same relative order. */
  predicate IsSubsequence<T(==)>(a: seq<T>, b: seq<T>)
    decreases |b|
  {
    if a == [] then true
    else if b == [] then false
    else if a[0] == b[0] then IsSubsequence(a[1..], b[1..])
    else IsSubsequence(a, b[1..])
  }

  lemma {:induction false} SubsequenceMembers<T>(a: seq<T>, b: seq<T>, x: T)
    requires IsSubsequence(a, b) && x in a
    ensures x in b
    decreases |b|
  {
    if a[0] == b[0] {
      if x != a[0] {
        SubsequenceMembers(a[1..], b[1..], x);
      }
    } else {
      SubsequenceMembers(a, b[1..], x);
    }
  }

  function TotalLength(parts: seq<string>): nat {
    if parts == [] then 0 else |parts[0]| + TotalLength(parts[1..])
  }

  /**
   * Array.prototype.join: the parts in order with one separator between each
   * neighbouring pair, so the result is as long as the parts together plus one
   * separator fewer than there are parts.
   */
  function Join(parts: seq<string>, sep: string): (r: string)
    ensures |r| == TotalLength(parts) + (if parts == [] then 0 else (|parts| - 1) * |sep|)
    ensures parts != [] ==> r[..|parts[0]|] == parts[0]
  {
    if parts == [] then ""
    else if |parts| == 1 then parts[0]
    else parts[0] + sep + Join(parts[1..], sep)
  }

  /**
   * Where part k of a joined text starts: after part k - 1 and the separator
   * that follows it.
   */
  function PartStart(parts: seq<string>, sep: string, k: nat): nat
    requires k <= |parts|
  {
    if k == 0 then 0 else PartStart(parts, sep, k - 1) + |parts[k - 1]| + |sep|
  }

  /** Past the first part and its separator, the starts are those of the remaining parts. */
  lemma {:induction false} PartStartAfterFirst(parts: seq<string>, sep: string, k: nat)
    requires 0 < k <= |parts|
    ensures PartStart(parts, sep, k) == |parts[0]| + |sep| + PartStart(parts[1..], sep, k - 1)
  {
    if k > 1 {
      PartStartAfterFirst(parts, sep, k - 1);
    }
  }

  /**
   * Each part sits at its start in the joined text, character by character,
   * and a separator follows it unless it is the last, whose end is the end of
   * the text. The parts and separators so placed tile the whole result, so
   * this fixes every character of it.
   */
  lemma {:induction false} JoinPlacesParts(parts: seq<string>, sep: string, k: nat)
    requires k < |parts|
    ensures var r, o, n := Join(parts, sep), PartStart(parts, sep, k), |parts[k]|;
      && o + n <= |r|
      && (forall j :: 0 <= j < n ==> r[o + j] == parts[k][j])
      && (k + 1 < |parts| ==> o + n + |sep| <= |r| && forall j :: 0 <= j < |sep| ==> r[o + n + j] == sep[j])
      && (k + 1 == |parts| ==> o + n == |r|)
    decreases k
  {
    if k > 0 {
      var rest := parts[1..];
      JoinPlacesParts(rest, sep, k - 1);
      PartStartAfterFirst(parts, sep, k);
      var a, b := parts[0] + sep, Join(rest, sep);
      assert Join(parts, sep) == a + b;
      assert rest[k - 1] == parts[k];
      assert PartStart(parts, sep, k) == |a| + PartStart(rest, sep, k - 1);
    } else if |parts| > 1 {
      assert Join(parts, sep) == parts[0] + sep + Join(parts[1..], sep);
    }
  }

  /** The required names that are not among the keys, in required order. */
  function MissingFields(keys: set<string>, required: seq<string>): (missing: seq<string>)
    ensures forall f :: f in missing <==> f in required && f !in keys
    ensures IsSubsequence(missing, required)
  {
    if required == [] then []
    else
      var rest := MissingFields(keys, required[1..]);
      if required[0] in keys then
        assert rest == [] || rest[0] != required[0];
        rest
      else [required[0]] + rest
  }

  /**
   * With distinct required names, MissingFields is the only sub-sequence of
   * the required names holding exactly the absent ones.
   */
  lemma {:induction false} MissingFieldsUnique(keys: set<string>, required: seq<string>, m: seq<string>)
    requires NoDuplicates(required)
    requires IsSubsequence(m, required)
    requires forall f :: f in m <==> f in required && f !in keys
    ensures m == MissingFields(keys, required)
    decreases |required|
  {
    if required == [] {
      assert m == [];
    } else {
      var r0, rest := required[0], required[1..];
      assert NoDuplicates(rest);
      assert r0 !in rest;
      if r0 in keys {
        assert r0 !in m;
        assert IsSubsequence(m, rest);
        forall f ensures f in m <==> f in rest && f !in keys {
          if f in rest { assert f in required; }
          if f in m { assert f in required && f != r0; }
        }
        MissingFieldsUnique(keys, rest, m);
      } else {
        assert r0 in m;
        if m[0] != r0 {
          SubsequenceMembers(m, rest, r0);
          assert false;
        }
        var tail := m[1..];
        assert IsSubsequence(tail, rest);
        forall f ensures f in tail <==> f in rest && f !in keys {
          if f in tail {
            SubsequenceMembers(tail, rest, f);
            assert f in m;
          }
          if f in rest && f !in keys {
            assert f in required && f in m && f != r0;
            assert f == m[0] || f in tail;
          }
        }
        MissingFieldsUnique(keys, rest, tail);
        assert m == [r0] + tail;
      }
    }
  }

  /**
   * validateCSV: rejects an empty row list, then names the required fields
   * missing from the FIRST row's keys; later rows are not inspected.
   */
  function ValidateCsv(data: seq<Row>, required: seq<string>): (r: Result<()>)
    ensures data == [] ==> r == Failure("CSV is empty")
    ensures data != [] ==> (r.Success? <==> forall f :: f in required ==> f in data[0])
    ensures data != [] && r.Failure? ==>
              r.message == "Missing required fields: " + Join(MissingFields(data[0].Keys, required), ", ")
  {
    if data == [] then Failure("CSV is empty")
    else
      var missing := MissingFields(data[0].Keys, required);
      if |missing| > 0 then
        assert missing[0] in missing;
        Failure("Missing required fields: " + Join(missing, ", "))
      else Success(())
  }

  /** The cell under a header, absent when the row lacks that header (`row.X`). */
  function Cell(row: Row, name: string): Option<string> {
    if name in row then Some(row[name]) else None
  }

  /** `cell || ''`: an absent or empty cell becomes the empty string. */
  function TextOrEmpty(cell: Option<string>): (r: string)
    ensures cell.None? ==> r == ""
    ensures cell.Some? ==> r == cell.value
  {
    match cell
    case None => ""
    case Some(v) => if v == "" then "" else v
  }

  /** String.prototype.toLowerCase restricted to ASCII letters. */
  function AsciiLower(c: char): char {
    if 'A' <= c <= 'Z' then (c as int + ('a' as int - 'A' as int)) as char else c
  }

  function LowerAscii(s: string): string {
    seq(|s|, i requires 0 <= i < |s| => AsciiLower(s[i]))
  }

  /** a and b agree letter by letter once ASCII capitals are folded to lower case. */
  predicate EqualsIgnoringAsciiCase(a: string, b: string) {
    |a| == |b| && forall i :: 0 <= i < |a| ==> AsciiLower(a[i]) == AsciiLower(b[i])
  }

  /**
   * `cell?.toLowerCase() === 'completed' ? 'completed' : 'open'`: completed
   * exactly when the cell is present and reads "completed" in any case.
   */
  function DecodeStatus(cell: Option<string>): (s: Status)
    ensures s == Completed <==> cell.Some? && EqualsIgnoringAsciiCase(cell.value, "completed")
  {
    assert forall i :: 0 <= i < |"completed"| ==> AsciiLower("completed"[i]) == "completed"[i];
    if cell.Some? && LowerAscii(cell.value) == "completed" then Completed else Open
  }

  /** Decoding is case-insensitive and sends everything else, absence included, to open. */
  lemma DecodeStatusExamples()
    ensures DecodeStatus(Some("completed")) == Completed
    ensures DecodeStatus(Some("Completed")) == Completed
    ensures DecodeStatus(Some("COMPLETED")) == Completed
    ensures DecodeStatus(Some("Open")) == Open
    ensures DecodeStatus(Some("done")) == Open
    ensures DecodeStatus(Some("")) == Open
    ensures DecodeStatus(None) == Open
  {
  }

  /** A status written out by the encoder decodes to itself. */
  lemma DecodeStatusText(s: Status)
    ensures DecodeStatus(Some(StatusText(s))) == s
  {
  }

  /**
   * One row of the calendar file as a record: the supplied id (never a cell of
   * the row), no priority, the Title, Details and Date cells or "" in their
   * absence, and status completed exactly when the Status cell reads
   * "completed" in any case.
   */
  function DecodeCalendarRow(row: Row, id: string): (t: Task)
    ensures t.CalendarTask? && t.id == id && t.priority == None
    ensures t.title == (if "Title" in row then row["Title"] else "")
    ensures t.details == (if "Details" in row then row["Details"] else "")
    ensures t.date == (if "Date" in row then row["Date"] else "")
    ensures t.status == Completed <==> "Status" in row && EqualsIgnoringAsciiCase(row["Status"], "completed")
  {
    CalendarTask(id, TextOrEmpty(Cell(row, "Title")), TextOrEmpty(Cell(row, "Details")),
                 DecodeStatus(Cell(row, "Status")), None, TextOrEmpty(Cell(row, "Date")))
  }

  /**
   * One row of the open-tasks file as a record: the supplied id, no priority,
   * the Title and Details cells or "" in their absence, and status completed
   * exactly when the Status cell reads "completed" in any case.
   */
  function DecodeOpenRow(row: Row, id: string): (t: Task)
    ensures t.OpenTask? && t.id == id && t.priority == None
    ensures t.title == (if "Title" in row then row["Title"] else "")
    ensures t.details == (if "Details" in row then row["Details"] else "")
    ensures t.status == Completed <==> "Status" in row && EqualsIgnoringAsciiCase(row["Status"], "completed")
  {
    OpenTask(id, TextOrEmpty(Cell(row, "Title")), TextOrEmpty(Cell(row, "Details")),
             DecodeStatus(Cell(row, "Status")), None)
  }

  function DecodeRow(kind: TaskType, row: Row, id: string): Task {
    match kind
    case CalendarType => DecodeCalendarRow(row, id)
    case OpenType => DecodeOpenRow(row, id)
  }

  /**
   * `data.map(row => ...)`: row i becomes record i, which takes the i-th id of
   * the supply. The supply stands in for the random identifier generator.
   */
  function DecodeRows(kind: TaskType, data: seq<Row>, ids: seq<string>): (r: seq<Task>)
    requires |data| <= |ids|
    ensures |r| == |data|
    ensures forall i :: 0 <= i < |data| ==> r[i] == DecodeRow(kind, data[i], ids[i])
  {
    if data == [] then []
    else [DecodeRow(kind, data[0], ids[0])] + DecodeRows(kind, data[1..], ids[1..])
  }

  /** parseCalendarTasks, from the rows onward. */
  function ParseCalendarTasks(data: seq<Row>, ids: seq<string>): (r: Result<seq<Task>>)
    requires |data| <= |ids|
    ensures r.Success? <==> data != [] && forall f :: f in CalendarRequired ==> f in data[0]
    ensures r.Failure? ==> ValidateCsv(data, CalendarRequired) == Failure(r.message)
    ensures r.Success? ==> |r.value| == |data| && AllCalendar(r.value)
    ensures r.Success? ==> forall i :: 0 <= i < |data| ==> r.value[i] == DecodeCalendarRow(data[i], ids[i])
  {
    match ValidateCsv(data, CalendarRequired)
    case Failure(message) => Failure(message)
    case Success(_) => Success(DecodeRows(CalendarType, data, ids))
  }

  /** parseOpenTasks, from the rows onward. */
  function ParseOpenTasks(data: seq<Row>, ids: seq<string>): (r: Result<seq<Task>>)
    requires |data| <= |ids|
    ensures r.Success? <==> data != [] && forall f :: f in OpenRequired ==> f in data[0]
    ensures r.Failure? ==> ValidateCsv(data, OpenRequired) == Failure(r.message)
    ensures r.Success? ==> |r.value| == |data| && AllOpen(r.value)
    ensures r.Success? ==> forall i :: 0 <= i < |data| ==> r.value[i] == DecodeOpenRow(data[i], ids[i])
  {
    match ValidateCsv(data, OpenRequired)
    case Failure(message) => Failure(message)
    case Success(_) => Success(DecodeRows(OpenType, data, ids))
  }

  /** Headers Title and Details alone, for calendar data: the error names Date and Status. */
  lemma MissingHeadersMessage()
    ensures ValidateCsv([map["Title" := "a", "Details" := "b"]], CalendarRequired)
            == Failure("Missing required fields: Date, Status")
  {
    assert map["Title" := "a", "Details" := "b"].Keys == {"Title", "Details"};
    DateAndStatusMissing();
    DateAndStatusMessage();
  }

  /** The message text for missing Date and Status, spelled out. */
  lemma DateAndStatusMessage()
    ensures "Missing required fields: " + Join(["Date", "Status"], ", ")
            == "Missing required fields: Date, Status"
  {
    assert Join(["Date", "Status"], ", ") == "Date, Status";
  }

  /** With only Title and Details present, the calendar fields missing are Date and Status, in that order. */
  lemma DateAndStatusMissing()
    ensures MissingFields({"Title", "Details"}, CalendarRequired) == ["Date", "Status"]
  {
    var keys: set<string> := {"Title", "Details"};
    assert MissingFields(keys, ["Status"]) == ["Status"];
    assert MissingFields(keys, ["Date", "Status"]) == ["Date", "Status"];
    assert MissingFields(keys, ["Details", "Date", "Status"]) == ["Date", "Status"];
  }

  /** Only the first row's keys are validated: a later row lacking every column still decodes. */
  lemma OnlyFirstRowValidated(first: Row, ids: seq<string>)
    requires forall f :: f in CalendarRequired ==> f in first
    requires 2 <= |ids|
    ensures var r := ParseCalendarTasks([first, map[]], ids);
      r.Success? && r.value[1] == CalendarTask(ids[1], "", "", Open, None, "")
  {
  }

  /** Records take their ids from the supply in order, so distinct ids in give distinct ids out. */
  lemma DecodedIdsDistinct(kind: TaskType, data: seq<Row>, ids: seq<string>)
    requires |data| <= |ids| && NoDuplicates(ids)
    ensures var r := DecodeRows(kind, data, ids);
      forall i, j :: 0 <= i < j < |r| ==> r[i].id != r[j].id
  {
  }

  /**
   * A calendar task as one record of the calendar file: its keys are the
   * columns Date, Title, Details, Status, and decoding the record with the
   * task's own id gives the task back without its priority.
   */
  function EncodeCalendarRow(t: Task): (row: Row)
    requires t.CalendarTask?
    ensures row.Keys == set f | f in CalendarColumns
    ensures row["Status"] == StatusText(t.status)
    ensures DecodeCalendarRow(row, t.id) == t.(priority := None)
  {
    DecodeStatusText(t.status);
    map["Date" := t.date, "Title" := t.title, "Details" := t.details, "Status" := StatusText(t.status)]
  }

  /**
   * A task as one record of the open-tasks file: its keys are the columns
   * Title, Details, Status, and for an open task decoding the record with the
   * task's own id gives the task back without its priority.
   */
  function EncodeOpenRow(t: Task): (row: Row)
    ensures row.Keys == set f | f in OpenColumns
    ensures row["Status"] == StatusText(t.status)
    ensures t.OpenTask? ==> DecodeOpenRow(row, t.id) == t.(priority := None)
  {
    DecodeStatusText(t.status);
    map["Title" := t.title, "Details" := t.details, "Status" := StatusText(t.status)]
  }

  /**
   * The other direction of the row round trip: a calendar record holding
   * exactly the columns, with status text "open" or "completed", is written
   * back unchanged once decoded.
   */
  lemma CalendarRowReencodes(row: Row, id: string)
    requires row.Keys == set f | f in CalendarColumns
    requires IsValidStatusText(row["Status"])
    ensures EncodeCalendarRow(DecodeCalendarRow(row, id)) == row
  {
    var back := EncodeCalendarRow(DecodeCalendarRow(row, id));
    assert back["Status"] == row["Status"];
  }

  /** The same for an open-tasks record with exactly the columns Title, Details, Status. */
  lemma OpenRowReencodes(row: Row, id: string)
    requires row.Keys == set f | f in OpenColumns
    requires IsValidStatusText(row["Status"])
    ensures EncodeOpenRow(DecodeOpenRow(row, id)) == row
  {
    var back := EncodeOpenRow(DecodeOpenRow(row, id));
    assert back["Status"] == row["Status"];
  }

  function EncodeRow(kind: TaskType, t: Task): Row
    requires kind == CalendarType ==> t.CalendarTask?
  {
    match kind
    case CalendarType => EncodeCalendarRow(t)
    case OpenType => EncodeOpenRow(t)
  }

  /** `tasks.map(task => ({ ... }))`: one record per task, in collection order. */
  function EncodeRows(kind: TaskType, tasks: seq<Task>): (rows: seq<Row>)
    requires kind == CalendarType ==> AllCalendar(tasks)
    ensures |rows| == |tasks|
    ensures forall i :: 0 <= i < |tasks| ==> rows[i] == EncodeRow(kind, tasks[i])
  {
    if tasks == [] then []
    else [EncodeRow(kind, tasks[0])] + EncodeRows(kind, tasks[1..])
  }

  /**
   * The calendar half of saveTasks: header Date, Title, Details, Status and one
   * record per task whose keys are exactly those columns, so neither id nor
   * priority is written.
   */
  function EncodeCalendarTasks(tasks: seq<Task>): (t: Table)
    requires AllCalendar(tasks)
    ensures t.fields == CalendarColumns && |t.rows| == |tasks|
    ensures forall i :: 0 <= i < |tasks| ==> t.rows[i].Keys == set f | f in CalendarColumns
    ensures forall i :: 0 <= i < |tasks| ==> "id" !in t.rows[i] && "priority" !in t.rows[i]
  {
    var rows := EncodeRows(CalendarType, tasks);
    forall i | 0 <= i < |tasks|
      ensures rows[i].Keys == set f | f in CalendarColumns
      ensures "id" !in rows[i] && "priority" !in rows[i]
    {
      assert tasks[i].CalendarTask?;
      var row := EncodeCalendarRow(tasks[i]);
      assert rows[i] == row;
      assert "id" !in row.Keys && "priority" !in row.Keys;
    }
    Table(CalendarColumns, rows)
  }

  /**
   * The open half of saveTasks: header Title, Details, Status and one record
   * per task whose keys are exactly those columns.
   */
  function EncodeOpenTasks(tasks: seq<Task>): (t: Table)
    ensures t.fields == OpenColumns && |t.rows| == |tasks|
    ensures forall i :: 0 <= i < |tasks| ==> t.rows[i].Keys == set f | f in OpenColumns
    ensures forall i :: 0 <= i < |tasks| ==> "id" !in t.rows[i] && "priority" !in t.rows[i]
  {
    var rows := EncodeRows(OpenType, tasks);
    forall i | 0 <= i < |tasks|
      ensures rows[i].Keys == set f | f in OpenColumns
      ensures "id" !in rows[i] && "priority" !in rows[i]
    {
      var row := EncodeOpenRow(tasks[i]);
      assert rows[i] == row;
      assert "id" !in row.Keys && "priority" !in row.Keys;
    }
    Table(OpenColumns, rows)
  }

  /** saveTasks, up to the two texts it hands to the download step. */
  function SaveTasks(calendarTasks: seq<Task>, openTasks: seq<Task>): (e: Export)
    requires AllCalendar(calendarTasks)
    ensures e.calendarCsv.fields == CalendarColumns && |e.calendarCsv.rows| == |calendarTasks|
    ensures e.openCsv.fields == OpenColumns && |e.openCsv.rows| == |openTasks|
  {
    Export(EncodeCalendarTasks(calendarTasks), EncodeOpenTasks(openTasks))
  }

  /**
   * Row-level round trip for calendar data: decoding what the encoder wrote
   * gives back every task in order with its title, details, date and status;
   * the id is the new one from the supply and the priority is gone.
   */
  lemma {:induction false} CalendarRoundTrip(tasks: seq<Task>, ids: seq<string>)
    requires AllCalendar(tasks) && tasks != [] && |tasks| <= |ids|
    ensures var r := ParseCalendarTasks(EncodeCalendarTasks(tasks).rows, ids);
      && r.Success?
      && |r.value| == |tasks|
      && forall i :: 0 <= i < |tasks| ==> r.value[i] == tasks[i].(id := ids[i], priority := None)
  {
    var rows := EncodeCalendarTasks(tasks).rows;
    assert forall f :: f in CalendarRequired ==> f in rows[0];
    var r := ParseCalendarTasks(rows, ids);
    forall i | 0 <= i < |tasks| ensures r.value[i] == tasks[i].(id := ids[i], priority := None) {
      DecodeStatusText(tasks[i].status);
    }
  }

  /** Row-level round trip for open data: title, details and status come back in order. */
  lemma {:induction false} OpenRoundTrip(tasks: seq<Task>, ids: seq<string>)
    requires AllOpen(tasks) && tasks != [] && |tasks| <= |ids|
    ensures var r := ParseOpenTasks(EncodeOpenTasks(tasks).rows, ids);
      && r.Success?
      && |r.value| == |tasks|
      && forall i :: 0 <= i < |tasks| ==> r.value[i] == tasks[i].(id := ids[i], priority := None)
  {
    var rows := EncodeOpenTasks(tasks).rows;
    assert forall f :: f in OpenRequired ==> f in rows[0];
    var r := ParseOpenTasks(rows, ids);
    forall i | 0 <= i < |tasks| ensures r.value[i] == tasks[i].(id := ids[i], priority := None) {
      DecodeStatusText(tasks[i].status);
    }
  }

  /** An exported empty collection is a header-only file, which reads back as "CSV is empty". */
  lemma EmptyExportRejected(ids: seq<string>)
    ensures ParseCalendarTasks(EncodeCalendarTasks([]).rows, ids) == Failure("CSV is empty")
    ensures ParseOpenTasks(EncodeOpenTasks([]).rows, ids) == Failure("CSV is empty")
  {
  }
}
