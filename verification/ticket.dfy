/** cartman/ticket.py: the ticket record read from a tab-separated export,
    and its one-line rendering. */
module TicketModel {
  import opened Wrappers
  import opened Errors
  import opened Strings

  datatype Ticket = Ticket(id: int, summary: string, reporter: string, description: string)

  /** `Ticket()`: every field holds its "not available" default. */
  const Fresh := Ticket(0, "Summary N/A", "Reporter N/A", "Description N/A")

  /** `format_id`: "#", the id in decimal, then ".". */
  function FormatId(t: Ticket): (r: string)
    ensures |r| >= 3 && r[0] == '#' && r[|r| - 1] == '.'
    ensures ' ' !in r
    ensures r[1..|r| - 1] == IntToString(t.id)
  {
    "#" + IntToString(t.id) + "."
  }

  /** The text between "#" and "." reads back, through `int()`, as the id. */
  lemma FormatIdReadsBack(t: Ticket)
    ensures ParseInt(FormatId(t)[1..|FormatId(t)| - 1]) == Some(t.id)
  {
    var r := FormatId(t);
    assert r[1..|r| - 1] == IntToString(t.id);
    ParseIntRoundTrip(t.id);
  }

  /** A title line built from its parts, and where each part sits in it. */
  function TitleLine(fid: string, summary: string, reporter: string): (r: string)
    ensures var n := |fid|;
      && |r| == n + |summary| + |reporter| + 4
      && r[..n] == fid
      && r[n] == ' '
      && r[n + 1..n + 1 + |summary|] == summary
      && r[n + 1 + |summary|..n + 3 + |summary|] == " ("
      && r[n + 3 + |summary|..|r| - 1] == reporter
      && r[|r| - 1] == ')'
  {
    var n := |fid|;
    var head := fid + " " + summary;
    var r := head + " (" + reporter + ")";
    assert r[..n] == fid by {
      assert r[..n] == head[..n];
    }
    assert r[n + 1..n + 1 + |summary|] == summary by {
      assert r[n + 1..n + 1 + |summary|] == head[n + 1..];
    }
    r
  }

  /** `format_title`: the formatted id, a space, the summary, then the
      reporter in parentheses. */
  function FormatTitle(t: Ticket): (r: string)
    ensures var n := |FormatId(t)|;
      && |r| == n + |t.summary| + |t.reporter| + 4
      && r[..n] == FormatId(t)
      && r[n] == ' '
      && r[n + 1..n + 1 + |t.summary|] == t.summary
      && r[n + 1 + |t.summary|..n + 3 + |t.summary|] == " ("
      && r[n + 3 + |t.summary|..|r| - 1] == t.reporter
      && r[|r| - 1] == ')'
  {
    TitleLine(FormatId(t), t.summary, t.reporter)
  }

  /** Reads the ticket id back from the start of a title line. */
  function ParseTitleId(line: string): Option<int> {
    match FindChar(line, ' ')
    case None => None
    case Some(i) =>
      var head := line[..i];
      if |head| >= 3 && head[0] == '#' && head[|head| - 1] == '.' then ParseInt(head[1..|head| - 1])
      else None
  }

  /** A title line whose id part has the shape of `format_id` reads back
      the text between its "#" and ".". */
  lemma TitleLineId(fid: string, summary: string, reporter: string)
    requires |fid| >= 3 && fid[0] == '#' && fid[|fid| - 1] == '.' && ' ' !in fid
    ensures ParseTitleId(TitleLine(fid, summary, reporter)) == ParseInt(fid[1..|fid| - 1])
  {
    var line := TitleLine(fid, summary, reporter);
    var rest := line[|fid| + 1..];
    assert line == fid + [' '] + rest by {
      assert line[..|fid|] == fid;
    }
    FindCharAfter(fid, ' ', rest);
    assert line[..|fid|] == fid;
  }

  /** A title line always leads with the ticket's id, which can be read back. */
  lemma TitleIdRoundTrip(t: Ticket)
    ensures ParseTitleId(FormatTitle(t)) == Some(t.id)
  {
    TitleLineId(FormatId(t), t.summary, t.reporter);
    FormatIdReadsBack(t);
  }

  /** The export columns `factory` reads; any other column is ignored. */
  const Columns: set<string> := {"id", "ticket", "summary", "_reporter", "reporter", "description"}

  /** `int()` applied to an id column, raising `ValueError` on bad text. */
  function ParseIdColumn(raw: string): (r: Result<int, Error>)
    ensures r.Success? <==> ParseInt(raw).Some?
    ensures r.Success? ==> ParseInt(raw) == Some(r.value)
    ensures r.Failure? ==> r.error.ValueError?
  {
    match ParseInt(raw)
    case Some(n) => Success(n)
    case None => Failure(ValueError("invalid literal for int() with base 10: '" + raw + "'"))
  }

  /** `factory(ticket_dict)`: one export row onto a ticket. "id" wins over
      "ticket" and "_reporter" over "reporter"; only the id is converted,
      and a column that is missing leaves its field at the default. */
  function Factory(row: map<string, string>): (r: Result<Ticket, Error>)
    ensures r.Success? <==>
      if "id" in row then ParseInt(row["id"]).Some?
      else "ticket" in row ==> ParseInt(row["ticket"]).Some?
    ensures r.Failure? ==> r.error.ValueError?
    ensures r.Success? ==>
      && ("id" in row ==> ParseInt(row["id"]) == Some(r.value.id))
      && ("id" !in row && "ticket" in row ==> ParseInt(row["ticket"]) == Some(r.value.id))
      && ("id" !in row && "ticket" !in row ==> r.value.id == Fresh.id)
    ensures r.Success? ==>
      r.value.summary == (if "summary" in row then row["summary"] else Fresh.summary)
    ensures r.Success? ==>
      r.value.reporter == (if "_reporter" in row then row["_reporter"]
                           else if "reporter" in row then row["reporter"]
                           else Fresh.reporter)
    ensures r.Success? ==>
      r.value.description == (if "description" in row then row["description"] else Fresh.description)
  {
    var id :- if "id" in row then ParseIdColumn(row["id"])
              else if "ticket" in row then ParseIdColumn(row["ticket"])
              else Success(Fresh.id);
    var summary := if "summary" in row then row["summary"] else Fresh.summary;
    var reporter := if "_reporter" in row then row["_reporter"]
                    else if "reporter" in row then row["reporter"]
                    else Fresh.reporter;
    var description := if "description" in row then row["description"] else Fresh.description;
    Success(Ticket(id, summary, reporter, description))
  }

  /** A column outside the translation table changes nothing. */
  lemma FactoryIgnoresOtherColumns(row: map<string, string>, column: string, value: string)
    requires column !in Columns
    ensures Factory(row[column := value]) == Factory(row)
  {
  }

  /** A row with none of the known columns gives a fresh ticket. */
  lemma FactoryDefaults(row: map<string, string>)
    requires forall c :: c in Columns ==> c !in row
    ensures Factory(row) == Success(Fresh)
  {
  }

  /** The export row of a ticket, in the current column dialect. */
  function Row(t: Ticket): map<string, string> {
    map["id" := IntToString(t.id), "summary" := t.summary,
        "reporter" := t.reporter, "description" := t.description]
  }

  /** The same row in the legacy dialect ("ticket", "_reporter"). */
  function LegacyRow(t: Ticket): map<string, string> {
    map["ticket" := IntToString(t.id), "summary" := t.summary,
        "_reporter" := t.reporter, "description" := t.description]
  }

  /** Exporting a ticket in either dialect and reading the row back yields
      the same ticket. */
  lemma FactoryRoundTrip(t: Ticket)
    ensures Factory(Row(t)) == Success(t)
    ensures Factory(LegacyRow(t)) == Success(t)
  {
    ParseIntRoundTrip(t.id);
    CurrentRowReadsBack(t);
    LegacyRowReadsBack(t);
  }

  /** The current-dialect row of a ticket whose id reads back. */
  lemma CurrentRowReadsBack(t: Ticket)
    requires ParseInt(IntToString(t.id)) == Some(t.id)
    ensures Factory(Row(t)) == Success(t)
  {
    ColumnNamesDiffer();
    var row := Row(t);
    assert row["id"] == IntToString(t.id);
    assert "_reporter" !in row;
  }

  /** The legacy-dialect row of a ticket whose id reads back. */
  lemma LegacyRowReadsBack(t: Ticket)
    requires ParseInt(IntToString(t.id)) == Some(t.id)
    ensures Factory(LegacyRow(t)) == Success(t)
  {
    ColumnNamesDiffer();
    var row := LegacyRow(t);
    assert "id" !in row;
    assert row["ticket"] == IntToString(t.id);
  }

  /** The column names have different lengths, so no two are equal. */
  lemma ColumnNamesDiffer()
    ensures |"id"| == 2 && |"ticket"| == 6 && |"summary"| == 7
    ensures |"reporter"| == 8 && |"_reporter"| == 9 && |"description"| == 11
  {
  }

  /** `int(s)` reads the decimal rendering of `n` as `n`. */
  lemma ReadsAs(s: string, n: int)
    requires s == IntToString(n)
    ensures ParseInt(s) == Some(n)
  {
    ParseIntRoundTrip(n);
  }

  /** The export row the tests read in the current dialect. */
  lemma FactoryCurrentExample(row: map<string, string>)
    requires row == map["id" := "245", "summary" := "meh", "reporter" := "douche",
                        "description" := "clean all the things"]
    ensures Factory(row) == Success(Ticket(245, "meh", "douche", "clean all the things"))
  {
    var t := Ticket(245, "meh", "douche", "clean all the things");
    assert IntToString(245) == "245";
    assert row == Row(t);
    FactoryRoundTrip(t);
  }

  /** The export row the tests read in the legacy dialect, which leaves the
      summary and the description out. */
  lemma FactoryLegacyExample(row: map<string, string>)
    requires row == map["ticket" := "123", "_reporter" := "douche"]
    ensures Factory(row) == Success(Ticket(123, Fresh.summary, "douche", Fresh.description))
  {
    ColumnNamesDiffer();
    assert IntToString(123) == "123";
    ReadsAs(row["ticket"], 123);
    assert "id" !in row && "summary" !in row && "description" !in row;
  }

  /** Ticket 255 is rendered "#255.". */
  lemma FormatId255(t: Ticket)
    requires t.id == 255
    ensures FormatId(t) == "#255."
  {
    assert IntToString(t.id) == "255";
  }

  /** The tests of `format_id`: "#0." for a fresh ticket, "#255." for
      ticket 255. */
  lemma FormatIdExamples(t0: Ticket, t: Ticket)
    requires t0 == Fresh && t.id == 255
    ensures FormatId(t0) == "#0."
    ensures FormatId(t) == "#255."
  {
    assert IntToString(t0.id) == "0";
    FormatId255(t);
  }

  /** A title line is the id rendering, a space, the summary, " (", the
      reporter and ")". */
  lemma TitleParts(t: Ticket)
    ensures FormatTitle(t) == FormatId(t) + " " + t.summary + " (" + t.reporter + ")"
  {
  }

  /** The test of `format_title`: ticket 255 "meh" by jcarmack. */
  lemma FormatTitleExample(t: Ticket)
    requires t.id == 255 && t.summary == "meh" && t.reporter == "jcarmack"
    ensures FormatTitle(t) == "#255. meh (jcarmack)"
  {
    FormatId255(t);
    TitleParts(t);
  }
}
