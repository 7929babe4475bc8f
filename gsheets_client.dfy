/** The attendance manager over its worksheet, as objects: the worksheet is
    the remote store (its records change in place, one cell at a time), and
    the manager finds a person by id and registers an arrival against it.
    Each method is proved against the functions of module Registry. */
module GSheetsClient {
  import opened PyText
  import opened Registry

  /** The column names a header row declares. */
  function ColumnNames(header: seq<string>): set<string> {
    set k | k in header
  }

  /** The worksheet "asistentes": a header row naming the columns and one
      record per data row.  `available` says whether the store answers at
      all; when it does not, every read and write raises. */
  class Worksheet {
    var header: seq<string>
    var records: seq<Record>
    var available: bool

    /** Every record maps exactly the columns the header names, which is how
        header-mapped reads hand the rows out. */
    ghost predicate Valid()
      reads this
    {
      forall j :: 0 <= j < |records| ==> records[j].Keys == ColumnNames(header)
    }

    /** A worksheet whose records are mapped by its header row, as the store
        hands them out. */
    constructor (header: seq<string>, records: seq<Record>, available: bool)
      requires forall j :: 0 <= j < |records| ==> records[j].Keys == ColumnNames(header)
      ensures this.header == header && this.records == records && this.available == available
      ensures Valid()
    {
      this.header := header;
      this.records := records;
      this.available := available;
    }

    /** All records, in store order; None when the store raises. */
    method GetAllRecords() returns (r: Option<seq<Record>>)
      ensures r.Some? <==> available
      ensures r.Some? ==> r.value == records
    {
      if available {
        r := Some(records);
      } else {
        r := None;
      }
    }

    /** Write one cell; false when the store raises (it is unreachable, or the
        cell lies outside the records and the header's columns). */
    method UpdateCell(row: int, col: int, value: string) returns (ok: bool)
      requires Valid()
      modifies this`records
      ensures Valid()
      ensures ok <==> available && WriteCell(header, old(records), row, col, value).Some?
      ensures ok ==> records == WriteCell(header, old(records), row, col, value).value
      ensures !ok ==> records == old(records)
    {
      var written := WriteCell(header, records, row, col, value);
      if available && written.Some? {
        records := written.value;
        ok := true;
      } else {
        ok := false;
      }
    }
  }

  /** What the lookup of a person reports: the worksheet row (1-based, the
      header being row 1) and the record, nothing found, or a failed read. */
  datatype Lookup = Found(row: int, record: Record) | NotFound | ReadFailed

  class AttendanceManager {
    const worksheet: Worksheet

    /** A manager over an already opened worksheet. */
    constructor (worksheet: Worksheet)
      ensures this.worksheet == worksheet
    {
      this.worksheet := worksheet;
    }

    /** The first record, in store order, whose id equals `idNumber` once
        both are stripped of surrounding whitespace, with its worksheet row:
        its 0-based position plus one for the header row and one for 1-based
        numbering. */
    method FindPersonRow(idNumber: string) returns (r: Lookup)
      ensures r.ReadFailed? <==> !worksheet.available
      ensures r.Found? ==>
        && FirstDataRow <= r.row < FirstDataRow + |worksheet.records|
        && r.record == worksheet.records[r.row - FirstDataRow]
        && FindIndex(worksheet.records, idNumber) == Some(r.row - FirstDataRow)
      ensures r.NotFound? ==> FindIndex(worksheet.records, idNumber) == None
    {
      var all := worksheet.GetAllRecords();
      if all.None? {
        return ReadFailed;
      }
      var records := all.value;
      assert records == worksheet.records;
      var idx := 0;
      while idx < |records|
        invariant 0 <= idx <= |records|
        invariant forall j :: 0 <= j < idx ==> !Matches(records[j], idNumber)
      {
        if Matches(records[idx], idNumber) {
          FirstMatchIsFound(records, idNumber, idx);
          r := Found(idx + FirstDataRow, records[idx]);
          assert r.row - FirstDataRow == idx && r.record == records[idx];
          return;
        }
        idx := idx + 1;
      }
      return NotFound;
    }

    /** Register an arrival of `idNumber` at `now`: look the person up; if
        they are not there, write nothing and report NotRegistered; otherwise
        append the timestamp to their arrival history, write the result into
        column 5 of their row and report it.  A store that raises leaves the
        worksheet as it was and is reported as an internal error. */
    method RegisterArrival(idNumber: string, now: LocalTime) returns (result: ArrivalResult)
      requires worksheet.Valid()
      modifies worksheet`records
      ensures worksheet.Valid()
      ensures (result, worksheet.records) ==
              Register(worksheet.header, old(worksheet.records), worksheet.available, idNumber, now)
    {
      ghost var before := worksheet.records;
      var found := FindPersonRow(idNumber);
      match found
      case ReadFailed =>
        result := InternalError(idNumber);
      case NotFound =>
        result := NotRegistered(idNumber);
      case Found(row, person) =>
        ghost var i := row - FirstDataRow;
        assert FindIndex(before, idNumber) == Some(i) && person == before[i];
        var stamp := now.stamp;
        var shift := DetermineShift(now.hour);
        var current := ArrivalOf(person);
        var updated := AppendArrival(current, stamp);
        ghost var written := WriteCell(worksheet.header, before, row, ArrivalColumn, updated);
        assert row == i + FirstDataRow;
        var ok := worksheet.UpdateCell(row, ArrivalColumn, updated);
        if ok {
          result := Registered(idNumber, NameOf(person), stamp, shift, updated);
          assert worksheet.records == written.value;
        } else {
          result := InternalError(idNumber);
        }
    }
  }
}
