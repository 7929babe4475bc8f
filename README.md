# Attendance arrival registry — a Dafny model

This project models the arrival registry of the DataDevFest automatic check-in
service: the `AttendanceManager` class of `src/connectors/gsheets_client.py`.
The class keeps attendance in a Google Sheets worksheet. It finds a person by
their `id_number` and stamps an arrival.

- **Lookup.** It scans the records in sheet order. The first record whose id
  equals the query wins, after both sides are stripped of surrounding whitespace.
  It returns the sheet row: the 0-based position, plus one for the header row,
  plus one for 1-based numbering.
- **Shift.** An arrival before noon is "Jornada Mañana". From hour 12 on, it is
  "Jornada Tarde".
- **Registration.** An unknown id writes nothing and reports failure. For a known
  id, the new timestamp is appended to the person's `arrival_time` history,
  joined with ", ". A blank or whitespace-only history is replaced instead. The
  new string is written into column 5 of the person's row. The report echoes the
  written history, the timestamp, the shift and the person's name. Any exception
  in the flow is reported as a failure instead of being raised.

The model has three modules:

- `PyText` (`py_text.dfy`): Python's `str.isspace` and `str.strip`, with the
  lemmas the lookup needs. Surrounding whitespace never changes what `strip`
  returns, and stripping twice is the same as stripping once.
- `Registry` (`registry.dfy`): the registry as values. It defines records as maps
  from column name to cell text, the lookup `FindIndex`, `DetermineShift`,
  `AppendArrival`, the single-cell write `WriteCell`, and `Register`, the outcome
  of one registration. It also holds the lemmas relating them.
- `GSheetsClient` (`gsheets_client.dfy`): the objects.
  - A `Worksheet` class holds the header, the records (changed in place, one cell
    at a time) and whether the store answers.
  - An `AttendanceManager` class has `FindPersonRow`, a loop over the records,
    and `RegisterArrival`, which updates the worksheet.
  - Both methods are proved against the `Registry` functions.

The clock is an input. `RegisterArrival` receives a `LocalTime`: the timestamp
already formatted as `YYYY-MM-DD HH:MM:SS` in the America/Bogota zone, plus its
hour.

Two points where the code's behaviour is followed as written:

- A failed read is not passed up to the caller. The lookup re-raises the store's
  exception, but `register_arrival` catches every exception. So a failed read is
  reported like any other internal error (`success` false).
- The shift labels are the Spanish ones the code returns.

## Model

| member | source | states |
|---|---|---|
| `PyText.Strip` | src/connectors/gsheets_client.py:80 | `strip()` leaves whitespace at neither end, and its result is empty exactly when the input is blank (only Python whitespace) |
| `PyText.StripOfPadded` | src/connectors/gsheets_client.py:80 | whatever whitespace surrounds a trimmed core, `strip()` returns that core |
| `PyText.StripDecomposes` | src/connectors/gsheets_client.py:80 | every string is blank padding, then its stripped form, then blank padding |
| `PyText.StripIgnoresPadding` | src/connectors/gsheets_client.py:80 | adding whitespace around a string does not change what `strip()` returns |
| `PyText.StripIdempotent` | src/connectors/gsheets_client.py:80 | stripping twice is stripping once |
| `Registry.DetermineShift` | src/connectors/gsheets_client.py:64-69 | the shift is morning exactly when the hour is below 12, and afternoon exactly from hour 12 on (noon is afternoon) |
| `Registry.Shift.Label` | src/connectors/gsheets_client.py:67-69 | the morning shift is reported as "Jornada Mañana" and the afternoon shift as "Jornada Tarde", and each label belongs to exactly one shift |
| `Registry.ShiftLabel` | src/connectors/gsheets_client.py:64-69 | an arrival before hour 12 is labelled "Jornada Mañana", and one from hour 12 on "Jornada Tarde" |
| `Registry.ShiftMonotone` | src/connectors/gsheets_client.py:64-69 | once an hour is afternoon, every later hour is too; two hours get different labels exactly when they straddle noon |
| `Registry.IdOf` | src/connectors/gsheets_client.py:80 | the id compared is the record's `id_number` cell, or "" when the record has no such column |
| `Registry.MissingIdMatchesOnlyBlank` | src/connectors/gsheets_client.py:80 | a record without an `id_number` column is matched by exactly the queries that are empty or all whitespace |
| `Registry.FindIndex` | src/connectors/gsheets_client.py:79-84 | the result is the index of a record whose stripped id equals the stripped query, and no earlier record matches; the result is None exactly when no record matches |
| `Registry.FirstMatchIsFound` | src/connectors/gsheets_client.py:79-82 | a matching record with no earlier match is the one found: the first-match description determines the lookup |
| `Registry.SameMatchesSameIndex` | src/connectors/gsheets_client.py:80 | two queries with the same stripped form find the same record |
| `Registry.FindIndexIgnoresQueryPadding` | src/connectors/gsheets_client.py:80 | whitespace around the query, or stripping it first, does not change which record is found |
| `Registry.FindPaddedStoredId` | src/connectors/gsheets_client.py:79-82 | a stored id with any whitespace around it is found by a query with any other whitespace around it, when no earlier record matches |
| `Registry.SameIdsSameIndex` | src/connectors/gsheets_client.py:79-82 | rewriting cells other than the ids does not change which record the lookup finds |
| `Registry.ArrivalOf` | src/connectors/gsheets_client.py:115 | the history read is the record's `arrival_time` cell, or "" when the record has no such column |
| `Registry.MissingHistoryStartsFresh` | src/connectors/gsheets_client.py:115-123 | a record without an `arrival_time` column gets the new timestamp alone as its history |
| `Registry.NameOf` | src/connectors/gsheets_client.py:128-134 | the reported name is present exactly when the record has a `name` column, and is then that cell |
| `Registry.AppendArrival` | src/connectors/gsheets_client.py:115-123 | the new history ends with the new timestamp; a non-blank old history is kept as its prefix, followed by ", "; a blank or whitespace-only history is replaced by the timestamp alone |
| `Registry.JoinStartsWithFirst` | src/connectors/gsheets_client.py:118-120 | a comma-joined history starts with its first timestamp |
| `Registry.AppendArrivalJoins` | src/connectors/gsheets_client.py:117-123 | appending to the comma-joined list t1..tn gives the comma-joined list t1..tn, t |
| `Registry.WriteCell` | src/connectors/gsheets_client.py:126 | a write inside the records and the header's columns changes exactly that one cell, in that record, and leaves every other record and column as it was; any other write is refused |
| `Registry.Register` | src/connectors/gsheets_client.py:96-146 | the result echoes the id; it is NotRegistered exactly when the store answers and no record matches; it is Registered exactly when the store answers, a record matches and column 5 exists; on every other outcome the records are unchanged |
| `Registry.RegisterWritesOneCell` | src/connectors/gsheets_client.py:107-138 | a successful registration changes only column 5 of the first matching record, sets it to the appended history, and reports that history, the given timestamp, the shift of the same clock reading, and the record's name |
| `Registry.RegisterFoundStep` | src/connectors/gsheets_client.py:115-126 | when column 5 is `arrival_time`, registering a found person appends to their history, keeps them where the lookup finds them, and leaves all other records alone |
| `Registry.RepeatedArrivalsJoin` | src/connectors/gsheets_client.py:115-126 | when column 5 is `arrival_time` and the history starts blank, registering the same person at non-blank timestamps t1..tn (n > 0) leaves exactly "t1, ..., tn", in call order, and no other record changes |
| `GSheetsClient.Worksheet.constructor` | src/connectors/gsheets_client.py:77 | a worksheet is built from records that each map exactly the header's column names, the shape header-mapped reads hand out, and it starts in that shape |
| `GSheetsClient.Worksheet.GetAllRecords` | src/connectors/gsheets_client.py:77 | the read returns the records in store order when the store answers, and fails otherwise |
| `GSheetsClient.Worksheet.UpdateCell` | src/connectors/gsheets_client.py:126 | the write succeeds exactly when the store answers and the cell is in range; the new records are then the one-cell update, otherwise unchanged; the header-mapped shape of the records is preserved |
| `GSheetsClient.AttendanceManager.FindPersonRow` | src/connectors/gsheets_client.py:71-87 | a failed read is reported exactly when the store does not answer; a found row lies between 2 and the number of records plus 1, and the first matching record's 0-based index plus 2 equals it; the returned record is the one at that row; NotFound means no record matches |
| `GSheetsClient.AttendanceManager.RegisterArrival` | src/connectors/gsheets_client.py:89-146 | the report and the worksheet's new records are those `Register` gives for the old records, so everything proved about `Register` holds of the method; the worksheet keeps its header-mapped shape |

## Left out

- `AttendanceManager.__init__` is not modelled: environment variables, the credentials file check, OAuth authorisation and opening the spreadsheet are I/O and library calls. The model's constructor takes a worksheet that is already open.
- `_get_colombia_timestamp`, `_get_colombia_datetime` and the `strftime` call are not modelled: the wall clock and the time-zone conversion are inputs. The clock reading is a parameter carrying the formatted timestamp and the hour. The model does not check that the two describe the same instant.
- Logging, and the interactive `__main__` block with `input` and `print`, are not modelled.
- `src/main.py` is not part of this model: Flask routing, request parsing, the module-level manager, the health endpoint and the status-code mapping.
- Concurrency is not modelled. Two simultaneous registrations of the same person can lose an update, because the code reads, computes and writes without a lock. Each call here runs alone.
- The message texts and the exception text are not modelled. Only the outcome kind is.
- Cell values are modelled as text only. The spreadsheet library's conversion of numeric-looking cells to numbers, which `str()` then turns back to text, is not modelled. So an id such as "007", which that conversion would read as 7, is compared here as written.
- Store failures are modelled by one flag: either the store answers every call or it raises on every call.
- A write outside the records and the header's columns is modelled as a store failure. A real spreadsheet with spare grid columns may accept such a write where header-mapped reads do not show it. With fewer than five header columns, the model reports an internal error.
- Records are maps from column name to cell. A header with repeated column names is not modelled.
- The `arrival_time` history is read by column name but written to column 5 by position, exactly as in the code. The history lemmas assume that column 5 is named `arrival_time`.
