/** The attendance registry as values: the worksheet's records, the lookup of
    a person by id, the shift of an arrival, the arrival history it appends
    to, the single-cell write, and the outcome of one registration.  The
    classes in GSheetsClient are proved against these functions. */
module Registry {
  import opened PyText

  datatype Option<+T> = None | Some(value: T)

  /** One data row of the worksheet, as the store hands it out: column
      name (from the header row) to cell text. */
  type Record = map<string, string>

  /** The local hour of an arrival, as a `datetime` carries it. */
  type Hour = h: int | 0 <= h < 24

  /** The clock reading an arrival is stamped with: the wall-clock time in
      the registry's fixed time zone, already formatted
      (`YYYY-MM-DD HH:MM:SS`), and its hour. */
  datatype LocalTime = LocalTime(stamp: string, hour: Hour)

  const IdKey: string := "id_number"
  const NameKey: string := "name"
  const ArrivalKey: string := "arrival_time"

  /** 1-based column that holds the arrival history (column E). */
  const ArrivalColumn: nat := 5

  /** Worksheet row of the first record: one header row, 1-based numbering. */
  const FirstDataRow: nat := 2

  // ---------------------------------------------------------------------------
  // Shift classification

  datatype Shift = Morning | Afternoon {
    /** The label the registry reports for the shift; the two labels differ. */
    function Label(): (l: string)
      ensures l == "Jornada Mañana" <==> this == Morning
      ensures l == "Jornada Tarde" <==> this == Afternoon
    {
      match this
      case Morning => "Jornada Mañana"
      case Afternoon => "Jornada Tarde"
    }
  }

  /** Morning before noon; from hour 12 on, afternoon. */
  function DetermineShift(hour: Hour): (s: Shift)
    ensures s == Morning <==> hour < 12
    ensures s == Afternoon <==> 12 <= hour
  {
    if hour < 12 then Morning else Afternoon
  }

  /** The label reported for an arrival at `hour`: "Jornada Mañana" before
      noon, "Jornada Tarde" from noon on. */
  lemma ShiftLabel(hour: Hour)
    ensures hour < 12 ==> DetermineShift(hour).Label() == "Jornada Mañana"
    ensures 12 <= hour ==> DetermineShift(hour).Label() == "Jornada Tarde"
  {
  }

  /** Once an arrival counts as afternoon, every later hour of the day does too,
      and the two shifts are reported under different labels. */
  lemma ShiftMonotone(early: Hour, late: Hour)
    requires early <= late
    ensures DetermineShift(early) == Afternoon ==> DetermineShift(late) == Afternoon
    ensures DetermineShift(early).Label() != DetermineShift(late).Label() <==>
            early < 12 <= late
  {
  }

  // ---------------------------------------------------------------------------
  // Lookup

  /** `record.get(key, default)`. */
  function Get(record: Record, key: string, default: string): string {
    if key in record then record[key] else default
  }

  /** The id a record carries; a record without an id column reads as "". */
  function IdOf(record: Record): (r: string)
    ensures IdKey in record ==> r == record[IdKey]
    ensures IdKey !in record ==> r == ""
  {
    Get(record, IdKey, "")
  }

  /** The arrival history a record carries; "" when it has no such column. */
  function ArrivalOf(record: Record): (r: string)
    ensures ArrivalKey in record ==> r == record[ArrivalKey]
    ensures ArrivalKey !in record ==> r == ""
  {
    Get(record, ArrivalKey, "")
  }

  /** `record.get("name")`: None when the record has no name column. */
  function NameOf(record: Record): (r: Option<string>)
    ensures r.Some? <==> NameKey in record
    ensures r.Some? ==> r.value == record[NameKey]
  {
    if NameKey in record then Some(record[NameKey]) else None
  }

  /** The comparison the lookup makes: both ids with their surrounding
      whitespace dropped, compared as text. */
  predicate Matches(record: Record, idNumber: string) {
    Strip(IdOf(record)) == Strip(idNumber)
  }

  /** A record without an id column is matched by exactly the blank queries,
      because its id reads as "". */
  lemma MissingIdMatchesOnlyBlank(record: Record, idNumber: string)
    requires IdKey !in record
    ensures Matches(record, idNumber) <==> IsBlank(idNumber)
  {
    assert IsBlank(IdOf(record));
  }

  /** The 0-based index of the first record, in store order, whose id matches. */
  function FindIndex(records: seq<Record>, idNumber: string): (r: Option<nat>)
    ensures r.Some? ==> r.value < |records| && Matches(records[r.value], idNumber)
    ensures r.Some? ==> forall j :: 0 <= j < r.value ==> !Matches(records[j], idNumber)
    ensures r.None? <==> forall j :: 0 <= j < |records| ==> !Matches(records[j], idNumber)
  {
    if records == [] then None
    else if Matches(records[0], idNumber) then Some(0)
    else match FindIndex(records[1..], idNumber)
      case None => None
      case Some(k) => Some(k + 1)
  }

  /** The lookup depends on the query only through its stripped form: an id
      typed with or without surrounding whitespace finds the same record. */
  lemma FindIndexIgnoresQueryPadding(records: seq<Record>, a: string, idNumber: string, b: string)
    requires IsBlank(a) && IsBlank(b)
    ensures FindIndex(records, a + idNumber + b) == FindIndex(records, idNumber)
    ensures FindIndex(records, Strip(idNumber)) == FindIndex(records, idNumber)
  {
    StripIgnoresPadding(a, idNumber, b);
    StripIdempotent(idNumber);
    SameMatchesSameIndex(records, a + idNumber + b, idNumber);
    SameMatchesSameIndex(records, Strip(idNumber), idNumber);
  }

  /** A stored id found under any padding of the query: if record `i` holds
      `id` with whitespace around it and no earlier record matches `id`,
      looking up `id` with any other whitespace around it yields `i`. */
  lemma FindPaddedStoredId(records: seq<Record>, i: nat, id: string,
                           storedPre: string, storedPost: string,
                           queryPre: string, queryPost: string)
    requires i < |records|
    requires IsBlank(storedPre) && IsBlank(storedPost) && IsBlank(queryPre) && IsBlank(queryPost)
    requires IdOf(records[i]) == storedPre + id + storedPost
    requires forall j :: 0 <= j < i ==> Strip(IdOf(records[j])) != Strip(id)
    ensures FindIndex(records, queryPre + id + queryPost) == Some(i)
  {
    StripIgnoresPadding(storedPre, id, storedPost);
    FindIndexIgnoresQueryPadding(records, queryPre, id, queryPost);
    FirstMatchIsFound(records, id, i);
  }

  /** The first-match characterisation determines FindIndex. */
  lemma FirstMatchIsFound(records: seq<Record>, idNumber: string, i: nat)
    requires i < |records| && Matches(records[i], idNumber)
    requires forall j :: 0 <= j < i ==> !Matches(records[j], idNumber)
    ensures FindIndex(records, idNumber) == Some(i)
  {
    match FindIndex(records, idNumber)
    case None =>
    case Some(k) =>
      if k < i { } else if i < k { }
  }

  /** Two queries that match the same records find the same one. */
  lemma SameMatchesSameIndex(records: seq<Record>, q1: string, q2: string)
    requires Strip(q1) == Strip(q2)
    ensures FindIndex(records, q1) == FindIndex(records, q2)
  {
    match FindIndex(records, q2)
    case None =>
    case Some(i) => FirstMatchIsFound(records, q1, i);
  }

  /** Rewriting cells other than the ids leaves the lookup where it was. */
  lemma SameIdsSameIndex(before: seq<Record>, after: seq<Record>, idNumber: string)
    requires |before| == |after|
    requires forall j :: 0 <= j < |before| ==> IdOf(after[j]) == IdOf(before[j])
    ensures FindIndex(after, idNumber) == FindIndex(before, idNumber)
  {
    match FindIndex(before, idNumber)
    case None =>
    case Some(i) => FirstMatchIsFound(after, idNumber, i);
  }

  // ---------------------------------------------------------------------------
  // Arrival history

  /** The new arrival history: the old history, a comma and a space, and the
      new timestamp, when the old history has any non-whitespace character;
      the timestamp alone otherwise (a whitespace-only history is replaced). */
  function AppendArrival(current: string, stamp: string): (r: string)
    ensures |stamp| <= |r| && r[|r| - |stamp|..] == stamp
    ensures !IsBlank(current) ==> |r| == |current| + 2 + |stamp| && r[..|current|] == current && r[|current|..|current| + 2] == ", "
    ensures IsBlank(current) ==> r == stamp
  {
    if Strip(current) != [] then current + ", " + stamp else stamp
  }

  /** A record without an arrival column gets the timestamp alone as its
      new history, because its history reads as "". */
  lemma MissingHistoryStartsFresh(record: Record, stamp: string)
    requires ArrivalKey !in record
    ensures AppendArrival(ArrivalOf(record), stamp) == stamp
  {
    assert IsBlank(ArrivalOf(record));
  }

  /** Timestamps joined with ", ", the form an arrival history takes. */
  function Join(stamps: seq<string>): string
    decreases |stamps|
  {
    if |stamps| == 0 then ""
    else if |stamps| == 1 then stamps[0]
    else Join(stamps[..|stamps| - 1]) + ", " + stamps[|stamps| - 1]
  }

  /** A joined history starts with its first timestamp. */
  lemma {:induction false} JoinStartsWithFirst(stamps: seq<string>)
    requires |stamps| > 0
    ensures |stamps[0]| <= |Join(stamps)| && Join(stamps)[..|stamps[0]|] == stamps[0]
    decreases |stamps|
  {
    if |stamps| > 1 {
      var init := stamps[..|stamps| - 1];
      JoinStartsWithFirst(init);
      assert init[0] == stamps[0];
    }
  }

  /** Appending to a history is adding one more timestamp to the joined list,
      provided the first timestamp is not blank (a real timestamp never is). */
  lemma AppendArrivalJoins(stamps: seq<string>, stamp: string)
    requires stamps == [] || !IsBlank(stamps[0])
    ensures AppendArrival(Join(stamps), stamp) == Join(stamps + [stamp])
  {
    var extended := stamps + [stamp];
    assert extended[..|extended| - 1] == stamps;
    if stamps != [] {
      JoinStartsWithFirst(stamps);
      var first := stamps[0];
      var i :| 0 <= i < |first| && !IsSpace(first[i]);
      assert Join(stamps)[i] == first[i];
    }
  }

  // ---------------------------------------------------------------------------
  // The single-cell write

  /** `after` is `before` with exactly one cell, record `index` under `key`,
      set to `value`: every other record is the same, and so is every other
      column of that record. */
  ghost predicate OnlyCellChanged(before: seq<Record>, after: seq<Record>, index: int, key: string, value: string) {
    && |after| == |before|
    && 0 <= index < |before|
    && (forall j :: 0 <= j < |before| && j != index ==> after[j] == before[j])
    && key in after[index] && after[index][key] == value
    && (forall k :: k in before[index] && k != key ==> k in after[index] && after[index][k] == before[index][k])
    && (forall k :: k in after[index] && k != key ==> k in before[index])
  }

  /** Writing `value` into worksheet cell (`row`, `col`), both 1-based, where
      row 1 is the header row and the columns are those the header names.
      A cell outside the records and the header's columns is refused (None). */
  function WriteCell(header: seq<string>, records: seq<Record>, row: int, col: int, value: string): (r: Option<seq<Record>>)
    ensures r.Some? <==> FirstDataRow <= row < FirstDataRow + |records| && 1 <= col <= |header|
    ensures r.Some? ==> OnlyCellChanged(records, r.value, row - FirstDataRow, header[col - 1], value)
  {
    if FirstDataRow <= row < FirstDataRow + |records| && 1 <= col <= |header| then
      var i := row - FirstDataRow;
      Some(records[i := records[i][header[col - 1] := value]])
    else
      None
  }

  // ---------------------------------------------------------------------------
  // One registration

  /** What a registration reports.  The source answers with a dictionary;
      the messages it carries are not modelled, only the outcome. */
  datatype ArrivalResult =
    | Registered(idNumber: string, name: Option<string>, timestamp: string, shift: Shift, allArrivals: string)
    | NotRegistered(idNumber: string)
    | InternalError(idNumber: string)
  {
    /** The `success` field of the answer. */
    predicate Success() { Registered? }
  }

  /** One registration of `idNumber` at `now` against a worksheet with this
      header and these records: the report and the records afterwards.
      `available` says whether the store answers; when it does not, the read
      raises and the registration reports an internal error. */
  function Register(header: seq<string>, records: seq<Record>, available: bool,
                    idNumber: string, now: LocalTime): (out: (ArrivalResult, seq<Record>))
    ensures out.0.idNumber == idNumber
    ensures out.0.NotRegistered? <==> available && FindIndex(records, idNumber).None?
    ensures out.0.Registered? <==> available && FindIndex(records, idNumber).Some? && ArrivalColumn <= |header|
    ensures !out.0.Registered? ==> out.1 == records
  {
    if !available then (InternalError(idNumber), records)
    else match FindIndex(records, idNumber)
      case None => (NotRegistered(idNumber), records)
      case Some(i) =>
        var updated := AppendArrival(ArrivalOf(records[i]), now.stamp);
        match WriteCell(header, records, i + FirstDataRow, ArrivalColumn, updated)
        case None => (InternalError(idNumber), records)
        case Some(written) =>
          (Registered(idNumber, NameOf(records[i]), now.stamp, DetermineShift(now.hour), updated), written)
  }

  /** A successful registration changes exactly one cell, the arrival column
      of the first matching record, and sets it to the appended history; it
      reports that same history, the timestamp it was given, the shift of the
      same clock reading and the person's name. */
  lemma RegisterWritesOneCell(header: seq<string>, records: seq<Record>, available: bool,
                              idNumber: string, now: LocalTime)
    requires Register(header, records, available, idNumber, now).0.Registered?
    ensures var (result, after) := Register(header, records, available, idNumber, now);
            var i := FindIndex(records, idNumber).value;
            && OnlyCellChanged(records, after, i, header[ArrivalColumn - 1], result.allArrivals)
            && result.allArrivals == AppendArrival(ArrivalOf(records[i]), now.stamp)
            && result.timestamp == now.stamp
            && result.shift == DetermineShift(now.hour)
            && result.name == NameOf(records[i])
  {
  }

  /** The records after registering `idNumber` at each of `times` in turn,
      against a store that answers every call. */
  function RegisterAll(header: seq<string>, records: seq<Record>, idNumber: string, times: seq<LocalTime>): seq<Record>
    decreases |times|
  {
    if times == [] then records
    else Register(header, RegisterAll(header, records, idNumber, times[..|times| - 1]), true, idNumber, times[|times| - 1]).1
  }

  /** The timestamps of a run of clock readings. */
  function Stamps(times: seq<LocalTime>): (r: seq<string>)
    decreases |times|
    ensures |r| == |times| && forall k :: 0 <= k < |times| ==> r[k] == times[k].stamp
  {
    if times == [] then [] else Stamps(times[..|times| - 1]) + [times[|times| - 1].stamp]
  }

  /** The timestamps of all readings but the last, then the last one. */
  lemma StampsOfInit(times: seq<LocalTime>)
    requires times != []
    ensures var init := times[..|times| - 1];
            && Stamps(times) == Stamps(init) + [times[|times| - 1].stamp]
            && (init == [] || Stamps(init)[0] == times[0].stamp)
  {
  }

  /** One registration of a person who is found, against a store whose
      column 5 is `arrival_time`: the new history is the appended one, the
      person stays where the lookup finds them, and nothing else changes. */
  lemma RegisterFoundStep(header: seq<string>, records: seq<Record>, idNumber: string, now: LocalTime, i: nat)
    requires ArrivalColumn <= |header| && header[ArrivalColumn - 1] == ArrivalKey
    requires FindIndex(records, idNumber) == Some(i)
    ensures var after := Register(header, records, true, idNumber, now).1;
            && |after| == |records|
            && FindIndex(after, idNumber) == Some(i)
            && ArrivalOf(after[i]) == AppendArrival(ArrivalOf(records[i]), now.stamp)
            && forall j :: 0 <= j < |records| && j != i ==> after[j] == records[j]
  {
    var after := Register(header, records, true, idNumber, now).1;
    assert IdKey != ArrivalKey;
    assert IdOf(after[i]) == IdOf(records[i]);
    SameIdsSameIndex(records, after, idNumber);
  }

  /** The arrival history is append-only: when column 5 is the
      `arrival_time` column and the person starts with a blank history,
      registering them at t1, ..., tn (n > 0) leaves exactly "t1, ..., tn" in their
      record, which stays where the lookup finds it, and no other record
      changes. */
  lemma {:induction false} RepeatedArrivalsJoin(header: seq<string>, records: seq<Record>, idNumber: string, times: seq<LocalTime>)
    requires ArrivalColumn <= |header| && header[ArrivalColumn - 1] == ArrivalKey
    requires FindIndex(records, idNumber).Some?
    requires IsBlank(ArrivalOf(records[FindIndex(records, idNumber).value]))
    requires forall k :: 0 <= k < |times| ==> !IsBlank(times[k].stamp)
    ensures var i := FindIndex(records, idNumber).value;
            var after := RegisterAll(header, records, idNumber, times);
            && |after| == |records|
            && FindIndex(after, idNumber) == Some(i)
            && ArrivalOf(after[i]) == (if times == [] then ArrivalOf(records[i]) else Join(Stamps(times)))
            && forall j :: 0 <= j < |records| && j != i ==> after[j] == records[j]
    decreases |times|
  {
    var i := FindIndex(records, idNumber).value;
    if times != [] {
      var init := times[..|times| - 1];
      var now := times[|times| - 1];
      RepeatedArrivalsJoin(header, records, idNumber, init);
      var before := RegisterAll(header, records, idNumber, init);
      RegisterFoundStep(header, before, idNumber, now, i);
      StampsOfInit(times);
      if init == [] {
        assert AppendArrival(ArrivalOf(before[i]), now.stamp) == now.stamp;
      } else {
        AppendArrivalJoins(Stamps(init), now.stamp);
      }
    }
  }
}
