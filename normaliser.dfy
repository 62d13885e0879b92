/** `mapRowToRecord` of services/sheetService.ts: one decoded row, its
    position among the data rows and the mode of the payload become one
    late-arrival record, or nothing when the row names no student, or a
    TypeError when an array-mode row is `null`. */
module Normaliser {
  import opened Wrappers
  import opened JsText
  import opened JsValue
  import opened JsDate
  import opened Roles
  import opened DateParsing
  import opened Defaults

  /** The record handed to the dashboard (`LateRecord` in types.ts); the
      timestamp is kept as the instant its ISO text denotes. */
  datatype LateRecord = LateRecord(
    id: string,
    studentId: string,
    studentName: string,
    className: string,
    timestamp: DateTime,
    reason: string,
    minutesLate: int)

  /** What the engine supplies: its `new Date(string)`, the instant
      `new Date()` gives and that instant's `toISOString()` text. */
  datatype Env = Env(stdParse: string -> Option<DateTime>, now: DateTime, nowIso: string)

  /** A clock reading the engine agrees with: a valid instant whose ISO
      text, which holds no space, the engine parses back to that instant. */
  ghost predicate ClockCoherent(env: Env) {
    IsValid(env.now) && env.stdParse(env.nowIso) == Some(env.now) && ' ' !in env.nowIso
  }

  /** The cell found for each role of one row; `None` when the role is not
      resolved. */
  datatype Cells = Cells(
    date: Option<Value>,
    id: Option<Value>,
    name: Option<Value>,
    cls: Option<Value>,
    reason: Option<Value>)

  datatype RowOutcome = Rejected | Accepted(record: LateRecord) | Throws

  /** School starts at 07:30. */
  const SchoolStartMinutes: int := 7 * 60 + 30

  function ArrivalMinutes(d: DateTime): int {
    d.hour * 60 + d.minute
  }

  /** Minutes past 07:30 of the arrival's time of day, never negative. */
  function Lateness(d: DateTime): (m: nat)
    ensures m == 0 <==> ArrivalMinutes(d) <= SchoolStartMinutes
    ensures m > 0 ==> ArrivalMinutes(d) == SchoolStartMinutes + m
    ensures WellFormed(d) ==> m <= 989
  {
    if ArrivalMinutes(d) > SchoolStartMinutes then ArrivalMinutes(d) - SchoolStartMinutes else 0
  }

  // ---- role resolution for one row ---------------------------------------------

  /** The column of a role in array mode, -1 when unresolved. */
  function ColumnOf(headers: seq<string>, role: Role): int {
    GetIndex(headers, Synonyms(role))
  }

  /** The key of a role in object mode. */
  function KeyOf(row: Value, role: Role): Option<string> {
    FindKey(row, Synonyms(role))
  }

  predicate Resolved(row: Value, arrayMode: bool, headers: seq<string>, role: Role) {
    if arrayMode then ColumnOf(headers, role) != -1 else KeyOf(row, role).Some?
  }

  /** The row names its student by a name or an id. */
  predicate Identifiable(row: Value, arrayMode: bool, headers: seq<string>) {
    Resolved(row, arrayMode, headers, StudentName) || Resolved(row, arrayMode, headers, StudentId)
  }

  function Cell(row: Value, arrayMode: bool, headers: seq<string>, role: Role): (c: Option<Value>)
    requires arrayMode ==> Indexable(row)
    ensures c.None? <==> !Resolved(row, arrayMode, headers, role)
  {
    if arrayMode then
      var i := ColumnOf(headers, role);
      if i == -1 then None else Some(At(row, i))
    else
      var k := KeyOf(row, role);
      if k.None? then None else Some(Get(row, k.value))
  }

  function RowCells(row: Value, arrayMode: bool, headers: seq<string>): Cells
    requires arrayMode ==> Indexable(row)
  {
    Cells(Cell(row, arrayMode, headers, Timestamp), Cell(row, arrayMode, headers, StudentId),
          Cell(row, arrayMode, headers, StudentName), Cell(row, arrayMode, headers, ClassName),
          Cell(row, arrayMode, headers, Reason))
  }

  // ---- the record ----------------------------------------------------------------

  /** The cell of a role, or the role's default when it is unresolved. */
  function OrDefault(c: Option<Value>, default: string): Value {
    if c.Some? then c.value else Str(default)
  }

  /** `String(v || fallback).trim().toUpperCase()`: upper case, neither
      starting nor ending with white space. */
  function Cleaned(v: Value, fallback: string): (s: string)
    ensures Upper(s) == s
    ensures s == [] || (!IsWhiteSpace(s[0]) && !IsWhiteSpace(s[|s| - 1]))
  {
    var t := Trim(ToStr(if Truthy(v) then v else Str(fallback)));
    UpperOfTrimmed(t);
    Upper(t)
  }

  /** The instant of the row: its date cell's text, or the clock's ISO
      text when the cell is missing or empty, read by `parseDate`. */
  function RecordDate(c: Cells, env: Env): (d: DateTime)
    ensures IsValid(env.now) ==> IsValid(d)
    ensures c.date.Some? && Truthy(c.date.value) && d != env.now ==>
      var text := ToStr(c.date.value);
      WithTime(text, BaseDate(text, env.stdParse)) == Some(d)
  {
    var dateStr := OrDefault(c.date, "");
    var text := if Truthy(dateStr) then ToStr(dateStr) else env.nowIso;
    ParsedDate(text, env.stdParse, env.now)
  }

  /** The student id: the cell's text, or one made from 1000 plus the
      position when there is no id column. */
  function StudentIdText(c: Cells, index: nat): (t: string)
    ensures c.id.None? ==> t == "S-" + IntToString(1000 + index)
    ensures c.id.Some? ==> t == ToStr(c.id.value)
  {
    ToStr(OrDefault(c.id, "S-" + IntToString(1000 + index)))
  }

  /** The reason: the cell's text, or "Tiada Rekod" when there is no
      reason column. */
  function ReasonText(c: Cells): (t: string)
    ensures c.reason.None? ==> t == NoReason
    ensures c.reason.Some? ==> t == ToStr(c.reason.value)
  {
    ToStr(OrDefault(c.reason, NoReason))
  }

  /** The record of the row at `index` from its cells and its instant. */
  function RecordOf(c: Cells, index: nat, date: DateTime): LateRecord {
    LateRecord(
      "REC-" + IntToString(index),
      StudentIdText(c, index),
      Cleaned(OrDefault(c.name, UnknownName), UnknownName),
      Cleaned(OrDefault(c.cls, GeneralClass), NoClass),
      date,
      ReasonText(c),
      Lateness(date))
  }

  /** The record built from the resolved cells of the row at `index`. */
  function BuildRecord(c: Cells, index: nat, env: Env): LateRecord {
    RecordOf(c, index, RecordDate(c, env))
  }

  /** `mapRowToRecord(row, index, isArrayMode, headers)`. */
  function MapRowToRecord(row: Value, index: nat, arrayMode: bool, headers: seq<string>, env: Env): RowOutcome {
    if arrayMode && headers == [] then Rejected
    else if !Identifiable(row, arrayMode, headers) then Rejected
    else if arrayMode && !Indexable(row) then Throws
    else Accepted(BuildRecord(RowCells(row, arrayMode, headers), index, env))
  }

  // ---- what a row becomes ------------------------------------------------------------

  /** A row is dropped exactly when array mode has no header row or neither
      a name nor an id can be resolved. */
  lemma RejectedIff(row: Value, index: nat, arrayMode: bool, headers: seq<string>, env: Env)
    ensures MapRowToRecord(row, index, arrayMode, headers, env) == Rejected <==>
      (arrayMode && headers == []) ||
      (!Resolved(row, arrayMode, headers, StudentName) && !Resolved(row, arrayMode, headers, StudentId))
  {
  }

  /** Reading a resolved column of a `null` array-mode row throws. */
  lemma ThrowsIff(row: Value, index: nat, arrayMode: bool, headers: seq<string>, env: Env)
    ensures MapRowToRecord(row, index, arrayMode, headers, env).Throws? <==>
      arrayMode && headers != [] && Identifiable(row, arrayMode, headers) && !Indexable(row)
  {
  }

  /** In object mode every row that is not an object is dropped. */
  lemma NonObjectRowRejected(row: Value, index: nat, headers: seq<string>, env: Env)
    requires !row.Obj?
    ensures MapRowToRecord(row, index, false, headers, env) == Rejected
  {
    FindKeyOnlyOnObjects(row, StudentName);
    FindKeyOnlyOnObjects(row, StudentId);
  }

  lemma UpperKeepsWhiteSpace(c: char)
    ensures IsWhiteSpace(UpperChar(c)) <==> IsWhiteSpace(c)
  {
  }

  /** Upper-casing a trimmed string leaves it trimmed, and a second
      upper-casing changes nothing. */
  lemma UpperOfTrimmed(t: string)
    requires t == [] || (!IsWhiteSpace(t[0]) && !IsWhiteSpace(t[|t| - 1]))
    ensures var s := Upper(t);
      Upper(s) == s && (s == [] || (!IsWhiteSpace(s[0]) && !IsWhiteSpace(s[|s| - 1])))
  {
    var s := Upper(t);
    assert forall k :: 0 <= k < |s| ==> Upper(s)[k] == s[k];
    if s != [] {
      UpperKeepsWhiteSpace(t[0]);
      UpperKeepsWhiteSpace(t[|t| - 1]);
    }
  }

  /** The record id is positional. */
  lemma RecordIdIsPositional(c: Cells, index: nat, date: DateTime)
    ensures RecordOf(c, index, date).id == "REC-" + IntToString(index)
  {
  }

  /** A falsy cell is replaced by the fallback before cleaning. */
  lemma CleanedFalsy(v: Value, fallback: string)
    requires !Truthy(v)
    ensures Cleaned(v, fallback) == Upper(Trim(fallback))
  {
  }

  /** A non-empty default text is cleaned as it is. */
  lemma CleanedText(text: string, fallback: string)
    requires text != []
    ensures Cleaned(Str(text), fallback) == Upper(Trim(text))
  {
  }

  /** An unresolved or falsy name becomes "UNKNOWN". */
  lemma NameDefault(c: Cells, index: nat, date: DateTime)
    requires c.name.None? || !Truthy(c.name.value)
    ensures RecordOf(c, index, date).studentName == "UNKNOWN"
  {
    var v := OrDefault(c.name, UnknownName);
    if c.name.None? {
      CleanedText(UnknownName, UnknownName);
    } else {
      CleanedFalsy(v, UnknownName);
    }
    DefaultsCleaned();
    assert RecordOf(c, index, date).studentName == Cleaned(v, UnknownName);
  }

  /** An unresolved class becomes "UMUM". */
  lemma ClassDefault(c: Cells, index: nat, date: DateTime)
    requires c.cls.None?
    ensures RecordOf(c, index, date).className == "UMUM"
  {
    CleanedText(GeneralClass, NoClass);
    DefaultsCleaned();
    assert RecordOf(c, index, date).className == Cleaned(Str(GeneralClass), NoClass);
  }

  /** A resolved but falsy class becomes "-". */
  lemma FalsyClassDash(c: Cells, index: nat, date: DateTime)
    requires c.cls.Some? && !Truthy(c.cls.value)
    ensures RecordOf(c, index, date).className == "-"
  {
    CleanedFalsy(c.cls.value, NoClass);
    DefaultsCleaned();
    assert RecordOf(c, index, date).className == Cleaned(c.cls.value, NoClass);
  }

  /** A resolved name that is only white space is truthy, so it is not
      replaced by the default: it becomes the empty name. */
  lemma BlankNameStaysEmpty(c: Cells, index: nat, date: DateTime, blank: string)
    requires blank != [] && forall k :: 0 <= k < |blank| ==> IsWhiteSpace(blank[k])
    requires c.name == Some(Str(blank))
    ensures RecordOf(c, index, date).studentName == []
  {
    CleanedBlank(blank, UnknownName);
  }

  /** A non-empty text of white space is truthy and cleans to nothing. */
  lemma CleanedBlank(blank: string, fallback: string)
    requires blank != [] && forall k :: 0 <= k < |blank| ==> IsWhiteSpace(blank[k])
    ensures Cleaned(Str(blank), fallback) == []
  {
    TrimOfWhiteSpace(blank);
    assert Cleaned(Str(blank), fallback) == Upper([]);
  }

  /** With a valid clock reading the timestamp is a valid instant, and the
      lateness is the arrival's minutes past 07:30, between 0 and 989. */
  lemma RecordTiming(c: Cells, index: nat, env: Env)
    requires IsValid(env.now)
    ensures var r := BuildRecord(c, index, env);
      && IsValid(r.timestamp)
      && r.minutesLate == Lateness(r.timestamp)
      && 0 <= r.minutesLate <= 989
      && (r.minutesLate == 0 <==> ArrivalMinutes(r.timestamp) <= SchoolStartMinutes)
      && (r.minutesLate > 0 ==> ArrivalMinutes(r.timestamp) == SchoolStartMinutes + r.minutesLate)
  {
  }

  /** A row whose date cell is missing or falsy is stamped with the clock's
      own instant: its ISO text parses back to it and asks for no time. */
  lemma MissingDateIsNow(c: Cells, env: Env)
    requires ClockCoherent(env)
    requires c.date.None? || !Truthy(c.date.value)
    ensures RecordDate(c, env) == env.now
  {
    NoSpaceNoTime(env.nowIso);
    assert BaseDate(env.nowIso, env.stdParse) == Some(env.now);
    NoTimeKeepsBase(env.nowIso, env.stdParse, env.now);
  }

  /** A valid timestamp, and a lateness that is the arrival's minutes past
      07:30, between 0 and 989. */
  predicate Timed(r: LateRecord) {
    IsValid(r.timestamp) && r.minutesLate == Lateness(r.timestamp) && 0 <= r.minutesLate <= 989
  }

  /** With a valid clock reading, the record of an accepted row is timed. */
  lemma AcceptedIsTimed(row: Value, index: nat, arrayMode: bool, headers: seq<string>, env: Env)
    requires IsValid(env.now)
    requires MapRowToRecord(row, index, arrayMode, headers, env).Accepted?
    ensures Timed(MapRowToRecord(row, index, arrayMode, headers, env).record)
  {
    RecordTiming(RowCells(row, arrayMode, headers), index, env);
  }
}
