/** `fetchSheetData` of services/sheetService.ts once the response is in
    hand: check it, decode it, turn every data row into a record, drop the
    rows that name no student, keep the first record per student and day,
    and order the survivors newest first. The clock is read once per fetch
    (`env.now`). */
module Pipeline {
  import opened Wrappers
  import opened JsText
  import opened JsDate
  import opened JsValue
  import opened Normaliser
  import opened Decoder
  import opened KeepFirst
  import opened StableSort
  import opened Dedup

  /** `new Date(record.timestamp).getTime()`, the sort key. */
  function Time(r: LateRecord): int {
    TimeValue(r.timestamp)
  }

  /** The record id, `REC-<row position>`. */
  function RecordId(r: LateRecord): string {
    r.id
  }

  /** `dataToProcess.map((row, index) => mapRowToRecord(...))`. */
  function Outcomes(p: Payload, env: Env): (outs: seq<RowOutcome>)
    ensures |outs| == |p.rows|
    ensures forall i :: 0 <= i < |p.rows| ==> outs[i] == MapRowToRecord(p.rows[i], i, p.arrayMode, p.headers, env)
  {
    seq(|p.rows|, i requires 0 <= i < |p.rows| => MapRowToRecord(p.rows[i], i, p.arrayMode, p.headers, env))
  }

  /** The positions of the accepted rows, increasing: every accepted row
      is listed, and nothing else. */
  ghost function AcceptedAt(outs: seq<RowOutcome>): (pos: seq<int>)
    ensures forall k :: 0 <= k < |pos| ==> 0 <= pos[k] < |outs| && outs[pos[k]].Accepted?
    ensures forall k, l :: 0 <= k < l < |pos| ==> pos[k] < pos[l]
    ensures forall i :: 0 <= i < |outs| && outs[i].Accepted? ==> i in pos
  {
    if outs == [] then []
    else
      var n := |outs| - 1;
      var init := outs[..n];
      assert forall i :: 0 <= i < n ==> outs[i] == init[i];
      var before := AcceptedAt(init);
      var pos := before + (if outs[n].Accepted? then [n] else []);
      assert forall k :: 0 <= k < |before| ==> pos[k] == before[k];
      assert forall i :: 0 <= i < n && outs[i].Accepted? ==> i in before;
      pos
  }

  /** `.filter(r => r !== null)`: the records of the accepted rows, one per
      accepted row, in row order. */
  function RecordsOf(outs: seq<RowOutcome>): (recs: seq<LateRecord>)
    ensures |recs| <= |outs|
    ensures |recs| == |AcceptedAt(outs)|
    ensures forall k :: 0 <= k < |recs| ==> recs[k] == outs[AcceptedAt(outs)[k]].record
  {
    if outs == [] then []
    else
      var init := outs[..|outs| - 1];
      var last := outs[|outs| - 1];
      assert forall i :: 0 <= i < |init| ==> outs[i] == init[i];
      RecordsOf(init) + (if last.Accepted? then [last.record] else [])
  }

  /** The mapping stops at the first row that throws, and the fetch fails. */
  function Collect(outs: seq<RowOutcome>): (r: Result<seq<LateRecord>, IngestError>)
    ensures r.Err? <==> exists i :: 0 <= i < |outs| && outs[i].Throws?
    ensures r.Err? ==> r.error == RowTypeError
  {
    if exists i :: 0 <= i < |outs| && outs[i].Throws? then Err(RowTypeError) else Ok(RecordsOf(outs))
  }

  /** What the fetch resolves to, or the error it rejects with. */
  function Ingest(resp: Response, parsers: Parsers, env: Env): (r: Result<seq<LateRecord>, IngestError>)
    ensures r.Ok? ==> !IsHtml(resp) && resp.ok
    ensures r.Ok? ==> |r.value| <= |Decode(resp.body, parsers).rows|
  {
    match Admit(resp)
    case Err(e) => Err(e)
    case Ok(text) =>
      var p := Decode(text, parsers);
      if p.rows == [] then Ok([])
      else
        match Collect(Outcomes(p, env))
        case Err(e) => Err(e)
        case Ok(records) => Ok(NewestFirst(FirstPerKey(records, DedupKey), Time))
  }

  /** The fetch as the source performs it: the duplicate loop, then the sort
      in place on the array of survivors. */
  method FetchSheetData(resp: Response, parsers: Parsers, env: Env)
    returns (res: Result<seq<LateRecord>, IngestError>)
    ensures res == Ingest(resp, parsers, env)
  {
    var admitted := Admit(resp);
    if admitted.Err? {
      return Err(admitted.error);
    }
    var p := Decode(admitted.value, parsers);
    if |p.rows| == 0 {
      return Ok([]);
    }
    var normalised := Collect(Outcomes(p, env));
    if normalised.Err? {
      return Err(normalised.error);
    }
    var sorted := DeduplicateAndSort(normalised.value);
    return Ok(sorted);
  }

  /** The last two steps of the fetch: one record per name and day, then
      newest first. */
  method DeduplicateAndSort(records: seq<LateRecord>) returns (sorted: seq<LateRecord>)
    ensures sorted == NewestFirst(FirstPerKey(records, DedupKey), Time)
  {
    var uniqueRecords := Deduplicate(records, DedupKey);
    var a := new LateRecord[|uniqueRecords|](i requires 0 <= i < |uniqueRecords| => uniqueRecords[i]);
    assert a[..] == uniqueRecords;
    SortNewestFirst(a, Time);
    sorted := a[..];
  }

  // ---- where records come from ------------------------------------------------------

  /** `r` is the record of one of the rows. */
  ghost predicate FromRow(outs: seq<RowOutcome>, r: LateRecord) {
    exists i :: 0 <= i < |outs| && outs[i] == Accepted(r)
  }

  /** Every record is the record of an accepted row, and every accepted row
      contributes its record. */
  lemma AcceptedFromRows(outs: seq<RowOutcome>)
    ensures forall k :: 0 <= k < |RecordsOf(outs)| ==> FromRow(outs, RecordsOf(outs)[k])
    ensures forall i :: 0 <= i < |outs| && outs[i].Accepted? ==> outs[i].record in RecordsOf(outs)
  {
    var recs := RecordsOf(outs);
    var pos := AcceptedAt(outs);
    forall k | 0 <= k < |recs|
      ensures FromRow(outs, recs[k])
    {
      assert outs[pos[k]] == Accepted(recs[k]);
    }
    forall i | 0 <= i < |outs| && outs[i].Accepted?
      ensures outs[i].record in recs
    {
      var k :| 0 <= k < |pos| && pos[k] == i;
      assert recs[k] == outs[i].record;
    }
  }

  /** The id of some row position. */
  ghost predicate PositionalId(outs: seq<RowOutcome>, r: LateRecord) {
    exists i :: 0 <= i < |outs| && r.id == "REC-" + IntToString(i)
  }

  /** Rows at distinct positions get distinct ids, so no two records share
      an id. */
  lemma IdsDistinct(outs: seq<RowOutcome>)
    requires forall i :: 0 <= i < |outs| && outs[i].Accepted? ==> outs[i].record.id == "REC-" + IntToString(i)
    ensures DistinctKeys(RecordsOf(outs), RecordId)
    ensures forall k :: 0 <= k < |RecordsOf(outs)| ==> PositionalId(outs, RecordsOf(outs)[k])
  {
    var recs := RecordsOf(outs);
    var pos := AcceptedAt(outs);
    forall k | 0 <= k < |recs|
      ensures recs[k].id == "REC-" + IntToString(pos[k])
    {
    }
    forall k, l | 0 <= k < l < |recs|
      ensures RecordId(recs[k]) != RecordId(recs[l])
    {
      if recs[k].id == recs[l].id {
        assert ("REC-" + IntToString(pos[k]))[4..] == IntToString(pos[k]);
        assert ("REC-" + IntToString(pos[l]))[4..] == IntToString(pos[l]);
        IntToStringInjective(pos[k], pos[l]);
      }
    }
  }

  /** Each row's record carries the id of its position. */
  lemma RowIds(p: Payload, env: Env)
    ensures forall i :: 0 <= i < |Outcomes(p, env)| && Outcomes(p, env)[i].Accepted? ==>
      Outcomes(p, env)[i].record.id == "REC-" + IntToString(i)
  {
    forall i | 0 <= i < |p.rows| && Outcomes(p, env)[i].Accepted?
      ensures Outcomes(p, env)[i].record.id == "REC-" + IntToString(i)
    {
      var c := RowCells(p.rows[i], p.arrayMode, p.headers);
      RecordIdIsPositional(c, i, RecordDate(c, env));
    }
  }

  /** With a valid clock reading every record has a valid timestamp and its
      lateness past 07:30, between 0 and 989 minutes. */
  lemma RecordsTimed(p: Payload, env: Env)
    requires IsValid(env.now)
    ensures forall r :: r in RecordsOf(Outcomes(p, env)) ==> Timed(r)
  {
    var outs := Outcomes(p, env);
    var recs := RecordsOf(outs);
    var pos := AcceptedAt(outs);
    forall k | 0 <= k < |recs|
      ensures Timed(recs[k])
    {
      var i := pos[k];
      AcceptedIsTimed(p.rows[i], i, p.arrayMode, p.headers, env);
    }
  }

  // ---- what the fetch returns -------------------------------------------------------

  /** The survivors, newest first: no two share a name and day, every name
      and day of the input is still there, nothing new appears, and records
      of equal time keep the order the duplicate filter left them in. */
  lemma FinalOrder(records: seq<LateRecord>)
    ensures var out := NewestFirst(FirstPerKey(records, DedupKey), Time);
      && Descending(out, Time)
      && DistinctKeys(out, DedupKey)
      && KeySet(out, DedupKey) == KeySet(records, DedupKey)
      && multiset(out) <= multiset(records)
  {
    var unique := FirstPerKey(records, DedupKey);
    var out := NewestFirst(unique, Time);
    NewestFirstDescending(unique, Time);
    SurvivorsDistinct(records, DedupKey);
    SurvivorKeys(records, DedupKey);
    NewestFirstDistinct(unique, Time, DedupKey);
    NewestFirstPermutes(unique, Time);
    KeySetOfPermutation(out, unique, DedupKey);
    SurvivorsFromInput(records, DedupKey);
  }

  /** Ties in time keep the order of the survivors. */
  lemma FinalTiesStable(records: seq<LateRecord>, t: int)
    ensures AtTime(NewestFirst(FirstPerKey(records, DedupKey), Time), Time, t) ==
      AtTime(FirstPerKey(records, DedupKey), Time, t)
  {
    NewestFirstStable(FirstPerKey(records, DedupKey), Time, t);
  }

  /** The filter and the sort keep record ids distinct. */
  lemma FinalIdsDistinct(records: seq<LateRecord>)
    requires DistinctKeys(records, RecordId)
    ensures DistinctKeys(NewestFirst(FirstPerKey(records, DedupKey), Time), RecordId)
  {
    SurvivorsKeepDistinct(records, DedupKey, RecordId);
    NewestFirstDistinct(FirstPerKey(records, DedupKey), Time, RecordId);
  }

  /** How a fetch fails: a login page whatever the status, a non-2xx status
      otherwise, and a `null` row read by column when the response is
      readable and has rows. */
  lemma Failures(resp: Response, parsers: Parsers, env: Env)
    ensures Ingest(resp, parsers, env) == Err(AuthRequired) <==> IsHtml(resp)
    ensures Ingest(resp, parsers, env) == Err(ScriptUnreachable) <==> !IsHtml(resp) && !resp.ok
    ensures Ingest(resp, parsers, env) == Err(RowTypeError) <==>
      !IsHtml(resp) && resp.ok &&
      exists i :: 0 <= i < |Decode(resp.body, parsers).rows| &&
        Outcomes(Decode(resp.body, parsers), env)[i].Throws?
  {
  }

  /** The records of a payload with rows, filtered and sorted: distinct
      ids, valid timestamps and the lateness of each, newest first, one
      per name and day. */
  lemma Delivered(p: Payload, env: Env)
    requires IsValid(env.now)
    ensures var out := NewestFirst(FirstPerKey(RecordsOf(Outcomes(p, env)), DedupKey), Time);
      && Descending(out, Time)
      && DistinctKeys(out, DedupKey)
      && DistinctKeys(out, RecordId)
      && forall r :: r in out ==> Timed(r)
  {
    var outs := Outcomes(p, env);
    var records := RecordsOf(outs);
    var out := NewestFirst(FirstPerKey(records, DedupKey), Time);
    FinalOrder(records);
    RowIds(p, env);
    IdsDistinct(outs);
    FinalIdsDistinct(records);
    RecordsTimed(p, env);
    forall r | r in out
      ensures r in records
    {
      assert r in multiset(out);
    }
  }

  /** What a successful fetch resolves to has the properties above. */
  lemma Success(resp: Response, parsers: Parsers, env: Env)
    requires IsValid(env.now)
    requires Ingest(resp, parsers, env).Ok?
    ensures var out := Ingest(resp, parsers, env).value;
      && Descending(out, Time)
      && DistinctKeys(out, DedupKey)
      && DistinctKeys(out, RecordId)
      && forall r :: r in out ==> Timed(r)
  {
    var p := Decode(resp.body, parsers);
    if p.rows != [] {
      Delivered(p, env);
    }
  }

  /** A sheet sent as JSON rows of strings and the same sheet sent as CSV
      text give the same result. */
  lemma JsonAndCsvAgree(grid: seq<seq<string>>, jsonText: string, csvText: string, parsers: Parsers, env: Env)
    requires parsers.json(jsonText) == Some(Arr(Grid(grid)))
    requires parsers.json(csvText).None? && parsers.csv(csvText) == grid
    ensures Ingest(Response(None, true, jsonText), parsers, env) ==
      Ingest(Response(None, true, csvText), parsers, env)
  {
    var fromJson := Decode(jsonText, parsers);
    var fromCsv := Decode(csvText, parsers);
    if |grid| > 1 {
      JsonGridMatchesCsv(grid);
      assert fromJson == fromCsv;
    } else {
      assert fromCsv.rows == [];
      assert |grid| == 1 ==> Grid(grid)[1..] == [];
      assert fromJson.rows == [];
    }
  }
}
