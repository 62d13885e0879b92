/** `parseDate` of services/sheetService.ts: the engine's standard parse,
    then a year-first / day-first reading of the date before the first
    space, then the hour and minute after it, and finally "now". The
    engine's `new Date(string)` is the parameter `stdParse`; `now` is the
    instant `new Date()` would give. */
module DateParsing {
  import opened Wrappers
  import opened JsText
  import opened JsDate

  // ---- the layers as functions ---------------------------------------------

  /** The text before the first space of the trimmed string. */
  function DatePart(s: string): string {
    Split(Trim(s), {' '})[0]
  }

  /** The date part cut at every `/` and `-`. */
  function DateFields(s: string): seq<string> {
    Split(DatePart(s), {'/', '-'})
  }

  /** `p - 1`, NaN staying NaN. */
  function MonthIndex(p: Option<int>): Option<int> {
    if p.Some? then Some(p.value - 1) else None
  }

  /** A day-first date's year: two digits mean 20yy. */
  function ExpandYear(p: Option<int>): Option<int> {
    if p.Some? && p.value < 100 then Some(2000 + p.value) else p
  }

  /** Three parsed fields read year first when the first exceeds 1900, day
      first otherwise. */
  function ReadFields(p1: Option<int>, p2: Option<int>, p3: Option<int>): Option<DateTime> {
    if p1.Some? && p1.value > 1900 then MakeDate(p1, MonthIndex(p2), p3)
    else MakeDate(ExpandYear(p3), MonthIndex(p2), p1)
  }

  /** The fallback reading of a date the engine could not parse: exactly
      three fields, each read by `parseInt`. */
  function FallbackDate(s: string): Option<DateTime> {
    var parts := DateFields(s);
    if |parts| != 3 then None
    else ReadFields(ParseInt(parts[0]), ParseInt(parts[1]), ParseInt(parts[2]))
  }

  /** The date before any time is applied: the engine's reading when valid,
      the fallback reading otherwise. */
  function BaseDate(s: string, stdParse: string -> Option<DateTime>): (r: Option<DateTime>)
    ensures r.Some? ==> IsValid(r.value)
  {
    var standard := Checked(stdParse(s));
    if standard.Some? then standard else FallbackDate(s)
  }

  /** The hour and minute the string asks for: present when it contains a
      `:`, a non-empty second space-separated token exists and that token has
      at least two `:`-separated fields. */
  function TimeFields(s: string): Option<(Option<int>, Option<int>)> {
    if ':' !in s then None
    else
      var tokens := Split(Trim(s), {' '});
      if |tokens| < 2 || tokens[1] == [] then None
      else
        var pieces := Split(tokens[1], {':'});
        if |pieces| < 2 then None
        else Some((ParseInt(pieces[0]), ParseInt(pieces[1])))
  }

  /** The base date with the requested hour and minute applied. */
  function WithTime(s: string, base: Option<DateTime>): (r: Option<DateTime>)
    requires base.Some? ==> IsValid(base.value)
    ensures r.Some? ==> IsValid(r.value)
  {
    if base.None? then None
    else
      match TimeFields(s)
      case None => base
      case Some((h, m)) => SetHoursValue(base.value, h, m)
  }

  /** What `parseDate(s)` returns: never an invalid instant, "now" standing
      in when every reading failed. */
  function ParsedDate(s: string, stdParse: string -> Option<DateTime>, now: DateTime): (d: DateTime)
    ensures IsValid(now) ==> IsValid(d)
    ensures d != now ==> WithTime(s, BaseDate(s, stdParse)) == Some(d)
  {
    var timed := WithTime(s, BaseDate(s, stdParse));
    if timed.Some? then timed.value else now
  }

  // ---- the source's step-by-step form ----------------------------------------

  /** The `try` block of `parseDate`: the date part split into fields, read
      when there are exactly three. */
  method ReadFallback(dateStr: string) returns (v: Option<DateTime>)
    ensures v == FallbackDate(dateStr)
  {
    v := None;
    var cleanDateStr := Split(Trim(dateStr), {' '})[0];
    var parts := Split(cleanDateStr, {'/', '-'});
    assert parts == DateFields(dateStr);
    if |parts| == 3 {
      var p1 := ParseInt(parts[0]);
      var p2 := ParseInt(parts[1]);
      var p3 := ParseInt(parts[2]);
      v := ReadThree(p1, p2, p3);
    }
  }

  /** The year-first or day-first if/else of `parseDate` on the three parsed
      fields, statement by statement; `ReadFields` is the same reading as a
      function, for the lemmas. */
  method ReadThree(p1: Option<int>, p2: Option<int>, p3: Option<int>) returns (v: Option<DateTime>)
    ensures v == ReadFields(p1, p2, p3)
  {
    if p1.Some? && p1.value > 1900 {
      v := MakeDate(p1, MonthIndex(p2), p3);
    } else {
      var year := if p3.Some? && p3.value < 100 then Some(2000 + p3.value) else p3;
      v := MakeDate(year, MonthIndex(p2), p1);
    }
  }

  /** `parseDate(dateStr)`, reassigning and mutating one Date object. */
  method ParseDate(dateStr: string, stdParse: string -> Option<DateTime>, now: DateTime)
    returns (d: DateTime)
    ensures d == ParsedDate(dateStr, stdParse, now)
  {
    var dateObj := new DateObject(Checked(stdParse(dateStr)));
    if dateObj.IsNaN() {
      var fallback := ReadFallback(dateStr);
      dateObj := new DateObject(fallback);
    }
    ghost var base := BaseDate(dateStr, stdParse);
    assert dateObj.value == base;
    if !dateObj.IsNaN() && ':' in dateStr {
      var timePart := Split(Trim(dateStr), {' '});
      if |timePart| >= 2 && timePart[1] != [] {
        var timeParts := Split(timePart[1], {':'});
        if |timeParts| >= 2 {
          assert TimeFields(dateStr) == Some((ParseInt(timeParts[0]), ParseInt(timeParts[1])));
          dateObj.SetHours(ParseInt(timeParts[0]), ParseInt(timeParts[1]));
        } else {
          assert TimeFields(dateStr).None?;
        }
      } else {
        assert TimeFields(dateStr).None?;
      }
    }
    assert dateObj.value == WithTime(dateStr, base);
    if dateObj.IsNaN() {
      return now;
    }
    return dateObj.value.value;
  }

  // ---- what the layers guarantee -----------------------------------------------

  /** `parseInt` of text without a minus sign is never negative. */
  lemma ParseIntWithoutMinus(s: string)
    requires '-' !in s
    requires ParseInt(s).Some?
    ensures ParseInt(s).value >= 0
  {
    var t := TrimStart(s);
    assert t != [] ==> t[0] == s[|s| - |t|];
  }

  /** A valid standard parse is kept as the base date. */
  lemma StandardParseFirst(s: string, stdParse: string -> Option<DateTime>)
    requires stdParse(s).Some? && IsValid(stdParse(s).value)
    ensures BaseDate(s, stdParse) == stdParse(s)
  {
  }

  /** Year first: a first field above 1900 is the year, then the month
      (1-based) and the day. */
  lemma ReadYearFirst(y: int, m: int, d: int)
    requires y > 1900
    requires IsValid(DateTime(y, m - 1, d, 0, 0, 0, 0))
    ensures ReadFields(Some(y), Some(m), Some(d)) == Some(DateTime(y, m - 1, d, 0, 0, 0, 0))
  {
    MakeDateExact(y, m - 1, d);
  }

  /** Day first: a first field of at most 1900 is the day, then the month
      (1-based) and the year, a year below 100 standing for 2000 plus it. */
  lemma ReadDayFirst(d: int, m: int, y: int)
    requires d <= 1900 && y >= 0
    requires IsValid(DateTime(if y < 100 then 2000 + y else y, m - 1, d, 0, 0, 0, 0))
    ensures ReadFields(Some(d), Some(m), Some(y)) ==
      Some(DateTime(if y < 100 then 2000 + y else y, m - 1, d, 0, 0, 0, 0))
  {
    MakeDateExact(if y < 100 then 2000 + y else y, m - 1, d);
  }

  /** A date the engine rejects is read from its three `/`- or `-`-separated
      fields; no field can carry a minus sign, so a parsed year is never
      negative. */
  lemma FallbackReadsFields(s: string, stdParse: string -> Option<DateTime>)
    requires Checked(stdParse(s)).None?
    requires |DateFields(s)| == 3
    ensures BaseDate(s, stdParse) ==
      ReadFields(ParseInt(DateFields(s)[0]), ParseInt(DateFields(s)[1]), ParseInt(DateFields(s)[2]))
    ensures ParseInt(DateFields(s)[2]).Some? ==> ParseInt(DateFields(s)[2]).value >= 0
  {
    var parts := DateFields(s);
    if ParseInt(parts[2]).Some? {
      assert '-' !in parts[2];
      ParseIntWithoutMinus(parts[2]);
    }
  }

  /** Without exactly three fields the fallback gives nothing. */
  lemma FallbackNeedsThreeFields(s: string)
    requires |DateFields(s)| != 3
    ensures FallbackDate(s).None?
  {
  }

  /** The time overwrite applies to any valid base date, a successful
      standard parse included: the calendar day and the seconds stay, the
      hour and minute become the requested ones. */
  lemma TimeOverwrite(s: string, stdParse: string -> Option<DateTime>, now: DateTime, h: int, m: int)
    requires BaseDate(s, stdParse).Some?
    requires TimeFields(s) == Some((Some(h), Some(m)))
    requires 0 <= h < 24 && 0 <= m < 60
    requires IsValid(BaseDate(s, stdParse).value.(hour := h, minute := m))
    ensures ParsedDate(s, stdParse, now) == BaseDate(s, stdParse).value.(hour := h, minute := m)
  {
    SetHoursWithinDay(BaseDate(s, stdParse).value, h, m);
  }

  /** Text without a space has no second token, so it asks for no time. */
  lemma NoSpaceNoTime(s: string)
    requires ' ' !in s
    ensures TimeFields(s).None?
  {
    var t := Trim(s);
    var i :| TrimmedAt(s, t, i);
    assert forall k :: 0 <= k < |t| ==> t[k] == s[i + k];
    SplitWithoutSeparator(t, {' '});
  }

  /** Without a time request the base date is the result. */
  lemma NoTimeKeepsBase(s: string, stdParse: string -> Option<DateTime>, now: DateTime)
    requires BaseDate(s, stdParse).Some?
    requires TimeFields(s).None?
    ensures ParsedDate(s, stdParse, now) == BaseDate(s, stdParse).value
  {
  }

  /** "Now" is the answer exactly when no reading produced a valid date. */
  lemma FallsBackToNow(s: string, stdParse: string -> Option<DateTime>, now: DateTime)
    requires WithTime(s, BaseDate(s, stdParse)).None?
    ensures ParsedDate(s, stdParse, now) == now
  {
  }
}
