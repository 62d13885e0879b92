/** The duplicate filter of `fetchSheetData` in services/sheetService.ts: a
    student scanned twice on one calendar day keeps only the first record.
    The key is the trimmed, lower-cased name, `_`, and the day as
    `year-month-day` with the 0-based month `getMonth()` gives. */
module Dedup {
  import opened JsText
  import opened JsDate
  import opened Normaliser
  import opened KeepFirst

  /** `${getFullYear()}-${getMonth()}-${getDate()}`. */
  function DayKey(d: DateTime): string {
    IntToString(d.year) + "-" + IntToString(d.month) + "-" + IntToString(d.day)
  }

  /** The name-and-day key of a record. */
  function DedupKey(r: LateRecord): (k: string)
    ensures WellFormed(r.timestamp) ==>
      var day := DayKey(r.timestamp);
      |day| < |k| && k[|k| - |day| - 1] == '_' && k[|k| - |day|..] == day && '_' !in day
  {
    assert WellFormed(r.timestamp) ==> '_' !in DayKey(r.timestamp) by {
      if WellFormed(r.timestamp) {
        DayKeyHasNoUnderscore(r.timestamp);
      }
    }
    Lower(Trim(r.studentName)) + "_" + DayKey(r.timestamp)
  }

  // ---- the key is the pair (name, day) -----------------------------------------

  /** Cutting at the last occurrence of a separator is unique. */
  lemma CutAtLast(a: string, b: string, a': string, b': string, c: char)
    requires c !in b && c !in b'
    requires a + [c] + b == a' + [c] + b'
    ensures a == a' && b == b'
  {
    var s := a + [c] + b;
    assert s[|a|] == c && s[|a'|] == c;
    assert forall k :: |a| < k < |s| ==> s[k] == b[k - |a| - 1];
    assert forall k :: |a'| < k < |s| ==> s[k] == b'[k - |a'| - 1];
    assert |a| == |a'|;
    assert a == s[..|a|] == a';
    assert b == s[|a| + 1..] == b';
  }

  lemma DigitsHaveNo(n: nat, c: char)
    requires !('0' <= c <= '9')
    ensures c !in NatToString(n)
  {
  }

  /** Two dates have the same day key exactly when they are on the same
      calendar day (the month and day of a date are never negative). */
  lemma DayKeyIdentifiesDay(d: DateTime, e: DateTime)
    requires WellFormed(d) && WellFormed(e)
    ensures DayKey(d) == DayKey(e) <==> (d.year, d.month, d.day) == (e.year, e.month, e.day)
  {
    if DayKey(d) == DayKey(e) {
      DigitsHaveNo(d.day, '-');
      DigitsHaveNo(e.day, '-');
      DigitsHaveNo(d.month, '-');
      DigitsHaveNo(e.month, '-');
      assert IntToString(d.year) + "-" + IntToString(d.month) + "-" + IntToString(d.day) ==
        (IntToString(d.year) + "-" + IntToString(d.month)) + ['-'] + IntToString(d.day);
      assert IntToString(e.year) + "-" + IntToString(e.month) + "-" + IntToString(e.day) ==
        (IntToString(e.year) + "-" + IntToString(e.month)) + ['-'] + IntToString(e.day);
      CutAtLast(IntToString(d.year) + "-" + IntToString(d.month), IntToString(d.day),
                IntToString(e.year) + "-" + IntToString(e.month), IntToString(e.day), '-');
      assert IntToString(d.year) + "-" + IntToString(d.month) == IntToString(d.year) + ['-'] + IntToString(d.month);
      assert IntToString(e.year) + "-" + IntToString(e.month) == IntToString(e.year) + ['-'] + IntToString(e.month);
      CutAtLast(IntToString(d.year), IntToString(d.month), IntToString(e.year), IntToString(e.month), '-');
      IntToStringInjective(d.year, e.year);
      IntToStringInjective(d.month, e.month);
      IntToStringInjective(d.day, e.day);
    }
  }

  lemma DayKeyHasNoUnderscore(d: DateTime)
    requires WellFormed(d)
    ensures '_' !in DayKey(d)
  {
    DigitsHaveNo(d.month, '_');
    DigitsHaveNo(d.day, '_');
    if d.year < 0 {
      DigitsHaveNo(-d.year, '_');
    } else {
      DigitsHaveNo(d.year, '_');
    }
  }

  /** Two records share a key exactly when their cleaned names agree and
      they fall on the same calendar day, whatever the names contain. */
  lemma KeyIsNameAndDay(a: LateRecord, b: LateRecord)
    requires WellFormed(a.timestamp) && WellFormed(b.timestamp)
    ensures DedupKey(a) == DedupKey(b) <==>
      Lower(Trim(a.studentName)) == Lower(Trim(b.studentName)) &&
      (a.timestamp.year, a.timestamp.month, a.timestamp.day) == (b.timestamp.year, b.timestamp.month, b.timestamp.day)
  {
    DayKeyIdentifiesDay(a.timestamp, b.timestamp);
    if DedupKey(a) == DedupKey(b) {
      DayKeyHasNoUnderscore(a.timestamp);
      DayKeyHasNoUnderscore(b.timestamp);
      CutAtLast(Lower(Trim(a.studentName)), DayKey(a.timestamp),
                Lower(Trim(b.studentName)), DayKey(b.timestamp), '_');
    }
  }
}
