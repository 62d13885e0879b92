/** The fallback texts `mapRowToRecord` in services/sheetService.ts puts in
    place of a missing or empty cell, and what cleaning makes of them. */
module Defaults {
  import opened JsText

  /** The name of a row without a name column, or with an empty name. */
  const UnknownName: string := "Unknown"
  /** The class of a row without a class column. */
  const GeneralClass: string := "Umum"
  /** The class of a row whose class cell is empty. */
  const NoClass: string := "-"
  /** The reason of a row without a reason column. */
  const NoReason: string := "Tiada Rekod"

  /** A string with no white space at either end is its own trim. */
  lemma TrimmedAlready(s: string)
    requires s != [] && !IsWhiteSpace(s[0]) && !IsWhiteSpace(s[|s| - 1])
    ensures Trim(s) == s
  {
    assert TrimStart(s) == s;
  }

  lemma UnknownTrimmed()
    ensures Trim(UnknownName) == UnknownName
  {
    TrimmedAlready(UnknownName);
  }

  lemma GeneralClassTrimmed()
    ensures Trim(GeneralClass) == GeneralClass
  {
    TrimmedAlready(GeneralClass);
  }

  lemma NoClassTrimmed()
    ensures Trim(NoClass) == NoClass
  {
    TrimmedAlready(NoClass);
  }

  lemma DefaultsUpper()
    ensures Upper(UnknownName) == "UNKNOWN"
    ensures Upper(GeneralClass) == "UMUM"
    ensures Upper(NoClass) == NoClass
  {
  }

  /** The fallback name and classes come out of cleaning as "UNKNOWN",
      "UMUM" and "-". */
  lemma DefaultsCleaned()
    ensures Upper(Trim(UnknownName)) == "UNKNOWN"
    ensures Upper(Trim(GeneralClass)) == "UMUM"
    ensures Upper(Trim(NoClass)) == "-"
  {
    UnknownTrimmed();
    GeneralClassTrimmed();
    NoClassTrimmed();
    DefaultsUpper();
  }
}
