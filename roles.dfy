/** Role resolution of services/sheetService.ts: which column (array mode)
    or which key (object mode) holds the timestamp, the student id, the
    name, the class and the reason, found by case-insensitive substring
    search against a fixed synonym list per role. */
module Roles {
  import opened Wrappers
  import opened JsText
  import opened JsValue

  datatype Role = Timestamp | StudentId | StudentName | ClassName | Reason

  /** The synonym list of each role, Malay and English. */
  function Synonyms(role: Role): seq<string> {
    match role
    case Timestamp => ["timestamp", "tarikh", "masa", "date", "waktu"]
    case StudentId => ["id", "no", "matrik"]
    case StudentName => ["name", "nama", "murid", "pelajar"]
    case ClassName => ["class", "kelas", "tingkatan"]
    case Reason => ["reason", "sebab", "punca", "alas"]
  }

  /** `candidates.some(c => text.includes(c))`. */
  function IncludesAny(text: string, candidates: seq<string>): (b: bool)
    ensures b <==> exists j :: 0 <= j < |candidates| && Includes(text, candidates[j])
  {
    if candidates == [] then false
    else Includes(text, candidates[0]) || IncludesAny(text, candidates[1..])
  }

  /** A column name or key belongs to a role when its lower-cased form
      contains one of the role's synonyms. */
  predicate LabelMatches(heading: string, candidates: seq<string>) {
    IncludesAny(Lower(heading), candidates)
  }

  /** `labels[i]` is the first label that matches. */
  predicate FirstMatchAt(labels: seq<string>, i: int, candidates: seq<string>) {
    0 <= i < |labels| && LabelMatches(labels[i], candidates) &&
    forall j :: 0 <= j < i ==> !LabelMatches(labels[j], candidates)
  }

  /** `headers.findIndex(h => keys.some(k => h.toLowerCase().includes(k)))`:
      the position of the first label that matches, -1 when none does. The
      scan follows label order; synonym order plays no part. */
  function GetIndex(labels: seq<string>, candidates: seq<string>): (r: int)
    ensures -1 <= r < |labels|
    ensures r == -1 <==> forall i :: 0 <= i < |labels| ==> !LabelMatches(labels[i], candidates)
    ensures r >= 0 ==> FirstMatchAt(labels, r, candidates)
  {
    if labels == [] then -1
    else if LabelMatches(labels[0], candidates) then 0
    else
      var r := GetIndex(labels[1..], candidates);
      if r == -1 then -1 else r + 1
  }

  /** `findKey(row, candidates)`: nothing for a falsy row, otherwise the first
      of `Object.keys(row)` that matches, nothing when none does. */
  function FindKey(row: Value, candidates: seq<string>): (r: Option<string>)
    ensures r.None? <==> (!Truthy(row) ||
      forall i :: 0 <= i < |Keys(row)| ==> !LabelMatches(Keys(row)[i], candidates))
    ensures r.Some? ==> exists i :: FirstMatchAt(Keys(row), i, candidates) && Keys(row)[i] == r.value
  {
    if !Truthy(row) then None
    else
      var i := GetIndex(Keys(row), candidates);
      if i == -1 then None else Some(Keys(row)[i])
  }

  // ---- index keys never name a role ----------------------------------------

  predicate IsLetter(c: char) {
    'a' <= c <= 'z'
  }

  lemma SynonymsStartWithLetters(role: Role)
    ensures forall j :: 0 <= j < |Synonyms(role)| ==>
      Synonyms(role)[j] != [] && IsLetter(Synonyms(role)[j][0])
  {
  }

  lemma DigitsIncludeNoWord(text: string, word: string)
    requires forall k :: 0 <= k < |text| ==> '0' <= text[k] <= '9'
    requires word != [] && IsLetter(word[0])
    ensures !Includes(text, word)
  {
  }

  /** The index keys "0", "1", ... of an array or string row match no
      synonym, so such a row resolves no role. */
  lemma {:induction false} IndexKeyMatchesNoRole(n: nat, role: Role)
    ensures !LabelMatches(NatToString(n), Synonyms(role))
  {
    var s := NatToString(n);
    assert Lower(s) == s;
    SynonymsStartWithLetters(role);
    forall j | 0 <= j < |Synonyms(role)|
      ensures !Includes(s, Synonyms(role)[j])
    {
      DigitsIncludeNoWord(s, Synonyms(role)[j]);
    }
  }

  /** In object mode only an object row can resolve a role: every other value
      has no keys or only index keys. */
  lemma FindKeyOnlyOnObjects(row: Value, role: Role)
    requires !row.Obj?
    ensures FindKey(row, Synonyms(role)).None?
  {
    forall i | 0 <= i < |Keys(row)|
      ensures !LabelMatches(Keys(row)[i], Synonyms(role))
    {
      IndexKeyMatchesNoRole(i, role);
    }
  }
}
