/** The first-wins filter behind the duplicate check of `fetchSheetData`
    in services/sheetService.ts, for any key: an element is kept when no
    earlier element has its key. */
module KeepFirst {
  /** The keys of the elements of `s`. */
  function KeySet<T>(s: seq<T>, key: T -> string): (ks: set<string>)
    ensures forall i :: 0 <= i < |s| ==> key(s[i]) in ks
    ensures forall k :: k in ks ==> exists i :: 0 <= i < |s| && key(s[i]) == k
  {
    if s == [] then {} else KeySet(s[..|s| - 1], key) + {key(s[|s| - 1])}
  }

  /** No two elements of `s` share a key. */
  predicate DistinctKeys<T>(s: seq<T>, key: T -> string) {
    forall i, j :: 0 <= i < j < |s| ==> key(s[i]) != key(s[j])
  }

  /** `s[i]` is the first element of its key. */
  predicate FirstOfKey<T>(s: seq<T>, key: T -> string, i: int) {
    0 <= i < |s| && forall j :: 0 <= j < i ==> key(s[j]) != key(s[i])
  }

  /** The elements that survive the filter, in their original order: each
      element whose key no earlier element has. */
  function FirstPerKey<T>(s: seq<T>, key: T -> string): (r: seq<T>)
    ensures |r| <= |s|
  {
    if s == [] then []
    else
      var init := s[..|s| - 1];
      var last := s[|s| - 1];
      if key(last) in KeySet(init, key) then FirstPerKey(init, key) else FirstPerKey(init, key) + [last]
  }

  /** The positions of the survivors, increasing. */
  ghost function Kept<T>(s: seq<T>, key: T -> string): (ks: seq<int>)
    ensures forall k :: 0 <= k < |ks| ==> 0 <= ks[k] < |s|
    ensures forall k, l :: 0 <= k < l < |ks| ==> ks[k] < ks[l]
  {
    if s == [] then []
    else
      var init := s[..|s| - 1];
      if key(s[|s| - 1]) in KeySet(init, key) then Kept(init, key) else Kept(init, key) + [|s| - 1]
  }

  /** The loop of the source: a `seen` set of keys and the list of elements
      kept so far, an element being kept when its key is new. The source
      runs it on records with `DedupKey`. */
  method Deduplicate<T>(records: seq<T>, key: T -> string) returns (unique: seq<T>)
    ensures unique == FirstPerKey(records, key)
  {
    var seen: set<string> := {};
    unique := [];
    for i := 0 to |records|
      invariant seen == KeySet(records[..i], key)
      invariant unique == FirstPerKey(records[..i], key)
    {
      var record := records[i];
      var uniqueKey := key(record);
      Extend(records, i, key);
      if uniqueKey !in seen {
        seen := seen + {uniqueKey};
        unique := unique + [record];
      }
    }
    assert records[..|records|] == records;
  }

  /** One more element: its key joins the key set, and it survives exactly
      when its key is new. */
  lemma Extend<T>(s: seq<T>, i: int, key: T -> string)
    requires 0 <= i < |s|
    ensures KeySet(s[..i + 1], key) == KeySet(s[..i], key) + {key(s[i])}
    ensures FirstPerKey(s[..i + 1], key) ==
      if key(s[i]) in KeySet(s[..i], key) then FirstPerKey(s[..i], key) else FirstPerKey(s[..i], key) + [s[i]]
  {
    assert s[..i + 1][..i] == s[..i];
  }

  // ---- the survivors --------------------------------------------------------------

  /** The survivors are the elements at the positions `Kept` lists, and a
      position is listed exactly when its element is the first of its key:
      the filter keeps a subsequence, the first element of every key and
      nothing else. */
  lemma {:induction false} SurvivorsAt<T>(s: seq<T>, key: T -> string)
    ensures |FirstPerKey(s, key)| == |Kept(s, key)|
    ensures forall k :: 0 <= k < |Kept(s, key)| ==> FirstPerKey(s, key)[k] == s[Kept(s, key)[k]]
  {
    if s != [] {
      var n := |s| - 1;
      var init := s[..n];
      SurvivorsAt(init, key);
      assert forall k :: 0 <= k < |Kept(init, key)| ==> s[Kept(init, key)[k]] == init[Kept(init, key)[k]];
    }
  }

  lemma {:induction false} KeptAreFirsts<T>(s: seq<T>, key: T -> string)
    ensures forall i :: 0 <= i < |s| ==> (FirstOfKey(s, key, i) <==> i in Kept(s, key))
  {
    if s != [] {
      var n := |s| - 1;
      var init := s[..n];
      KeptAreFirsts(init, key);
      FirstOfKeyInPrefix(s, key);
      LastFirstOfKey(s, key);
      assert n !in Kept(init, key);
    }
  }

  /** Whether an element is the first of its key does not depend on what
      follows it. */
  lemma FirstOfKeyInPrefix<T>(s: seq<T>, key: T -> string)
    requires s != []
    ensures forall i :: 0 <= i < |s| - 1 ==> (FirstOfKey(s, key, i) <==> FirstOfKey(s[..|s| - 1], key, i))
  {
  }

  /** The last element is the first of its key exactly when its key is new. */
  lemma LastFirstOfKey<T>(s: seq<T>, key: T -> string)
    requires s != []
    ensures FirstOfKey(s, key, |s| - 1) <==> key(s[|s| - 1]) !in KeySet(s[..|s| - 1], key)
  {
    var n := |s| - 1;
    var init := s[..n];
    if key(s[n]) in KeySet(init, key) {
      var j :| 0 <= j < n && key(init[j]) == key(s[n]);
      assert s[j] == init[j];
    } else {
      assert forall j :: 0 <= j < n ==> s[j] == init[j] && key(init[j]) in KeySet(init, key);
    }
  }

  /** No two survivors share a key. */
  lemma {:induction false} SurvivorsDistinct<T>(s: seq<T>, key: T -> string)
    ensures DistinctKeys(FirstPerKey(s, key), key)
  {
    if s != [] {
      var init := s[..|s| - 1];
      SurvivorsDistinct(init, key);
      SurvivorKeys(init, key);
      DistinctSnoc(FirstPerKey(init, key), s[|s| - 1], key);
    }
  }

  /** Every key of the input has a survivor. */
  lemma {:induction false} SurvivorKeys<T>(s: seq<T>, key: T -> string)
    ensures KeySet(FirstPerKey(s, key), key) == KeySet(s, key)
  {
    if s != [] {
      var init := s[..|s| - 1];
      SurvivorKeys(init, key);
      KeySetSnoc(FirstPerKey(init, key), s[|s| - 1], key);
    }
  }

  lemma KeySetSnoc<T>(s: seq<T>, y: T, key: T -> string)
    ensures KeySet(s + [y], key) == KeySet(s, key) + {key(y)}
  {
    assert (s + [y])[..|s|] == s;
  }

  lemma DistinctSnoc<T>(s: seq<T>, y: T, key: T -> string)
    ensures DistinctKeys(s + [y], key) <==> DistinctKeys(s, key) && key(y) !in KeySet(s, key)
  {
    var t := s + [y];
    assert forall i :: 0 <= i < |s| ==> t[i] == s[i];
    if DistinctKeys(t, key) {
      forall i | 0 <= i < |s|
        ensures key(s[i]) != key(y)
      {
        assert t[|s|] == y;
      }
    }
  }

  /** The filter only drops elements. */
  lemma {:induction false} SurvivorsFromInput<T>(s: seq<T>, key: T -> string)
    ensures multiset(FirstPerKey(s, key)) <= multiset(s)
  {
    if s != [] {
      var init := s[..|s| - 1];
      SurvivorsFromInput(init, key);
      assert s == init + [s[|s| - 1]];
      assert multiset(s) == multiset(init) + multiset{s[|s| - 1]};
    }
  }

  /** The filter keeps any other key distinct that was distinct before. */
  lemma SurvivorsKeepDistinct<T>(s: seq<T>, key: T -> string, other: T -> string)
    requires DistinctKeys(s, other)
    ensures DistinctKeys(FirstPerKey(s, key), other)
  {
    SurvivorsAt(s, key);
    var ks := Kept(s, key);
    forall k, l | 0 <= k < l < |FirstPerKey(s, key)|
      ensures other(FirstPerKey(s, key)[k]) != other(FirstPerKey(s, key)[l])
    {
      assert ks[k] < ks[l];
    }
  }

  /** Elements whose keys are already distinct all survive. */
  lemma {:induction false} DistinctSurvives<T>(s: seq<T>, key: T -> string)
    requires DistinctKeys(s, key)
    ensures FirstPerKey(s, key) == s
  {
    if s != [] {
      var init := s[..|s| - 1];
      assert DistinctKeys(init, key);
      DistinctSurvives(init, key);
      assert key(s[|s| - 1]) !in KeySet(init, key);
      assert s == init + [s[|s| - 1]];
    }
  }

  /** Filtering twice is filtering once. */
  lemma FilterIdempotent<T>(s: seq<T>, key: T -> string)
    ensures FirstPerKey(FirstPerKey(s, key), key) == FirstPerKey(s, key)
  {
    SurvivorsDistinct(s, key);
    DistinctSurvives(FirstPerKey(s, key), key);
  }
}
