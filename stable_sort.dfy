/** The final ordering of `fetchSheetData` in services/sheetService.ts:
    `Array.prototype.sort` with the comparator `time(b) - time(a)`, which
    the language requires to be stable, so the result is newest first with
    records of equal time in their original order. The ordering is stated
    for any integer time; the service sorts by `getTime()`. */
module StableSort {
  import opened KeepFirst

  /** Times never increase along `s`. */
  predicate Descending<T>(s: seq<T>, time: T -> int) {
    forall i, j :: 0 <= i < j < |s| ==> time(s[i]) >= time(s[j])
  }

  /** `x` placed after every element of `s` at least as recent as it. */
  function Insert<T>(s: seq<T>, x: T, time: T -> int): (r: seq<T>)
    ensures |r| == |s| + 1
  {
    if s == [] then [x]
    else if time(s[|s| - 1]) >= time(x) then s + [x]
    else Insert(s[..|s| - 1], x, time) + [s[|s| - 1]]
  }

  /** The stable descending order of `s`: each element inserted in turn. */
  function NewestFirst<T>(s: seq<T>, time: T -> int): (r: seq<T>)
    ensures |r| == |s|
  {
    if s == [] then [] else Insert(NewestFirst(s[..|s| - 1], time), s[|s| - 1], time)
  }

  /** The elements of `s` whose time is `t`, in order. */
  function AtTime<T>(s: seq<T>, time: T -> int, t: int): seq<T> {
    if s == [] then []
    else AtTime(s[..|s| - 1], time, t) + (if time(s[|s| - 1]) == t then [s[|s| - 1]] else [])
  }

  /** Insertion sort in place: each element in turn is moved left past the
      elements strictly older than it. */
  method SortNewestFirst<T>(a: array<T>, time: T -> int)
    modifies a
    ensures a[..] == NewestFirst(old(a[..]), time)
  {
    ghost var input := a[..];
    var i := 0;
    while i < a.Length
      invariant 0 <= i <= a.Length
      invariant a[..i] == NewestFirst(input[..i], time)
      invariant a[i..] == input[i..]
    {
      InsertInto(a, i, time);
      assert input[..i + 1] == input[..i] + [input[i]];
      i := i + 1;
    }
    assert input[..a.Length] == input;
  }

  /** One step of the sort: `a[i]` is inserted into the prefix before it,
      the elements after it stay. */
  method InsertInto<T>(a: array<T>, i: int, time: T -> int)
    requires 0 <= i < a.Length
    modifies a
    ensures a[..i + 1] == Insert(old(a[..i]), old(a[i]), time)
    ensures a[i + 1..] == old(a[i + 1..])
  {
    var x := a[i];
    ghost var sorted := a[..i];
    ghost var rest := a[i + 1..];
    var j := i;
    while j > 0 && time(a[j - 1]) < time(x)
      invariant 0 <= j <= i
      invariant forall k :: 0 <= k < j ==> a[k] == sorted[k]
      invariant forall k :: j < k <= i ==> a[k] == sorted[k - 1]
      invariant forall k :: i < k < a.Length ==> a[k] == old(a[k])
      invariant forall k :: j <= k < i ==> time(sorted[k]) < time(x)
    {
      a[j] := a[j - 1];
      j := j - 1;
    }
    a[j] := x;
    assert forall k :: 0 <= k < |rest| ==> a[i + 1 + k] == rest[k];
    Placed(sorted, x, j, a[..i + 1], time);
  }

  /** Inserting `x` puts it after the elements at least as recent as it
      and before the strictly older ones that end the sequence. */
  lemma {:induction false} InsertSplit<T>(s: seq<T>, x: T, j: int, time: T -> int)
    requires 0 <= j <= |s|
    requires j == 0 || time(s[j - 1]) >= time(x)
    requires forall k :: j <= k < |s| ==> time(s[k]) < time(x)
    ensures Insert(s, x, time) == s[..j] + [x] + s[j..]
  {
    if j < |s| {
      var init := s[..|s| - 1];
      InsertSplit(init, x, j, time);
      assert init[..j] == s[..j];
      assert s[j..] == init[j..] + [s[|s| - 1]];
    }
  }

  /** Where the inner loop stops, `x` goes: the elements before it stay,
      the strictly older ones after it have moved one place right. */
  lemma Placed<T>(sorted: seq<T>, x: T, j: int, r: seq<T>, time: T -> int)
    requires 0 <= j <= |sorted| && |r| == |sorted| + 1
    requires j == 0 || time(sorted[j - 1]) >= time(x)
    requires forall k :: j <= k < |sorted| ==> time(sorted[k]) < time(x)
    requires forall k :: 0 <= k < j ==> r[k] == sorted[k]
    requires r[j] == x
    requires forall k :: j < k < |r| ==> r[k] == sorted[k - 1]
    ensures r == Insert(sorted, x, time)
  {
    InsertSplit(sorted, x, j, time);
    assert r == sorted[..j] + [x] + sorted[j..];
  }

  // ---- what the order guarantees ------------------------------------------------

  lemma {:induction false} InsertPermutes<T>(s: seq<T>, x: T, time: T -> int)
    ensures multiset(Insert(s, x, time)) == multiset(s) + multiset{x}
  {
    if s != [] && time(s[|s| - 1]) < time(x) {
      var init := s[..|s| - 1];
      InsertPermutes(init, x, time);
      assert s == init + [s[|s| - 1]];
    }
  }

  /** The result holds exactly the input's elements. */
  lemma {:induction false} NewestFirstPermutes<T>(s: seq<T>, time: T -> int)
    ensures multiset(NewestFirst(s, time)) == multiset(s)
  {
    if s != [] {
      var init := s[..|s| - 1];
      NewestFirstPermutes(init, time);
      InsertPermutes(NewestFirst(init, time), s[|s| - 1], time);
      assert s == init + [s[|s| - 1]];
    }
  }

  lemma {:induction false} InsertDescending<T>(s: seq<T>, x: T, time: T -> int)
    requires Descending(s, time)
    ensures Descending(Insert(s, x, time), time)
    ensures s != [] ==> time(Insert(s, x, time)[|s|]) == time(s[|s| - 1]) || time(Insert(s, x, time)[|s|]) == time(x)
  {
    if s != [] && time(s[|s| - 1]) < time(x) {
      var init := s[..|s| - 1];
      var last := s[|s| - 1];
      assert Descending(init, time);
      InsertDescending(init, x, time);
      var r := Insert(init, x, time);
      if init != [] {
        assert time(init[|init| - 1]) >= time(last);
      }
      assert time(r[|r| - 1]) >= time(last);
      assert forall k :: 0 <= k < |r| ==> time(r[k]) >= time(r[|r| - 1]);
    }
  }

  /** The result is newest first. */
  lemma {:induction false} NewestFirstDescending<T>(s: seq<T>, time: T -> int)
    ensures Descending(NewestFirst(s, time), time)
  {
    if s != [] {
      NewestFirstDescending(s[..|s| - 1], time);
      InsertDescending(NewestFirst(s[..|s| - 1], time), s[|s| - 1], time);
    }
  }

  lemma AtTimeAppend<T>(s: seq<T>, u: seq<T>, time: T -> int, t: int)
    ensures AtTime(s + u, time, t) == AtTime(s, time, t) + AtTime(u, time, t)
    decreases |u|
  {
    if u != [] {
      assert (s + u)[..|s + u| - 1] == s + u[..|u| - 1];
      AtTimeAppend(s, u[..|u| - 1], time, t);
    } else {
      assert s + u == s;
    }
  }

  lemma {:induction false} InsertStable<T>(s: seq<T>, x: T, time: T -> int, t: int)
    requires Descending(s, time)
    ensures AtTime(Insert(s, x, time), time, t) == AtTime(s, time, t) + AtTime([x], time, t)
  {
    if s == [] {
    } else if time(s[|s| - 1]) >= time(x) {
      AtTimeAppend(s, [x], time, t);
    } else {
      var init := s[..|s| - 1];
      var last := s[|s| - 1];
      InsertStable(init, x, time, t);
      AtTimeAppend(Insert(init, x, time), [last], time, t);
      AtTimeAppend(init, [last], time, t);
      AtTimeAppend(init, [x], time, t);
      assert s == init + [last];
    }
  }

  /** Stability: the elements of any one time keep their input order. */
  lemma {:induction false} NewestFirstStable<T>(s: seq<T>, time: T -> int, t: int)
    ensures AtTime(NewestFirst(s, time), time, t) == AtTime(s, time, t)
  {
    if s != [] {
      var init := s[..|s| - 1];
      NewestFirstStable(init, time, t);
      NewestFirstDescending(init, time);
      InsertStable(NewestFirst(init, time), s[|s| - 1], time, t);
      AtTimeAppend(init, [s[|s| - 1]], time, t);
      assert s == init + [s[|s| - 1]];
    }
  }

  /** Sorting what is already newest first changes nothing. */
  lemma {:induction false} SortedUnchanged<T>(s: seq<T>, time: T -> int)
    requires Descending(s, time)
    ensures NewestFirst(s, time) == s
  {
    if s != [] {
      var init := s[..|s| - 1];
      assert Descending(init, time);
      SortedUnchanged(init, time);
      assert s == init + [s[|s| - 1]];
    }
  }

  // ---- keys are carried along ----------------------------------------------------

  /** A permutation has the same keys. */
  lemma KeySetOfPermutation<T>(a: seq<T>, b: seq<T>, key: T -> string)
    requires multiset(a) == multiset(b)
    ensures KeySet(a, key) == KeySet(b, key)
  {
    forall k | k in KeySet(a, key)
      ensures k in KeySet(b, key)
    {
      var i :| 0 <= i < |a| && key(a[i]) == k;
      assert a[i] in multiset(b);
    }
    forall k | k in KeySet(b, key)
      ensures k in KeySet(a, key)
    {
      var i :| 0 <= i < |b| && key(b[i]) == k;
      assert b[i] in multiset(a);
    }
  }

  /** Inserting an element whose key is new keeps keys distinct. */
  lemma {:induction false} InsertDistinct<T>(s: seq<T>, x: T, time: T -> int, key: T -> string)
    requires DistinctKeys(s, key) && key(x) !in KeySet(s, key)
    ensures DistinctKeys(Insert(s, x, time), key)
  {
    if s == [] {
    } else if time(s[|s| - 1]) >= time(x) {
      DistinctSnoc(s, x, key);
    } else {
      var init := s[..|s| - 1];
      var last := s[|s| - 1];
      assert s == init + [last];
      DistinctSnoc(init, last, key);
      InsertDistinct(init, x, time, key);
      InsertPermutes(init, x, time);
      KeySetOfPermutation(Insert(init, x, time), init + [x], key);
      assert key(last) != key(x);
      DistinctSnoc(init, x, key);
      DistinctSnoc(Insert(init, x, time), last, key);
    }
  }

  /** Sorting keeps keys distinct. */
  lemma {:induction false} NewestFirstDistinct<T>(s: seq<T>, time: T -> int, key: T -> string)
    requires DistinctKeys(s, key)
    ensures DistinctKeys(NewestFirst(s, time), key)
  {
    if s != [] {
      var init := s[..|s| - 1];
      assert s == init + [s[|s| - 1]];
      DistinctSnoc(init, s[|s| - 1], key);
      NewestFirstDistinct(init, time, key);
      NewestFirstPermutes(init, time);
      KeySetOfPermutation(NewestFirst(init, time), init, key);
      InsertDistinct(NewestFirst(init, time), s[|s| - 1], time, key);
    }
  }
}
