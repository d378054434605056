/** The in-memory table shared by the three services: a Python list of
    records in insertion order plus an id counter. This module holds the
    list operations the handlers are built from (first-match scan,
    list-comprehension filter, slicing) and the id invariant they keep.
 */
module Tables {
  import opened Wrappers

  /** Ids were handed out by a counter that starts at 1 and only grows:
      every stored id lies in [1, next) and ids strictly increase in
      insertion order, so no two rows share one. */
  ghost predicate IdsWellFormed<T>(rows: seq<T>, key: T -> int, next: int) {
    && 1 <= next
    && (forall i :: 0 <= i < |rows| ==> 1 <= key(rows[i]) < next)
    && Increasing(rows, key)
  }

  ghost predicate Increasing<T>(rows: seq<T>, key: T -> int) {
    forall i, j :: 0 <= i < j < |rows| ==> key(rows[i]) < key(rows[j])
  }

  /** `r` is obtained from `s` by deleting elements, the survivors keeping
      their relative order. */
  ghost predicate IsSubsequence<T>(r: seq<T>, s: seq<T>)
    decreases |s|
  {
    if |r| == 0 then true
    else if |s| == 0 then false
    else (r[0] == s[0] && IsSubsequence(r[1..], s[1..])) || IsSubsequence(r, s[1..])
  }

  // ---------------------------------------------------------------------
  // First-match scan: `for row in db: if <hit>: return row`
  // ---------------------------------------------------------------------

  /** Index of the first row, in insertion order, that `hit` accepts. */
  function FirstIndex<T>(rows: seq<T>, hit: T -> bool): (r: Option<nat>)
    ensures r.Some? ==> r.value < |rows| && hit(rows[r.value])
    ensures r.Some? ==> forall j :: 0 <= j < r.value ==> !hit(rows[j])
    ensures r.None? <==> forall j :: 0 <= j < |rows| ==> !hit(rows[j])
    decreases |rows|
  {
    if |rows| == 0 then None
    else if hit(rows[0]) then Some(0)
    else match FirstIndex(rows[1..], hit)
      case None => None
      case Some(i) => Some(i + 1)
  }

  /** The first index is determined by the rows: any accepted index with no
      accepted index before it is the one the scan returns. */
  lemma FirstIndexIsFirst<T>(rows: seq<T>, hit: T -> bool, i: nat)
    requires i < |rows| && hit(rows[i])
    requires forall j :: 0 <= j < i ==> !hit(rows[j])
    ensures FirstIndex(rows, hit) == Some(i)
  {
  }

  // ---------------------------------------------------------------------
  // List comprehension `[x for x in s if keep(x)]`
  // ---------------------------------------------------------------------

  function Filter<T(!new)>(s: seq<T>, keep: T -> bool): (r: seq<T>)
    ensures |r| <= |s|
    ensures forall i :: 0 <= i < |r| ==> r[i] in s && keep(r[i])
    ensures forall i :: 0 <= i < |s| && keep(s[i]) ==> s[i] in r
    ensures forall x {:trigger multiset(r)[x]} :: multiset(r)[x] == if keep(x) then multiset(s)[x] else 0
    ensures IsSubsequence(r, s)
    decreases |s|
  {
    if |s| == 0 then []
    else
      var rest := Filter(s[1..], keep);
      assert s == [s[0]] + s[1..];
      if keep(s[0]) then
        assert ([s[0]] + rest)[1..] == rest;
        [s[0]] + rest
      else rest
  }

  /** Filtering distributes over concatenation: the survivors of `a` come
      first, then those of `b`. */
  lemma {:induction false} FilterAppend<T(!new)>(a: seq<T>, b: seq<T>, keep: T -> bool)
    ensures Filter(a + b, keep) == Filter(a, keep) + Filter(b, keep)
    decreases |a|
  {
    if |a| == 0 {
      assert a + b == b;
    } else {
      assert (a + b)[0] == a[0];
      assert (a + b)[1..] == a[1..] + b;
      FilterAppend(a[1..], b, keep);
    }
  }

  /** A filter that keeps every element is the identity. */
  lemma {:induction false} FilterKeepsAll<T(!new)>(s: seq<T>, keep: T -> bool)
    requires forall i :: 0 <= i < |s| ==> keep(s[i])
    ensures Filter(s, keep) == s
    decreases |s|
  {
    if |s| > 0 {
      FilterKeepsAll(s[1..], keep);
    }
  }

  /** Filtering twice with the same condition is filtering once. */
  lemma FilterIdempotent<T(!new)>(s: seq<T>, keep: T -> bool)
    ensures Filter(Filter(s, keep), keep) == Filter(s, keep)
  {
    var r := Filter(s, keep);
    forall i | 0 <= i < |r| ensures keep(r[i]) {
      assert r[i] in r;
    }
    FilterKeepsAll(r, keep);
  }

  /** When exactly one position fails the condition, the filter removes that
      element and nothing else. */
  lemma FilterRemovesOne<T(!new)>(s: seq<T>, keep: T -> bool, i: nat)
    requires i < |s| && !keep(s[i])
    requires forall j :: 0 <= j < |s| && j != i ==> keep(s[j])
    ensures Filter(s, keep) == s[..i] + s[i + 1..]
  {
    var a, b := s[..i], s[i + 1..];
    assert s == a + ([s[i]] + b);
    assert forall j :: 0 <= j < |a| ==> a[j] == s[j];
    assert forall j :: 0 <= j < |b| ==> b[j] == s[i + 1 + j];
    FilterKeepsAll(a, keep);
    FilterKeepsAll(b, keep);
    assert Filter([s[i]], keep) == [];
    FilterAppend([s[i]], b, keep);
    FilterAppend(a, [s[i]] + b, keep);
  }

  /** A filter of a table whose ids increase still has increasing ids. */
  lemma {:induction false} FilterIncreasing<T(!new)>(s: seq<T>, keep: T -> bool, key: T -> int)
    requires Increasing(s, key)
    ensures Increasing(Filter(s, keep), key)
    decreases |s|
  {
    if |s| > 0 {
      var tail := s[1..];
      assert Increasing(tail, key);
      FilterIncreasing(tail, keep, key);
      var rest := Filter(tail, keep);
      forall m | 0 <= m < |rest| ensures key(s[0]) < key(rest[m]) {
        var k :| 0 <= k < |tail| && tail[k] == rest[m];
        assert s[k + 1] == rest[m];
      }
      if keep(s[0]) {
        var r := [s[0]] + rest;
        assert Filter(s, keep) == r;
        forall i, j | 0 <= i < j < |r| ensures key(r[i]) < key(r[j]) {
          assert r[j] == rest[j - 1];
          if i > 0 {
            assert r[i] == rest[i - 1];
          }
        }
      }
    }
  }

  /** Filtering never breaks the id invariant of a table. */
  lemma FilterIdsWellFormed<T(!new)>(s: seq<T>, keep: T -> bool, key: T -> int, next: int)
    requires IdsWellFormed(s, key, next)
    ensures IdsWellFormed(Filter(s, keep), key, next)
  {
    var r := Filter(s, keep);
    FilterIncreasing(s, keep, key);
    forall i | 0 <= i < |r| ensures 1 <= key(r[i]) < next {
      assert r[i] in s;
    }
  }

  // ---------------------------------------------------------------------
  // Appending a new row under the next id
  // ---------------------------------------------------------------------

  /** Appending a row that carries the current counter value, then
      incrementing the counter, keeps the id invariant. */
  lemma AppendIdsWellFormed<T>(s: seq<T>, row: T, key: T -> int, next: int)
    requires IdsWellFormed(s, key, next)
    requires key(row) == next
    ensures IdsWellFormed(s + [row], key, next + 1)
  {
  }

  /** Replacing a row by one with the same id keeps the id invariant. */
  lemma ReplaceIdsWellFormed<T>(s: seq<T>, i: nat, row: T, key: T -> int, next: int)
    requires i < |s| && key(row) == key(s[i])
    requires IdsWellFormed(s, key, next)
    ensures IdsWellFormed(s[i := row], key, next)
  {
  }

  // ---------------------------------------------------------------------
  // Python slicing `s[start:stop]` (step 1)
  // ---------------------------------------------------------------------

  /** CPython's adjustment of one slice bound against a length `n`: a
      negative bound counts from the end, then the bound is clamped into
      [0, n]. */
  function ClampIndex(i: int, n: nat): (k: nat)
    ensures k <= n
  {
    if i < 0 then (if i + n < 0 then 0 else i + n)
    else if i > n then n
    else i
  }

  function PySlice<T>(s: seq<T>, start: int, stop: int): (r: seq<T>)
    ensures |r| <= |s|
  {
    var lo := ClampIndex(start, |s|);
    var hi := ClampIndex(stop, |s|);
    if lo < hi then s[lo..hi] else []
  }

  function Min(a: int, b: int): int { if a <= b then a else b }
  function Max(a: int, b: int): int { if a <= b then b else a }

  /** With non-negative bounds a slice is the run of elements from `start`,
      as many as exist before `stop`. */
  lemma PySliceNonNegative<T>(s: seq<T>, start: int, stop: int)
    requires 0 <= start && 0 <= stop
    ensures |PySlice(s, start, stop)| == Max(0, Min(stop, |s|) - start)
    ensures forall k :: 0 <= k < |PySlice(s, start, stop)| ==> PySlice(s, start, stop)[k] == s[start + k]
  {
  }

  // ---------------------------------------------------------------------
  // Provenance of ids across a run of requests
  // ---------------------------------------------------------------------

  /** Every row of `rows` whose id is below `bound` carries an id that some
      row of `origin` already had: no id below `bound` was handed out anew. */
  ghost predicate IdsBelowFrom<T>(rows: seq<T>, origin: seq<T>, key: T -> int, bound: int) {
    forall i :: 0 <= i < |rows| && key(rows[i]) < bound ==>
      exists j :: 0 <= j < |origin| && key(origin[j]) == key(rows[i])
  }

  lemma AppendIdsBelowFrom<T>(rows: seq<T>, row: T, origin: seq<T>, key: T -> int, bound: int)
    requires IdsBelowFrom(rows, origin, key, bound) && bound <= key(row)
    ensures IdsBelowFrom(rows + [row], origin, key, bound)
  {
    var t := rows + [row];
    forall i | 0 <= i < |t| && key(t[i]) < bound
      ensures exists j :: 0 <= j < |origin| && key(origin[j]) == key(t[i])
    {
      assert t[i] == rows[i];
    }
  }

  lemma ReplaceIdsBelowFrom<T>(rows: seq<T>, i: nat, row: T, origin: seq<T>, key: T -> int, bound: int)
    requires i < |rows| && key(row) == key(rows[i])
    requires IdsBelowFrom(rows, origin, key, bound)
    ensures IdsBelowFrom(rows[i := row], origin, key, bound)
  {
    var t := rows[i := row];
    forall k | 0 <= k < |t| && key(t[k]) < bound
      ensures exists j :: 0 <= j < |origin| && key(origin[j]) == key(t[k])
    {
      assert key(t[k]) == key(rows[k]);
    }
  }

  lemma FilterIdsBelowFrom<T(!new)>(rows: seq<T>, keep: T -> bool, origin: seq<T>, key: T -> int, bound: int)
    requires IdsBelowFrom(rows, origin, key, bound)
    ensures IdsBelowFrom(Filter(rows, keep), origin, key, bound)
  {
    var t := Filter(rows, keep);
    forall k | 0 <= k < |t| && key(t[k]) < bound
      ensures exists j :: 0 <= j < |origin| && key(origin[j]) == key(t[k])
    {
      var m :| 0 <= m < |rows| && rows[m] == t[k];
    }
  }
}
