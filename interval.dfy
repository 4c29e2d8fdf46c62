/** The interval resolver `setInterval`: from a cursor and the claimed offsets,
    the next scan window. Claimed offsets are kept in a list, as in the source,
    which sorts it before every lookup. */
module Interval {

  predicate Ascending(s: seq<nat>) {
    forall i, j :: 0 <= i < j < |s| ==> s[i] <= s[j]
  }

  predicate Distinct(s: seq<nat>) {
    forall i, j :: 0 <= i < j < |s| ==> s[i] != s[j]
  }

  /** Every claimed offset lies before `start`. */
  predicate AllBelow(ex: seq<nat>, start: nat) {
    forall e :: e in ex ==> e < start
  }

  /** `Math.max.apply(null, excludes)`. */
  function Max(s: seq<nat>): (m: nat)
    requires |s| > 0
    ensures m in s && forall x :: x in s ==> x <= m
  {
    if |s| == 1 then s[0]
    else
      var t := Max(s[1..]);
      assert forall x :: x in s ==> x == s[0] || x in s[1..];
      if s[0] > t then s[0] else t
  }

  function Insert(x: nat, s: seq<nat>): seq<nat> {
    if s == [] || x <= s[0] then [x] + s else [s[0]] + Insert(x, s[1..])
  }

  lemma {:induction false} InsertMultiset(x: nat, s: seq<nat>)
    ensures multiset(Insert(x, s)) == multiset{x} + multiset(s)
  {
    if s != [] && x > s[0] {
      InsertMultiset(x, s[1..]);
      assert s == [s[0]] + s[1..];
    }
  }

  lemma {:induction false} InsertAscending(x: nat, s: seq<nat>)
    requires Ascending(s)
    ensures Ascending(Insert(x, s))
  {
    if s != [] && x > s[0] {
      InsertAscending(x, s[1..]);
      InsertMultiset(x, s[1..]);
      var t := Insert(x, s[1..]);
      var r := [s[0]] + t;
      assert Insert(x, s) == r;
      forall i, j | 0 <= i < j < |r|
        ensures r[i] <= r[j]
      {
        assert r[j] == t[j - 1];
        if i == 0 {
          assert t[j - 1] in multiset(t);
        } else {
          assert r[i] == t[i - 1];
        }
      }
    }
  }

  lemma {:induction false} InsertDistinct(x: nat, s: seq<nat>)
    requires Distinct(s) && x !in s
    ensures Distinct(Insert(x, s))
  {
    if s != [] && x > s[0] {
      assert s == [s[0]] + s[1..];
      InsertDistinct(x, s[1..]);
      InsertMultiset(x, s[1..]);
      var t := Insert(x, s[1..]);
      assert s[0] !in s[1..];
      assert s[0] !in multiset(t);
      assert Insert(x, s) == [s[0]] + t;
    }
  }

  /** `excludes.sort((a, b) => a - b)`: the claimed offsets in ascending order,
      a permutation of the input. */
  function SortAscending(s: seq<nat>): (r: seq<nat>)
    ensures Ascending(r)
    ensures multiset(r) == multiset(s)
  {
    if s == [] then []
    else
      var t := SortAscending(s[1..]);
      InsertMultiset(s[0], t);
      InsertAscending(s[0], t);
      assert s == [s[0]] + s[1..];
      Insert(s[0], t)
  }

  /** Sorting keeps exactly the offsets it was given. */
  lemma SortSameMembers(s: seq<nat>)
    ensures forall k :: k in SortAscending(s) <==> k in s
  {
    var r := SortAscending(s);
    assert forall k :: k in r <==> k in multiset(r);
  }

  /** Sorting introduces no duplicates. */
  lemma {:induction false} SortKeepsDistinct(s: seq<nat>)
    requires Distinct(s)
    ensures Distinct(SortAscending(s))
  {
    if s != [] {
      assert s == [s[0]] + s[1..];
      var t := SortAscending(s[1..]);
      SortKeepsDistinct(s[1..]);
      assert s[0] !in s[1..];
      assert s[0] !in multiset(t);
      InsertDistinct(s[0], t);
    }
  }

  /** What `setInterval` returns. `start` is the first unclaimed offset at or after
      the cursor. When claimed offsets remain at or after `start`, `end` is one less
      than the first of them, so the offset just before a claimed region is left out
      of the window; otherwise `end` is the buffer length. */
  ghost predicate Resolved(ex: seq<nat>, length: nat, cursor: nat, start: nat, end: nat) {
    && cursor <= start && start !in ex
    && (forall k :: cursor <= k < start ==> k in ex)
    && (AllBelow(ex, start) ==> end == length)
    && (!AllBelow(ex, start) ==>
          start <= end && end + 1 in ex && forall k :: start <= k <= end ==> k !in ex)
  }

  /** The first offset at or after `k` that is not claimed. */
  function NextFree(ex: seq<nat>, k: nat): (r: nat)
    ensures k <= r && r !in ex
    ensures forall j :: k <= j < r ==> j in ex
    decreases if ex == [] then 0 else Max(ex) + 1 - k
  {
    if k in ex then NextFree(ex, k + 1) else k
  }

  /** The first claimed offset at or after `k`, when there is one. */
  function NextClaimed(ex: seq<nat>, k: nat): (r: nat)
    requires !AllBelow(ex, k)
    ensures k <= r && r in ex
    ensures forall j :: k <= j < r ==> j !in ex
    decreases Max(ex) - k
  {
    if k in ex then k else NextClaimed(ex, k + 1)
  }

  /** The start of the window `setInterval` returns for `cursor`. */
  function WindowStart(ex: seq<nat>, cursor: nat): nat {
    NextFree(ex, cursor)
  }

  /** The end of the window `setInterval` returns for `cursor`. */
  function WindowEnd(ex: seq<nat>, length: nat, cursor: nat): nat {
    var start := WindowStart(ex, cursor);
    if AllBelow(ex, start) then length else NextClaimed(ex, start) - 1
  }

  /** `Resolved` has exactly one solution, the window of `WindowStart` and
      `WindowEnd`. */
  lemma ResolvedUnique(ex: seq<nat>, length: nat, cursor: nat, start: nat, end: nat)
    ensures Resolved(ex, length, cursor, start, end) <==>
      start == WindowStart(ex, cursor) && end == WindowEnd(ex, length, cursor)
  {
    var s := WindowStart(ex, cursor);
    if Resolved(ex, length, cursor, start, end) {
      assert start == s;
      if !AllBelow(ex, s) {
        var n := NextClaimed(ex, s);
        assert end + 1 == n;
      }
    }
    if start == s && end == WindowEnd(ex, length, cursor) && !AllBelow(ex, s) {
      var n := NextClaimed(ex, s);
      assert n != s;
    }
  }

  /** Lines 99 to 118 of `setInterval`, on the already sorted list. */
  method ResolveWindow(ex: seq<nat>, length: nat, cursor: nat) returns (start: nat, end: nat)
    requires Ascending(ex)
    ensures Resolved(ex, length, cursor, start, end)
    ensures start == WindowStart(ex, cursor) && end == WindowEnd(ex, length, cursor)
  {
    start := cursor;
    end := length;
    if |ex| > 0 {
      var top := Max(ex);
      while start in ex
        invariant cursor <= start
        invariant forall k :: cursor <= k < start ==> k in ex
        decreases top - start
      {
        start := start + 1;
      }
      end := start;
      if end > top {
        end := length;
      } else {
        assert ex[|ex| - 1] >= top by {
          var j :| 0 <= j < |ex| && ex[j] == top;
        }
        var i := 0;
        while end > ex[i]
          invariant 0 <= i < |ex|
          invariant forall j :: 0 <= j < i ==> ex[j] < end
          decreases |ex| - i
        {
          i := i + 1;
        }
        assert ex[i] != start;
        assert forall j :: 0 <= j < |ex| ==> ex[j] < start || ex[i] <= ex[j];
        end := ex[i] - 1;
      }
    }
    ResolvedUnique(ex, length, cursor, start, end);
  }

  /** The window end after the patch of `checkRegexp` for `start === end`: an
      empty window grows by one offset, any other is kept. */
  function Patched(start: nat, end: nat): (r: nat)
    ensures r == end || r == end + 1
    ensures start <= end ==> start < r
    ensures start != end ==> r == end
  {
    if start == end then end + 1 else end
  }

  /** The patched window is never empty and holds no claimed offset. When no
      claimed offset lies at or after `start`, it runs to the end of the buffer
      (one past it when `start` is the length itself). */
  lemma WindowIsFree(ex: seq<nat>, length: nat, cursor: nat, start: nat, end: nat)
    requires forall e :: e in ex ==> e < length
    requires cursor <= length
    requires Resolved(ex, length, cursor, start, end)
    ensures start <= length
    ensures start < Patched(start, end)
    ensures forall k :: start <= k < Patched(start, end) ==> k !in ex
    ensures AllBelow(ex, start) ==> Patched(start, end) == if start == length then length + 1 else length
  {
    assert cursor <= length < start ==> length in ex;
  }
}
