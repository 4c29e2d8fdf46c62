/** The `sort` routine: an exchange sort of the recorded matches by start offset,
    in place, repeating passes over the array until a pass swaps nothing. */
module Sorting {
  import opened Tokens

  /** `s` with the neighbours at `i` and `i + 1` exchanged. */
  function Swap(s: seq<Match>, i: nat): (r: seq<Match>)
    requires i + 1 < |s|
    ensures |r| == |s| && r[i] == s[i + 1] && r[i + 1] == s[i]
    ensures forall p :: 0 <= p < |s| && p != i && p != i + 1 ==> r[p] == s[p]
  {
    s[i := s[i + 1]][i + 1 := s[i]]
  }

  /** The matches of `s` that start at `v`, in the order `s` holds them. Two
      arrangements with the same such subsequence for every `v` differ only in
      how matches with different start offsets are interleaved. */
  function OfIndex(s: seq<Match>, v: nat): (r: seq<Match>)
    ensures |r| <= |s|
    ensures forall m :: m in r ==> m in s && m.index == v
  {
    if s == [] then []
    else (if s[0].index == v then [s[0]] else []) + OfIndex(s[1..], v)
  }

  lemma {:induction false} OfIndexAppend(s: seq<Match>, t: seq<Match>, v: nat)
    ensures OfIndex(s + t, v) == OfIndex(s, v) + OfIndex(t, v)
  {
    if s == [] {
      assert s + t == t;
    } else {
      assert (s + t)[0] == s[0];
      assert (s + t)[1..] == s[1..] + t;
      OfIndexAppend(s[1..], t, v);
    }
  }

  lemma OfIndexPair(x: Match, y: Match, v: nat)
    requires x.index != y.index
    ensures OfIndex([x, y], v) == OfIndex([y, x], v)
  {
    assert [x, y][1..] == [y] && [y, x][1..] == [x];
    assert [x][1..] == [] && [y][1..] == [];
  }

  /** Exchanging two neighbours with different start offsets keeps every
      subsequence of equal start offset: a swap on strict inequality is stable. */
  lemma OfIndexSwap(s: seq<Match>, i: nat)
    requires i + 1 < |s| && s[i].index != s[i + 1].index
    ensures forall v :: OfIndex(Swap(s, i), v) == OfIndex(s, v)
  {
    var pre, post := s[..i], s[i + 2..];
    assert s == (pre + [s[i], s[i + 1]]) + post;
    assert Swap(s, i) == (pre + [s[i + 1], s[i]]) + post;
    forall v
      ensures OfIndex(Swap(s, i), v) == OfIndex(s, v)
    {
      OfIndexPair(s[i], s[i + 1], v);
      OfIndexAppend(pre + [s[i], s[i + 1]], post, v);
      OfIndexAppend(pre, [s[i], s[i + 1]], v);
      OfIndexAppend(pre + [s[i + 1], s[i]], post, v);
      OfIndexAppend(pre, [s[i + 1], s[i]], v);
    }
  }

  /** Every match at or after position `k` starts no earlier than any match before
      it: the suffix from `k` is in its final place. */
  predicate Settled(s: seq<Match>, k: int) {
    forall p, q :: 0 <= p < q < |s| && k <= q ==> s[p].index <= s[q].index
  }

  lemma {:induction false} AdjacentSorted(s: seq<Match>)
    requires forall p :: 0 <= p < |s| - 1 ==> s[p].index <= s[p + 1].index
    ensures SortedByIndex(s)
  {
    if |s| > 1 {
      var t := s[1..];
      AdjacentSorted(t);
      forall p, q | 0 <= p < q < |s|
        ensures s[p].index <= s[q].index
      {
        assert s[q] == t[q - 1];
        if p > 0 {
          assert s[p] == t[p - 1];
        } else if q > 1 {
          assert t[0].index <= t[q - 1].index;
        }
      }
    }
  }

  /** Nothing is lost, gained or reordered among matches of equal start offset. */
  ghost predicate Kept(orig: seq<Match>, s: seq<Match>) {
    multiset(s) == multiset(orig) && forall v :: OfIndex(s, v) == OfIndex(orig, v)
  }

  lemma KeptTrans(s: seq<Match>, t: seq<Match>, u: seq<Match>)
    requires Kept(s, t) && Kept(t, u)
    ensures Kept(s, u)
  {
  }

  lemma SwapKept(orig: seq<Match>, s: seq<Match>, i: nat)
    requires Kept(orig, s) && i + 1 < |s| && s[i].index != s[i + 1].index
    ensures Kept(orig, Swap(s, i))
  {
    OfIndexSwap(s, i);
  }

  /** Where one pass of the inner loop stands before comparing positions `i` and
      `i + 1`: the match at `i` starts no earlier than any before it, the settled
      suffix stays settled and grows by one once `i` reaches it, and while nothing
      was swapped the prefix is in order. Once everything is settled, no pass swaps. */
  ghost predicate Pass(s: seq<Match>, i: int, settled: int, changed: bool) {
    && (0 <= i < |s| || i == 0 == |s|)
    && (forall p :: 0 <= p < i ==> s[p].index <= s[i].index)
    && Settled(s, if i < settled - 1 then settled else settled - 1)
    && (!changed ==> forall p :: 0 <= p < i ==> s[p].index <= s[p + 1].index)
    && (settled == 0 ==> !changed)
  }

  lemma PassStart(s: seq<Match>, settled: int)
    requires 0 <= settled <= |s| && Settled(s, settled)
    ensures Pass(s, 0, settled, false)
  {
  }

  /** One comparison of the pass: a swap on strict inequality, or none. */
  lemma PassNext(s: seq<Match>, i: int, settled: int, changed: bool)
    requires Pass(s, i, settled, changed) && i < |s| - 1 && settled <= |s|
    ensures s[i].index > s[i + 1].index ==> settled > 0 && Pass(Swap(s, i), i + 1, settled, true)
    ensures s[i].index <= s[i + 1].index ==> Pass(s, i + 1, settled, changed)
  {
    if s[i].index > s[i + 1].index {
      var r := Swap(s, i);
      assert settled > 0 by {
        assert !Settled(s, 0);
      }
      forall p, q | 0 <= p < q < |r| && (if i + 1 < settled - 1 then settled else settled - 1) <= q
        ensures r[p].index <= r[q].index
      {
        if q > i + 1 {
          assert r[q] == s[q];
          if p != i && p != i + 1 {
            assert r[p] == s[p];
          }
        }
      }
      forall p | 0 <= p < i + 1
        ensures r[p].index <= r[i + 1].index
      {
        if p < i {
          assert r[p] == s[p];
        }
      }
    }
  }

  lemma PassEnd(s: seq<Match>, i: int, settled: int, changed: bool)
    requires Pass(s, i, settled, changed) && !(i < |s| - 1) && settled <= |s|
    ensures Settled(s, settled - 1)
    ensures !changed ==> SortedByIndex(s)
  {
    if !changed {
      AdjacentSorted(s);
    }
  }

  /** A pass that started from `orig` and stands at `i`. */
  ghost predicate PassFrom(orig: seq<Match>, s: seq<Match>, i: int, settled: int, changed: bool) {
    Pass(s, i, settled, changed) && Kept(orig, s)
  }

  lemma PassStep(orig: seq<Match>, s: seq<Match>, i: int, settled: int, changed: bool)
    requires PassFrom(orig, s, i, settled, changed) && i < |s| - 1 && settled <= |s|
    ensures s[i].index > s[i + 1].index ==> PassFrom(orig, Swap(s, i), i + 1, settled, true)
    ensures s[i].index <= s[i + 1].index ==> PassFrom(orig, s, i + 1, settled, changed)
  {
    PassNext(s, i, settled, changed);
    if s[i].index > s[i + 1].index {
      SwapKept(orig, s, i);
    }
  }

  /** One pass of the `for` loop of `sort`: compares each position with the
      next and exchanges them when the first starts later. */
  method SortPass(a: array<Match>, ghost settled: int) returns (changed: bool)
    requires 0 <= settled <= a.Length && Settled(a[..], settled)
    modifies a
    ensures Settled(a[..], settled - 1)
    ensures !changed ==> SortedByIndex(a[..])
    ensures settled == 0 ==> !changed
    ensures Kept(old(a[..]), a[..])
  {
    changed := false;
    var i := 0;
    PassStart(a[..], settled);
    while i < a.Length - 1
      invariant PassFrom(old(a[..]), a[..], i, settled, changed)
    {
      ghost var s := a[..];
      PassStep(old(a[..]), s, i, settled, changed);
      if a[i].index > a[i + 1].index {
        a[i], a[i + 1] := a[i + 1], a[i];
        assert a[..] == Swap(s, i);
        changed := true;
      }
      i := i + 1;
    }
    PassEnd(a[..], i, settled, changed);
  }

  /** `sort(regexpMatches)`: afterwards the matches are ordered by start offset,
      they are the same matches, and matches with equal start offsets keep their
      relative order. The `do ... while (changed)` loop ends because every pass
      settles one more position at the end of the array. */
  method Sort(a: array<Match>)
    modifies a
    ensures SortedByIndex(a[..])
    ensures multiset(a[..]) == multiset(old(a[..]))
    ensures forall v :: OfIndex(a[..], v) == OfIndex(old(a[..]), v)
  {
    var changed := true;
    ghost var settled: int := a.Length;
    while changed
      invariant 0 <= settled <= a.Length && Settled(a[..], settled)
      invariant !changed ==> SortedByIndex(a[..])
      invariant Kept(old(a[..]), a[..])
      decreases settled + if changed then 1 else 0
    {
      ghost var before := a[..];
      changed := SortPass(a, settled);
      KeptTrans(old(a[..]), before, a[..]);
      if settled > 0 {
        settled := settled - 1;
      }
    }
  }

  /** No match occurs twice in a list of non-empty, pairwise disjoint matches. */
  lemma {:induction false} NoRepeats(ms: seq<Match>, x: Match)
    requires PairwiseApart(ms) && forall i :: 0 <= i < |ms| ==> ms[i].index < ms[i].end
    ensures multiset(ms)[x] <= 1
  {
    if ms != [] {
      var t := ms[1..];
      assert ms == [ms[0]] + t;
      assert PairwiseApart(t) by {
        forall i, j | 0 <= i < j < |t|
          ensures Apart(t[i], t[j])
        {
          assert t[i] == ms[i + 1] && t[j] == ms[j + 1];
        }
      }
      NoRepeats(t, x);
      if x == ms[0] {
        forall i | 0 <= i < |t|
          ensures t[i] != x
        {
          assert Apart(ms[0], ms[i + 1]);
        }
        assert x !in t;
      }
    }
  }

  lemma CountTwo(s: seq<Match>, i: nat, j: nat)
    requires i < j < |s| && s[i] == s[j]
    ensures multiset(s)[s[i]] >= 2
  {
    assert s == s[..j] + [s[j]] + s[j + 1..];
    assert s[i] in s[..j];
  }

  /** Rearranging non-empty, pairwise disjoint matches keeps them so. */
  lemma PermutedApart(ms: seq<Match>, b: seq<Match>)
    requires multiset(b) == multiset(ms)
    requires PairwiseApart(ms) && forall i :: 0 <= i < |ms| ==> ms[i].index < ms[i].end
    ensures forall i :: 0 <= i < |b| ==> b[i] in ms
    ensures PairwiseApart(b)
  {
    forall i | 0 <= i < |b|
      ensures b[i] in ms
    {
      assert b[i] in multiset(b);
    }
    forall i, j | 0 <= i < j < |b|
      ensures Apart(b[i], b[j])
    {
      if b[i] == b[j] {
        CountTwo(b, i, j);
        NoRepeats(ms, b[i]);
      } else {
        assert b[i] in multiset(b) && b[j] in multiset(b);
        var p :| 0 <= p < |ms| && ms[p] == b[i];
        var q :| 0 <= q < |ms| && ms[q] == b[j];
        if p < q {
          assert Apart(ms[p], ms[q]);
        } else {
          assert Apart(ms[q], ms[p]);
        }
      }
    }
  }
}
