/** The per-rule scanner `checkRegexp` and the state it works on: the list of
    claimed offsets (`excludes`) and the list of recorded matches
    (`regexpMatches`). The source recurses from the new cursor; the model loops. */
module Scanner {
  import opened Tokens
  import opened Themes
  import opened Interval

  /** Some recorded match covers offset `k`. */
  ghost predicate ClaimedBy(ms: seq<Match>, k: nat) {
    exists j :: 0 <= j < |ms| && ms[j].index <= k < ms[j].end
  }

  /** The invariant of a scan state: claimed offsets lie in the buffer and are
      never listed twice, every match is a located, non-empty slice whose text fits
      its rule, the matches are pairwise disjoint, and the claimed offsets are
      exactly the offsets the matches cover. */
  ghost predicate Consistent(content: string, ex: seq<nat>, ms: seq<Match>) {
    && (forall k :: k in ex ==> k < |content|)
    && Distinct(ex)
    && (forall i :: 0 <= i < |ms| ==> Located(content, ms[i]) && Fits(ms[i].category, ms[i].content))
    && PairwiseApart(ms)
    && (forall k :: k in ex <==> ClaimedBy(ms, k))
  }

  /** The offsets `a`, `a + 1`, ..., `b - 1`, in the order the source pushes them. */
  function Range(a: nat, b: nat): (r: seq<nat>)
    ensures |r| == if a <= b then b - a else 0
    ensures forall i :: 0 <= i < |r| ==> r[i] == a + i
  {
    if b <= a then [] else Range(a, b - 1) + [b - 1]
  }

  lemma RangeFacts(a: nat, b: nat)
    ensures forall k :: k in Range(a, b) <==> a <= k < b
    ensures Distinct(Range(a, b))
  {
    var r := Range(a, b);
    forall k | a <= k < b
      ensures k in r
    {
      assert r[k - a] == k;
    }
  }

  lemma RangeSnoc(a: nat, b: nat)
    requires a <= b
    ensures Range(a, b + 1) == Range(a, b) + [b]
  {
  }

  /** Claiming the offsets of a new match that avoids every claimed offset keeps
      the state consistent. */
  lemma Claim(content: string, ex: seq<nat>, ms: seq<Match>, m: Match)
    requires Consistent(content, ex, ms)
    requires Located(content, m) && Fits(m.category, m.content)
    requires forall k :: m.index <= k < m.end ==> k !in ex
    ensures Consistent(content, ex + Range(m.index, m.end), ms + [m])
  {
    var r := Range(m.index, m.end);
    var ms' := ms + [m];
    RangeFacts(m.index, m.end);
    assert Distinct(ex + r) by {
      forall i, j | 0 <= i < j < |ex + r|
        ensures (ex + r)[i] != (ex + r)[j]
      {
        if j < |ex| {
          assert (ex + r)[i] == ex[i] && (ex + r)[j] == ex[j];
        } else if i >= |ex| {
          assert (ex + r)[i] == r[i - |ex|] && (ex + r)[j] == r[j - |ex|];
        } else {
          assert (ex + r)[i] == ex[i] && ex[i] in ex;
          assert (ex + r)[j] == r[j - |ex|] && m.index <= r[j - |ex|] < m.end;
        }
      }
    }
    forall i | 0 <= i < |ms|
      ensures Apart(ms[i], m)
    {
      var k := if ms[i].index <= m.index then m.index else ms[i].index;
      assert k < ms[i].end && k < m.end ==> ClaimedBy(ms, k);
    }
    assert PairwiseApart(ms') by {
      forall i, j | 0 <= i < j < |ms'|
        ensures Apart(ms'[i], ms'[j])
      {
        if j == |ms| { assert Apart(ms[i], m); }
      }
    }
    forall k: nat
      ensures k in ex + r <==> ClaimedBy(ms', k)
    {
      if ClaimedBy(ms', k) {
        var j :| 0 <= j < |ms'| && ms'[j].index <= k < ms'[j].end;
        if j < |ms| {
          assert ms[j] == ms'[j];
          assert ClaimedBy(ms, k);
        }
      }
      if ClaimedBy(ms, k) {
        var j :| 0 <= j < |ms| && ms[j].index <= k < ms[j].end;
        assert ms'[j] == ms[j];
      }
      if m.index <= k < m.end {
        assert ms'[|ms|] == m;
      }
    }
    assert forall i :: 0 <= i < |ms'| ==> Located(content, ms'[i]) && Fits(ms'[i].category, ms'[i].content) by {
      forall i | 0 <= i < |ms'|
        ensures Located(content, ms'[i]) && Fits(ms'[i].category, ms'[i].content)
      {
        if i < |ms| { assert ms'[i] == ms[i]; }
      }
    }
  }

  /** A hit reported inside a free window is a located match of the buffer that
      claims only free offsets. */
  lemma HitLocated(content: string, ex: seq<nat>, start: nat, end: nat, c: Category, w: string, h: Hit)
    requires start <= |content| && start < end
    requires forall k :: start <= k < end ==> k !in ex
    requires w == Substring(content, start, end)
    requires HitOk(c, w, Some(h))
    ensures var m := Match(Substring(w, h.index, h.index + h.length), start + h.index, start + h.index + h.length, c);
      && Located(content, m) && Fits(c, m.content)
      && (forall k :: m.index <= k < m.end ==> k !in ex)
      && m.end <= Min(end, |content|)
  {
    assert w == content[start..Min(end, |content|)];
    var lo, hi := start + h.index, start + h.index + h.length;
    assert hi <= |content|;
    forall i | 0 <= i < h.length
      ensures w[h.index..h.index + h.length][i] == content[lo..hi][i]
    {
      assert w[h.index + i] == content[lo + i];
    }
  }

  /** The scan state after one step, and the cursor the step hands on. */
  datatype Scan = Scan(excludes: seq<nat>, matches: seq<Match>, cursor: nat)

  /** One step of `checkRegexp` on the window [start, end) of the buffer, given
      the sorted claimed offsets. The text of a hit, `match[0]` in the source, is
      the window's text at the hit's offsets. On a hit, the hit's offsets are claimed in
      ascending order, the match is recorded, and scanning goes on from its end;
      on a miss, from the end of the window. */
  function Step(content: string, ex: seq<nat>, ms: seq<Match>, start: nat, end: nat, rule: Rule): (r: Scan)
    ensures |ms| <= |r.matches| <= |ms| + 1 && r.matches[..|ms|] == ms
    ensures |r.matches| == |ms| + 1 <==> FirstMatch(rule, Substring(content, start, end)).Some?
    ensures |r.matches| == |ms| ==> r.excludes == ex && r.cursor == end
    ensures |r.matches| == |ms| + 1 ==>
      r.excludes == ex + Range(r.matches[|ms|].index, r.matches[|ms|].end) && r.cursor == r.matches[|ms|].end
  {
    var w := Substring(content, start, end);
    match FirstMatch(rule, w)
    case None => Scan(ex, ms, end)
    case Some(h) =>
      var m := Match(Substring(w, h.index, h.index + h.length), start + h.index, start + h.index + h.length, rule.category);
      assert (ms + [m])[..|ms|] == ms;
      Scan(ex + Range(m.index, m.end), ms + [m], m.end)
  }

  lemma StepHit(content: string, ex: seq<nat>, ms: seq<Match>, start: nat, end: nat, rule: Rule, h: Hit,
                 ex': seq<nat>, m: Match, ms': seq<Match>)
    requires FirstMatch(rule, Substring(content, start, end)) == Some(h)
    requires ex' == ex + Range(start + h.index, start + h.index + h.length)
    requires m == Match(Substring(Substring(content, start, end), h.index, h.index + h.length),
                        start + h.index, start + h.index + h.length, rule.category)
    requires ms' == ms + [m]
    ensures Step(content, ex, ms, start, end, rule) == Scan(ex', ms', start + h.index + h.length)
  {
  }

  /** A step keeps the scan state consistent and moves the cursor forward. What
      it records belongs to the rule, lies inside the window and the buffer, and
      avoids every offset claimed before it. Nothing recorded or claimed is lost. */
  lemma StepKeeps(content: string, ex: seq<nat>, ms: seq<Match>, cursor: nat, start: nat, raw: nat, rule: Rule)
    requires Consistent(content, ex, ms) && Sound(rule) && cursor <= |content|
    requires Resolved(ex, |content|, cursor, start, raw)
    ensures var end := Patched(start, raw);
      cursor <= start <= |content| && start < end
    ensures forall k :: start <= k < Patched(start, raw) ==> k !in ex
    ensures var r := Step(content, ex, ms, start, Patched(start, raw), rule);
      && Consistent(content, r.excludes, r.matches)
      && cursor < r.cursor
      && |ms| <= |r.matches| <= |ms| + 1 && r.matches[..|ms|] == ms
      && (forall k :: k in ex ==> k in r.excludes)
      && (|r.matches| == |ms| ==> r.cursor == Patched(start, raw))
      && (|r.matches| == |ms| + 1 ==>
            var m := r.matches[|ms|];
            && m.category == rule.category
            && start <= m.index && m.end <= Min(Patched(start, raw), |content|) && m.end == r.cursor
            && forall k :: k in ex ==> !(m.index <= k < m.end))
  {
    var end := Patched(start, raw);
    WindowIsFree(ex, |content|, cursor, start, raw);
    var w := Substring(content, start, end);
    assert HitOk(rule.category, w, FirstMatch(rule, w));
    match FirstMatch(rule, w)
    case None =>
    case Some(h) =>
      HitLocated(content, ex, start, end, rule.category, w, h);
      var m := Match(Substring(w, h.index, h.index + h.length), start + h.index, start + h.index + h.length, rule.category);
      StepHit(content, ex, ms, start, end, rule, h, ex + Range(m.index, m.end), m, ms + [m]);
      Claim(content, ex, ms, m);
      RangeFacts(m.index, m.end);
      assert (ms + [m])[..|ms|] == ms;
  }

  /** Sorting the claimed offsets keeps the scan state consistent. */
  lemma SortKeepsConsistent(content: string, ex: seq<nat>, ms: seq<Match>)
    requires Consistent(content, ex, ms)
    ensures Consistent(content, SortAscending(ex), ms)
  {
    SortKeepsDistinct(ex);
    SortSameMembers(ex);
  }

  /** What a scan for one rule has done so far, from the state `ex0`, `ms0` it
      started in to the state `ex`, `ms` with the cursor at `cursor`: the state is
      consistent, nothing claimed or recorded before is lost, and the matches added
      belong to the rule, end before the cursor, avoid the offsets claimed before
      the scan, and come left to right. */
  ghost predicate Progress(content: string, ex0: seq<nat>, ms0: seq<Match>, ex: seq<nat>, ms: seq<Match>, cursor: nat, c: Category) {
    && Consistent(content, ex, ms)
    && |ms0| <= |ms| && ms[..|ms0|] == ms0
    && (forall k :: k in ex0 ==> k in ex)
    && (forall j :: |ms0| <= j < |ms| ==> ms[j].category == c && ms[j].end <= cursor)
    && (forall j, k :: |ms0| <= j < |ms| && k in ex0 ==> !(ms[j].index <= k < ms[j].end))
    && (forall j :: |ms0| <= j < |ms| - 1 ==> ms[j].end <= ms[j + 1].index)
  }

  lemma ProgressStart(content: string, ex: seq<nat>, ms: seq<Match>, c: Category)
    requires Consistent(content, ex, ms)
    ensures Progress(content, ex, ms, ex, ms, 0, c)
  {
    assert ms[..|ms|] == ms;
  }

  /** Progress is kept by a consistent successor state that loses nothing and
      adds at most one match of the rule, between the old and the new cursor and
      clear of everything claimed before. */
  lemma ProgressExtend(content: string, ex0: seq<nat>, ms0: seq<Match>, ex: seq<nat>, ms: seq<Match>, cursor: nat,
                       ex': seq<nat>, ms': seq<Match>, cursor': nat, c: Category)
    requires Progress(content, ex0, ms0, ex, ms, cursor, c)
    requires Consistent(content, ex', ms') && cursor <= cursor'
    requires |ms| <= |ms'| <= |ms| + 1 && ms'[..|ms|] == ms
    requires forall k :: k in ex ==> k in ex'
    requires |ms'| == |ms| + 1 ==>
      && ms'[|ms|].category == c && cursor <= ms'[|ms|].index && ms'[|ms|].end <= cursor'
      && forall k :: k in ex ==> !(ms'[|ms|].index <= k < ms'[|ms|].end)
    ensures Progress(content, ex0, ms0, ex', ms', cursor', c)
  {
    assert ms'[..|ms0|] == ms0 by {
      assert ms'[..|ms0|] == ms'[..|ms|][..|ms0|];
    }
    forall j | |ms0| <= j < |ms'| - 1
      ensures ms'[j].end <= ms'[j + 1].index
    {
      assert ms'[j] == ms[j];
      if j + 1 < |ms| {
        assert ms'[j + 1] == ms[j + 1];
      }
    }
    forall j | |ms0| <= j < |ms'|
      ensures ms'[j].category == c && ms'[j].end <= cursor'
    {
      if j < |ms| {
        assert ms'[j] == ms[j];
      }
    }
    forall j, k | |ms0| <= j < |ms'| && k in ex0
      ensures !(ms'[j].index <= k < ms'[j].end)
    {
      if j < |ms| {
        assert ms'[j] == ms[j];
      }
    }
  }

  /** One step of the scan, on the offsets `setInterval` sorted, keeps the
      progress of the scan and moves the cursor forward. */
  lemma ProgressStep(content: string, ex0: seq<nat>, ms0: seq<Match>, ex: seq<nat>, ms: seq<Match>,
                     cursor: nat, start: nat, raw: nat, rule: Rule)
    requires Progress(content, ex0, ms0, ex, ms, cursor, rule.category)
    requires Sound(rule) && cursor <= |content|
    requires Resolved(SortAscending(ex), |content|, cursor, start, raw)
    ensures var r := Step(content, SortAscending(ex), ms, start, Patched(start, raw), rule);
      Progress(content, ex0, ms0, r.excludes, r.matches, r.cursor, rule.category) && cursor < r.cursor
  {
    var sorted := SortAscending(ex);
    SortKeepsConsistent(content, ex, ms);
    SortSameMembers(ex);
    StepKeeps(content, sorted, ms, cursor, start, raw, rule);
    var r := Step(content, sorted, ms, start, Patched(start, raw), rule);
    ProgressExtend(content, ex0, ms0, ex, ms, cursor, r.excludes, r.matches, r.cursor, rule.category);
  }

  /** One invocation of `checkRegexp` at `cursor` without its recursive call:
      sort the claimed offsets, resolve and patch the window, and step in it. */
  function StepAt(content: string, ex: seq<nat>, ms: seq<Match>, cursor: nat, rule: Rule): Scan {
    var sorted := SortAscending(ex);
    var start := WindowStart(sorted, cursor);
    Step(content, sorted, ms, start, Patched(start, WindowEnd(sorted, |content|, cursor)), rule)
  }

  lemma StepAtKeeps(content: string, ex: seq<nat>, ms: seq<Match>, cursor: nat, rule: Rule)
    requires Consistent(content, ex, ms) && Sound(rule) && cursor <= |content|
    ensures var r := StepAt(content, ex, ms, cursor, rule);
      Consistent(content, r.excludes, r.matches) && cursor < r.cursor
  {
    var sorted := SortAscending(ex);
    var start, end := WindowStart(sorted, cursor), WindowEnd(sorted, |content|, cursor);
    SortKeepsConsistent(content, ex, ms);
    ResolvedUnique(sorted, |content|, cursor, start, end);
    StepKeeps(content, sorted, ms, cursor, start, end, rule);
  }

  /** `checkRegexp(cursor, regexp)`: one step at the cursor, then the rest of the
      scan from the cursor the step hands on, while that lies inside the buffer.
      Every step moves the cursor forward, so the scan ends, and it ends with the
      cursor at or past the end of the buffer. */
  function ScanFrom(content: string, ex: seq<nat>, ms: seq<Match>, cursor: nat, rule: Rule): (r: Scan)
    requires Consistent(content, ex, ms) && Sound(rule) && cursor <= |content|
    ensures Consistent(content, r.excludes, r.matches) && |content| <= r.cursor
    decreases |content| - cursor
  {
    var s := StepAt(content, ex, ms, cursor, rule);
    StepAtKeeps(content, ex, ms, cursor, rule);
    if s.cursor < |content| then ScanFrom(content, s.excludes, s.matches, s.cursor, rule) else s
  }

  /** The scan from `cursor` is its first step followed by the scan from the
      cursor that step hands on. */
  lemma ScanFromStep(content: string, ex: seq<nat>, ms: seq<Match>, cursor: nat, rule: Rule)
    requires Consistent(content, ex, ms) && Sound(rule) && cursor <= |content|
    ensures var s := StepAt(content, ex, ms, cursor, rule);
      && Consistent(content, s.excludes, s.matches) && cursor < s.cursor
      && ScanFrom(content, ex, ms, cursor, rule) ==
           if s.cursor < |content| then ScanFrom(content, s.excludes, s.matches, s.cursor, rule) else s
  {
    StepAtKeeps(content, ex, ms, cursor, rule);
  }

  /** A whole scan for one rule keeps the scan's progress: everything claimed
      and recorded before is kept, and the new matches belong to the rule, run
      left to right and avoid every offset claimed before the scan. */
  lemma {:induction false} ScanFromProgress(content: string, ex0: seq<nat>, ms0: seq<Match>, ex: seq<nat>, ms: seq<Match>,
                                            cursor: nat, rule: Rule)
    requires Progress(content, ex0, ms0, ex, ms, cursor, rule.category)
    requires Sound(rule) && cursor <= |content|
    ensures var r := ScanFrom(content, ex, ms, cursor, rule);
      Progress(content, ex0, ms0, r.excludes, r.matches, r.cursor, rule.category)
    decreases |content| - cursor
  {
    var sorted := SortAscending(ex);
    var start, end := WindowStart(sorted, cursor), WindowEnd(sorted, |content|, cursor);
    ResolvedUnique(sorted, |content|, cursor, start, end);
    ProgressStep(content, ex0, ms0, ex, ms, cursor, start, end, rule);
    ScanFromStep(content, ex, ms, cursor, rule);
    var s := StepAt(content, ex, ms, cursor, rule);
    if s.cursor < |content| {
      ScanFromProgress(content, ex0, ms0, s.excludes, s.matches, s.cursor, rule);
    }
  }

  /** The state of one buffer's scan. */
  class Tokenizer {
    const content: string
    var excludes: seq<nat>
    var matches: seq<Match>

    ghost predicate Valid()
      reads this
    {
      Consistent(content, excludes, matches)
    }

    /** The reset at the start of a buffer: nothing claimed, nothing recorded. */
    constructor (content: string)
      ensures Valid() && this.content == content
      ensures excludes == [] && matches == []
    {
      this.content := content;
      excludes := [];
      matches := [];
    }

    /** `setInterval`: sorts the claimed offsets in place, then resolves the window. */
    method SetInterval(cursor: nat) returns (start: nat, end: nat)
      modifies this`excludes
      ensures excludes == SortAscending(old(excludes))
      ensures start == WindowStart(excludes, cursor) && end == WindowEnd(excludes, |content|, cursor)
    {
      excludes := SortAscending(excludes);
      start, end := ResolveWindow(excludes, |content|, cursor);
    }

    /** The body of `checkRegexp` after the window is set: take the rule's first
        match in the window [start, end) and, if there is one, claim its offsets
        one by one and record it. */
    method MatchWindow(start: nat, end: nat, rule: Rule) returns (absoluteEnd: nat)
      modifies this`excludes, this`matches
      ensures Scan(excludes, matches, absoluteEnd) == Step(content, old(excludes), old(matches), start, end, rule)
    {
      var contentToCheck := Substring(content, start, end);
      var found := FirstMatch(rule, contentToCheck);
      absoluteEnd := end;
      if found.Some? {
        var h := found.value;
        var absoluteStart := start + h.index;
        absoluteEnd := start + h.index + h.length;
        for i := absoluteStart to absoluteEnd
          invariant excludes == old(excludes) + Range(absoluteStart, i)
          invariant matches == old(matches)
        {
          RangeSnoc(absoluteStart, i);
          excludes := excludes + [i];
        }
        var m := Match(Substring(contentToCheck, h.index, h.index + h.length), absoluteStart, absoluteEnd, rule.category);
        matches := matches + [m];
        StepHit(content, old(excludes), old(matches), start, end, rule, h, excludes, m, matches);
      }
    }

    /** One invocation of `checkRegexp` without its recursive call: resolve and
        patch the window, then match in it. The cursor for the next step is the
        match end on a hit and the window end on a miss. */
    method ScanStep(cursor: nat, rule: Rule) returns (absoluteEnd: nat)
      modifies this`excludes, this`matches
      ensures Scan(excludes, matches, absoluteEnd) == StepAt(content, old(excludes), old(matches), cursor, rule)
    {
      var start, end := SetInterval(cursor);
      if start == end {
        end := end + 1;
      }
      absoluteEnd := MatchWindow(start, end, rule);
    }

    /** `checkRegexp(0, regexp)` with its recursion unrolled into a loop: scans the
        whole buffer for one rule, to the state `ScanFrom` gives. The matches it
        adds belong to the rule, come in ascending order of offset, and avoid every
        offset claimed before the scan began, which is how an earlier theme keeps
        priority over a later one. */
    method CheckRegexp(rule: Rule)
      requires Valid() && Sound(rule)
      modifies this`excludes, this`matches
      ensures Valid()
      ensures excludes == ScanFrom(content, old(excludes), old(matches), 0, rule).excludes
      ensures matches == ScanFrom(content, old(excludes), old(matches), 0, rule).matches
      ensures |old(matches)| <= |matches| && matches[..|old(matches)|] == old(matches)
      ensures forall j :: |old(matches)| <= j < |matches| ==> matches[j].category == rule.category
      ensures forall j, k :: |old(matches)| <= j < |matches| && k in old(excludes) ==>
        !(matches[j].index <= k < matches[j].end)
      ensures forall j :: |old(matches)| <= j < |matches| - 1 ==> matches[j].end <= matches[j + 1].index
      ensures forall k :: k in old(excludes) ==> k in excludes
    {
      var cursor := 0;
      while true
        invariant cursor <= |content| && Valid()
        invariant ScanFrom(content, excludes, matches, cursor, rule) == ScanFrom(content, old(excludes), old(matches), 0, rule)
        decreases |content| - cursor
      {
        ghost var before, recorded := excludes, matches;
        var absoluteEnd := ScanStep(cursor, rule);
        ScanFromStep(content, before, recorded, cursor, rule);
        if absoluteEnd >= |content| {
          break;
        }
        cursor := absoluteEnd;
      }
      ProgressStart(content, old(excludes), old(matches), rule.category);
      ScanFromProgress(content, old(excludes), old(matches), old(excludes), old(matches), 0, rule);
    }
  }
}
