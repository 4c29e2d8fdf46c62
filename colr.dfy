/** The pipeline run for each highlighted element: reset the scan state, scan
    the buffer with every theme in table order, sort the matches by offset,
    render them, and reassemble the markup. */
module Colr {
  import opened Tokens
  import opened Themes
  import opened Scanner
  import opened Sorting
  import opened Reassembly

  /** Every rule of a table reports only matches it may report. */
  ghost predicate AllSound(rules: seq<Rule>) {
    forall i :: 0 <= i < |rules| ==> Sound(rules[i])
  }

  /** The scan state once the first `n` rules have run one after the other on a
      buffer, starting from nothing claimed and nothing recorded: the fold of
      `ScanFrom` over the rules, as `themes.forEach` runs
      `checkRegexp(0, theme.regexp)`. */
  function ScanTable(content: string, rules: seq<Rule>, n: nat): (r: Scan)
    requires n <= |rules| && AllSound(rules)
    ensures Consistent(content, r.excludes, r.matches)
  {
    if n == 0 then Scan([], [], 0)
    else
      var before := ScanTable(content, rules, n - 1);
      ScanFrom(content, before.excludes, before.matches, 0, rules[n - 1])
  }

  /** The scan state `b` keeps every match and claim of the state `a`. */
  predicate Extends(a: Scan, b: Scan) {
    && |a.matches| <= |b.matches| && b.matches[..|a.matches|] == a.matches
    && forall k :: k in a.excludes ==> k in b.excludes
  }

  lemma ExtendsTrans(a: Scan, b: Scan, c: Scan)
    requires Extends(a, b) && Extends(b, c)
    ensures Extends(a, c)
  {
    assert c.matches[..|a.matches|] == c.matches[..|b.matches|][..|a.matches|];
  }

  lemma ExtendsRefl(a: Scan)
    ensures Extends(a, a)
  {
    assert a.matches[..|a.matches|] == a.matches;
  }

  /** A scan for one rule keeps every match and claim it started with. */
  lemma ScanFromKeeps(content: string, ex: seq<nat>, ms: seq<Match>, rule: Rule)
    requires Consistent(content, ex, ms) && Sound(rule)
    ensures Extends(Scan(ex, ms, 0), ScanFrom(content, ex, ms, 0, rule))
  {
    ProgressStart(content, ex, ms, rule.category);
    ScanFromProgress(content, ex, ms, ex, ms, 0, rule);
  }

  /** Running rule `m - 1` keeps what the rules before it left. */
  lemma ScanTableStep(content: string, rules: seq<Rule>, m: nat)
    requires 0 < m <= |rules| && AllSound(rules)
    ensures Extends(ScanTable(content, rules, m - 1), ScanTable(content, rules, m))
  {
    var before := ScanTable(content, rules, m - 1);
    ScanFromKeeps(content, before.excludes, before.matches, rules[m - 1]);
  }

  /** The state after the first `n` rules keeps its matches and claims as the
      rules from `n` to `m` run. */
  lemma {:induction false} ScanTableKeeps(content: string, rules: seq<Rule>, n: nat, m: nat)
    requires n <= m <= |rules| && AllSound(rules)
    ensures Extends(ScanTable(content, rules, n), ScanTable(content, rules, m))
    decreases m - n
  {
    if n < m {
      ScanTableKeeps(content, rules, n + 1, m);
      ScanTableStep(content, rules, n + 1);
      ExtendsTrans(ScanTable(content, rules, n), ScanTable(content, rules, n + 1), ScanTable(content, rules, m));
    } else {
      ExtendsRefl(ScanTable(content, rules, n));
    }
  }

  /** What the scan for one rule adds, seen in any later extension `all` of its
      result. */
  lemma BlockOf(content: string, ex0: seq<nat>, ms0: seq<Match>, after: Scan, all: Scan, c: Category)
    requires Progress(content, ex0, ms0, after.excludes, after.matches, after.cursor, c)
    requires Extends(after, all)
    ensures |ms0| <= |after.matches| <= |all.matches|
    ensures forall j :: |ms0| <= j < |after.matches| ==>
      && all.matches[j].category == c
      && forall k :: k in ex0 ==> !(all.matches[j].index <= k < all.matches[j].end)
    ensures forall j :: |ms0| <= j < |after.matches| - 1 ==> all.matches[j].end <= all.matches[j + 1].index
  {
    forall j | |ms0| <= j < |after.matches|
      ensures all.matches[j] == after.matches[j]
    {
      assert all.matches[..|after.matches|][j] == all.matches[j];
    }
  }

  /** The priority of the table: in the recorded list the matches of rule `n`
      follow those of every earlier rule, belong to rule `n`, run left to right,
      and avoid every offset an earlier rule claimed. */
  lemma ThemeOrder(content: string, rules: seq<Rule>, n: nat)
    requires n < |rules| && AllSound(rules)
    ensures var before, after, all := ScanTable(content, rules, n), ScanTable(content, rules, n + 1),
                                      ScanTable(content, rules, |rules|);
      && |before.matches| <= |after.matches| <= |all.matches|
      && (forall j :: |before.matches| <= j < |after.matches| ==>
            && all.matches[j].category == rules[n].category
            && forall k :: k in before.excludes ==> !(all.matches[j].index <= k < all.matches[j].end))
      && (forall j :: |before.matches| <= j < |after.matches| - 1 ==> all.matches[j].end <= all.matches[j + 1].index)
  {
    var before, after, all := ScanTable(content, rules, n), ScanTable(content, rules, n + 1),
                              ScanTable(content, rules, |rules|);
    assert Progress(content, before.excludes, before.matches, after.excludes, after.matches, after.cursor, rules[n].category) by {
      ProgressStart(content, before.excludes, before.matches, rules[n].category);
      ScanFromProgress(content, before.excludes, before.matches, before.excludes, before.matches, 0, rules[n]);
    }
    ScanTableKeeps(content, rules, n + 1, |rules|);
    BlockOf(content, before.excludes, before.matches, after, all, rules[n].category);
  }

  /** No two rules share a category, so a match's category names its rule. */
  predicate DistinctOwners(rules: seq<Rule>) {
    forall p, q :: 0 <= p < q < |rules| ==> rules[p].category != rules[q].category
  }

  /** In a list of block boundaries, a position from boundary `n` on and before
      the last boundary lies in the block of some `o` at or after `n`, the block
      from boundary `o` to boundary `o + 1`. */
  lemma {:induction false} FindBlock(bounds: seq<nat>, n: nat, j: nat) returns (o: nat)
    requires n < |bounds| - 1 && bounds[n] <= j < bounds[|bounds| - 1]
    ensures n <= o < |bounds| - 1 && bounds[o] <= j < bounds[o + 1]
    decreases |bounds| - n
  {
    if j < bounds[n + 1] {
      o := n;
    } else {
      o := FindBlock(bounds, n + 1, j);
    }
  }

  /** Every recorded match was recorded by the scan of one rule `o`: its position
      lies in the block that scan added. */
  lemma Owner(content: string, rules: seq<Rule>, j: nat) returns (o: nat)
    requires AllSound(rules) && j < |ScanTable(content, rules, |rules|).matches|
    ensures o < |rules|
    ensures |ScanTable(content, rules, o).matches| <= j < |ScanTable(content, rules, o + 1).matches|
  {
    var bounds := seq(|rules| + 1, i requires 0 <= i <= |rules| => |ScanTable(content, rules, i).matches|);
    o := FindBlock(bounds, 0, j);
  }

  /** A recorded match whose category is that of rule `p` avoids every offset
      claimed by the rules before rule `p`: its owning rule is `p`, because no two
      rules share a category. */
  lemma OwnerAvoids(content: string, rules: seq<Rule>, j: nat, p: nat)
    requires p < |rules| && AllSound(rules) && DistinctOwners(rules)
    requires j < |ScanTable(content, rules, |rules|).matches|
    requires rules[p].category == ScanTable(content, rules, |rules|).matches[j].category
    ensures var m := ScanTable(content, rules, |rules|).matches[j];
      forall k :: k in ScanTable(content, rules, p).excludes ==> !(m.index <= k < m.end)
  {
    var n := Owner(content, rules, j);
    ThemeOrder(content, rules, n);
    assert p == n by {
      assert rules[n].category == rules[p].category;
    }
  }

  /** Rule `i` owns category `order[i]`. */
  predicate InOrder(rules: seq<Rule>, order: seq<Category>) {
    |order| == |rules| && forall i :: 0 <= i < |rules| ==> rules[i].category == order[i]
  }

  /** A match that is one of the recorded ones, of the category of rule `p`,
      overlaps no offset claimed by the rules before rule `p`. */
  lemma RecordedAvoids(content: string, rules: seq<Rule>, m: Match, p: nat)
    requires p < |rules| && AllSound(rules) && DistinctOwners(rules)
    requires m in ScanTable(content, rules, |rules|).matches && m.category == rules[p].category
    ensures forall k :: k in ScanTable(content, rules, p).excludes ==> !(m.index <= k < m.end)
  {
    var all := ScanTable(content, rules, |rules|).matches;
    var j :| 0 <= j < |all| && all[j] == m;
    OwnerAvoids(content, rules, j, p);
  }

  /** The priority of the table, seen in any rearrangement of the recorded
      matches: when rule `p` owns category `order[p]`, a match of that category
      overlaps no offset claimed by rules `0` to `p - 1`. */
  lemma PriorityKept(content: string, rules: seq<Rule>, order: seq<Category>, ms: seq<Match>)
    requires AllSound(rules) && DistinctOwners(rules)
    requires InOrder(rules, order)
    requires multiset(ms) == multiset(ScanTable(content, rules, |order|).matches)
    ensures forall i, p :: 0 <= i < |ms| && 0 <= p < |order| && ms[i].category == order[p] ==>
      forall k :: k in ScanTable(content, rules, p).excludes ==> !(ms[i].index <= k < ms[i].end)
  {
    forall i, p | 0 <= i < |ms| && 0 <= p < |order| && ms[i].category == order[p]
      ensures forall k :: k in ScanTable(content, rules, p).excludes ==> !(ms[i].index <= k < ms[i].end)
    {
      assert ms[i] in multiset(ms);
      RecordedAvoids(content, rules, ms[i], p);
    }
  }

  /** The table's rules are sound for a sound engine, and each owns its own
      category. */
  lemma TableFacts(engine: Engine)
    requires EngineSound(engine)
    ensures AllSound(Table(engine)) && DistinctOwners(Table(engine)) && InOrder(Table(engine), Priority)
  {
    TableSound(engine);
  }

  /** `themes.forEach((theme) => checkRegexp(0, theme.regexp))` on a freshly
      reset scan state. */
  method ScanThemes(t: Tokenizer, rules: seq<Rule>)
    requires t.Valid() && t.excludes == [] && t.matches == []
    requires AllSound(rules)
    modifies t
    ensures t.Valid()
    ensures t.excludes == ScanTable(t.content, rules, |rules|).excludes
    ensures t.matches == ScanTable(t.content, rules, |rules|).matches
  {
    for n := 0 to |rules|
      invariant t.Valid()
      invariant t.excludes == ScanTable(t.content, rules, n).excludes
      invariant t.matches == ScanTable(t.content, rules, n).matches
    {
      t.CheckRegexp(rules[n]);
    }
  }

  /** `sort(regexpMatches)` on an array holding the recorded matches. */
  method SortFound(found: seq<Match>) returns (matches: seq<Match>)
    ensures SortedByIndex(matches) && multiset(matches) == multiset(found)
    ensures forall v :: OfIndex(matches, v) == OfIndex(found, v)
  {
    var a := new Match[|found|](i requires 0 <= i < |found| => found[i]);
    assert a[..] == found;
    Sort(a);
    matches := a[..];
  }

  /** The recorded matches of a consistent scan state, in any order sorted by
      offset, are laid out left to right in the buffer and fit their rules. */
  lemma SortedScan(content: string, ex: seq<nat>, found: seq<Match>, ms: seq<Match>)
    requires Consistent(content, ex, found)
    requires multiset(ms) == multiset(found) && SortedByIndex(ms)
    ensures Laid(content, ms) && PairwiseApart(ms)
    ensures forall i :: 0 <= i < |ms| ==> Fits(ms[i].category, ms[i].content)
  {
    PermutedApart(found, ms);
    assert forall i :: 0 <= i < |ms| ==> Located(content, ms[i]) && Fits(ms[i].category, ms[i].content);
    SortedApartIsLaid(content, ms);
  }

  /** Highlights one buffer. The matches are those the themes record in priority
      order, sorted by offset: each a located slice of the buffer that its pattern
      can produce, disjoint from each other. The markup is the buffer with every
      match replaced by its rendering; with no match at all the source fails when
      it reads the first match, and so does an empty buffer. */
  method Highlight(content: string, engine: Engine) returns (matches: seq<Match>, r: Result<string>)
    requires EngineSound(engine)
    ensures (TableFacts(engine); multiset(matches) == multiset(ScanTable(content, Table(engine), |Priority|).matches))
    ensures (TableFacts(engine);
      forall i, p :: 0 <= i < |matches| && 0 <= p < |Priority| && matches[i].category == Priority[p] ==>
        forall k :: k in ScanTable(content, Table(engine), p).excludes ==> !(matches[i].index <= k < matches[i].end))
    ensures Laid(content, matches) && SortedByIndex(matches) && PairwiseApart(matches)
    ensures forall i :: 0 <= i < |matches| ==> Fits(matches[i].category, matches[i].content)
    ensures r.Failure? <==> matches == []
    ensures matches != [] ==> Spans(content, StyleAll(matches)) && r == Ok(Replaced(content, StyleAll(matches)))
    ensures content == [] ==> r.Failure?
  {
    var t := new Tokenizer(content);
    TableFacts(engine);
    ScanThemes(t, Table(engine));
    matches := SortFound(t.matches);
    SortedScan(content, t.excludes, t.matches, matches);
    PriorityKept(content, Table(engine), Priority, matches);
    var styled := StyleAll(matches);
    r := Reassemble(content, styled);
    if matches != [] {
      SpliceRendered(content, matches);
    } else {
      assert styled == [];
    }
  }
}
