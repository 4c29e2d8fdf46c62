/** The data model of the colr tokenizer: the records it builds while it scans one
    buffer, and the JavaScript string operation it relies on. Offsets are absolute
    positions in that buffer. */
module Tokens {

  datatype Option<+T> = None | Some(value: T)

  /** Reading `styledMatches[0].index` when nothing matched is a TypeError in the
      source; the model returns it as an error value. */
  datatype Error = FirstMatchUndefined

  datatype Result<+T> = Ok(value: T) | Failure(error: Error)

  /** One tag per entry of the theme table, in table order. */
  datatype Category =
    | OlComment | MlComment | HtmlLt | HtmlGt | Number | Keyword | Str | Function | Special

  /** A recorded match: its text, where it starts, where it ends, and which theme
      owns it (the source stores the theme's RegExp object instead). */
  datatype Match = Match(content: string, index: nat, end: nat, category: Category)

  /** What `String.prototype.match` reports about its first match in a window:
      the offset inside the window and the length of the matched text. */
  datatype Hit = Hit(index: nat, length: nat)

  /** A compiled pattern: the first match of the pattern in a string, if any. */
  type Finder = string -> Option<Hit>

  function Min(a: int, b: int): int { if a <= b then a else b }

  function Clamp(x: int, n: nat): (r: nat)
    ensures r <= n
  {
    if x < 0 then 0 else if x > n then n else x
  }

  /** `s.substring(from, to)`: both arguments clamped to [0, |s|], swapped when
      the first exceeds the second. */
  function Substring(s: string, from: int, to: int): (r: string)
    ensures |r| <= |s|
    ensures 0 <= from <= to ==> r == s[Min(from, |s|)..Min(to, |s|)]
    ensures 0 <= to <= from ==> r == s[Min(to, |s|)..Min(from, |s|)]
  {
    var a := Clamp(from, |s|);
    var b := Clamp(to, |s|);
    if a <= b then s[a..b] else s[b..a]
  }

  /** A match that sits inside the buffer, is not empty, and whose text is the
      buffer's text at its offsets. */
  predicate Located(content: string, m: Match) {
    m.index < m.end <= |content| && m.content == content[m.index..m.end]
  }

  predicate AllLocated(content: string, ms: seq<Match>) {
    forall i :: 0 <= i < |ms| ==> Located(content, ms[i])
  }

  /** The half-open ranges [index, end) of two matches do not overlap. */
  predicate Apart(a: Match, b: Match) {
    a.end <= b.index || b.end <= a.index
  }

  predicate PairwiseApart(ms: seq<Match>) {
    forall i, j :: 0 <= i < j < |ms| ==> Apart(ms[i], ms[j])
  }

  predicate SortedByIndex(ms: seq<Match>) {
    forall i, j :: 0 <= i < j < |ms| ==> ms[i].index <= ms[j].index
  }

  /** Matches laid out left to right: each in the buffer, each ending no later
      than any later one starts. */
  predicate Laid(content: string, ms: seq<Match>) {
    && AllLocated(content, ms)
    && forall i, j :: 0 <= i < j < |ms| ==> ms[i].end <= ms[j].index
  }

  /** Sorting pairwise disjoint matches lays them out left to right. */
  lemma SortedApartIsLaid(content: string, ms: seq<Match>)
    requires AllLocated(content, ms) && PairwiseApart(ms) && SortedByIndex(ms)
    ensures Laid(content, ms)
  {
    forall i, j | 0 <= i < j < |ms|
      ensures ms[i].end <= ms[j].index
    {
      assert Apart(ms[i], ms[j]);
      assert Located(content, ms[j]);
    }
  }
}
