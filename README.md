# colr: a verified model of the highlighter core

colr is a small syntax highlighter for the browser. For every element with the
class `colr` it takes the element's markup (`target.innerHTML`) and scans it
with a table of nine themes, one after the other. Each theme is a pattern plus
an action that renders a match. Seven actions wrap the matched text in a
`<span>` of the theme's class. The two arrow actions discard the match and emit
a span holding `&lt;` or `&gt;`. Every offset a match covers is recorded in a
list of claimed offsets (`excludes`), so a later theme never matches text an
earlier one already took: the table order is the priority order. When all
themes have run, the matches are sorted by start offset and rendered. They are
then put back together with the unmatched text between them, and the joined
string becomes the element's new markup.

The model follows `colr.js` function by function:

- `tokens.dfy` (module `Tokens`) holds the records: a match with its text,
  start, end and owning theme, and a pattern hit. It also holds JavaScript's
  `String.prototype.substring`, which clamps its arguments and swaps them when
  they are out of order.
- `themes.dfy` (module `Themes`) holds the theme table and the actions that
  render a match (`addSpan`).
- `interval.dfy` (module `Interval`) holds `setInterval`. It sorts the claimed
  offsets (the sort is modelled by insertion sort) and then resolves the next
  window to scan.
- `scanner.dfy` (module `Scanner`) holds the scan state as a class: the buffer,
  the claimed offsets and the recorded matches. It also holds `checkRegexp`,
  split into the window set-up, the match-and-claim step and the scan loop.
- `sort.dfy` (module `Sorting`) holds `sort`, an in-place exchange sort on an
  array. It repeats passes until a pass swaps nothing.
- `reassemble.dfy` (module `Reassembly`) holds the building of `finalArray` and
  the join.
- `colr.dfy` (module `Colr`) holds the per-element pipeline.

The model keeps three behaviours of the code exactly as written:

- The window end. When claimed offsets remain after the window start, the
  window ends one before the first of them, `e` (`excludes[i] - 1`,
  colr.js:115). So the window `[start, e - 1)` stops short of `e - 1` as well.
  The offset `e - 1` is only ever scanned alone, in the window `[e - 1, e)`,
  when the cursor reaches it.
- The empty-window patch. When the start equals that end, `checkRegexp` itself
  bumps the end by one (colr.js:128-130).
- The next cursor. After a hit, the scan continues from the end of the match
  (colr.js:139, 153). After a miss, it continues from the end of the window
  (colr.js:135).

With no match at all, colr.js:217 reads `styledMatches[0].index` from an empty
list and throws. An empty buffer is one such case, so it does not come back
unchanged. The model returns the error value `Failure(FirstMatchUndefined)`.

Each of the six patterns that are real regular expressions is an abstract
`Finder`. A `Finder` returns the first match in a window: its offset and its
length. The three single-character patterns (`<`, `>` and
`[{}\()]|\[|\]|[,;]`) are modelled exactly, as the leftmost character of their
class. The proofs assume one thing of the engine (`EngineSound`): a reported
match is non-empty and lies inside the window. None of the six patterns of the
table can match the empty string.

## Model

| member | source | states |
|---|---|---|
| Tokens.Substring | colr.js:132 | `substring` clamps both arguments to the string and swaps them when the first is larger: for in-order arguments the result is the slice between them |
| Tokens.SortedApartIsLaid | colr.js:209-212 | disjoint matches sorted by start offset are laid out left to right: every match ends before any later one starts |
| Themes.Table | colr.js:34-89 | the table has nine rules in the fixed priority order; the six regular-expression rules use the engine's pattern for their category |
| Themes.FirstOf | colr.js:47-58 | a one-character class finds its leftmost character in the window, matched alone; no earlier character is in the class; a miss means no character of the window is in it |
| Themes.FindCharSound | colr.js:47-58 | the `<`, `>` and punctuation patterns report only one-character matches inside the window whose text is that character |
| Themes.TableSound | colr.js:34-89 | every rule of the table reports only non-empty matches inside its window that fit its category, given such an engine |
| Themes.Render | colr.js:37-87 | every action's output starts with the opening tag of its class and ends with `</span>`; the arrow actions discard their text and their output reads back as `<` or `>`; the other actions wrap the text unchanged: the output is exactly the tags plus the text, and any text the rule can match reads back |
| Themes.AddSpan | colr.js:158-165 | `addSpan` replaces only the text of a match, by its owner's rendering; start, end and owner are unchanged; the raw text can be read back |
| Themes.StyleAll | colr.js:212 | `regexpMatches.map(addSpan)` keeps the number and the order of the matches and renders each one in its place |
| Themes.UnstyleStyle | colr.js:212 | stripping the markup off every rendered match gives back the raw matches |
| Interval.Max | colr.js:108 | `Math.max` of the claimed offsets is one of them and no smaller than any of them |
| Interval.SortAscending | colr.js:98 | the numeric sort orders the claimed offsets ascending and is a permutation of them |
| Interval.SortSameMembers | colr.js:98 | sorting keeps exactly the claimed offsets |
| Interval.SortKeepsDistinct | colr.js:98 | sorting introduces no duplicate offset |
| Interval.NextFree | colr.js:103-105 | the `while (excludes.includes(start))` scan stops at the first unclaimed offset at or after its start; every offset it skips is claimed |
| Interval.NextClaimed | colr.js:111-115 | the first claimed offset at or after a position, when one exists; no offset before it from that position is claimed |
| Interval.ResolvedUnique | colr.js:99-118 | the window `setInterval` describes is unique: it is exactly the pair `WindowStart`, `WindowEnd` |
| Interval.ResolveWindow | colr.js:99-118 | the start is the first unclaimed offset at or after the cursor; the end is the buffer length when nothing claimed lies beyond the start, and otherwise one less than the first claimed offset after the start, with no claimed offset between start and end; the pair is `WindowStart`, `WindowEnd` |
| Interval.Patched | colr.js:128-130 | the patch grows the end by at most one; a window whose start is not past its end becomes non-empty; an end different from the start is kept |
| Interval.WindowIsFree | colr.js:96-130 | after the `start === end` patch the window is non-empty and holds no claimed offset; it runs to the end of the buffer, or one past it, when nothing claimed lies beyond the start |
| Scanner.Claim | colr.js:140-149 | claiming the offsets of a match that avoids every claimed offset keeps the state consistent: claimed offsets stay distinct, inside the buffer, and equal to the union of the match ranges; matches stay disjoint |
| Scanner.HitLocated | colr.js:132-147 | a hit in a free window becomes a match whose text is the buffer's text at its absolute offsets, inside the window and the buffer, avoiding every claimed offset |
| Scanner.Step | colr.js:132-154 | one step keeps the earlier matches and adds one exactly when the rule matches the window's text; on a miss nothing is claimed and the next cursor is the window end; on a hit exactly the match's offsets are claimed, in ascending order, and the next cursor is the match end |
| Scanner.StepKeeps | colr.js:122-150 | one step keeps the state consistent and moves the cursor strictly forward; a hit records one match of the rule inside the window that avoids every earlier claim and hands on its end; a miss hands on the window end; nothing recorded or claimed is lost |
| Scanner.SortKeepsConsistent | colr.js:98 | sorting the claimed offsets keeps the scan state consistent |
| Scanner.ProgressStep | colr.js:122-155 | each step of a rule's scan keeps the scan's progress: consistency, the earlier matches and claims, and new matches of the rule, left to right, clear of what earlier themes claimed |
| Scanner.ProgressExtend | colr.js:144-154 | a successor state that loses nothing and adds at most one match beyond the cursor keeps the scan's progress |
| Scanner.StepAtKeeps | colr.js:124-150 | one invocation of `checkRegexp` without its recursive call (sort, resolve, patch, match) keeps the state consistent and moves the cursor strictly forward |
| Scanner.ScanFrom | colr.js:122-155 | the recursion of `checkRegexp` ends, with the cursor at or past the end of the buffer and the state consistent |
| Scanner.ScanFromStep | colr.js:152-154 | the scan from a cursor is its first step, then the scan from the cursor that step hands on while that is inside the buffer |
| Scanner.ScanFromProgress | colr.js:122-155 | a whole scan for one rule keeps every earlier match and claim; its new matches belong to the rule, run left to right, and avoid every offset claimed before it began |
| Scanner.Tokenizer.constructor | colr.js:197-201 | the reset: nothing claimed and nothing recorded for the new buffer |
| Scanner.Tokenizer.SetInterval | colr.js:96-119 | the claimed offsets are replaced by their ascending sort, and the window returned is `WindowStart`, `WindowEnd` on the sorted list |
| Scanner.Tokenizer.MatchWindow | colr.js:132-150 | the new state and the returned cursor are those of `Step`: the offsets of the rule's first match in the window pushed one by one in ascending order and the match recorded with its absolute offsets, or nothing on a miss |
| Scanner.Tokenizer.ScanStep | colr.js:124-150 | the new state and the returned cursor are exactly those of one invocation of `checkRegexp` without its recursive call (`StepAt`) |
| Scanner.Tokenizer.CheckRegexp | colr.js:122-155 | the final state is the one `ScanFrom` gives from cursor 0: exactly those matches are recorded and those offsets claimed; earlier matches and claims are kept; the new matches belong to the rule, run left to right, and avoid every offset claimed before, which is the priority of earlier themes |
| Sorting.OfIndexSwap | colr.js:173-178 | exchanging neighbours with different start offsets keeps the order among matches of equal start offset |
| Sorting.PassNext | colr.js:172-179 | each comparison of a pass keeps the pass invariant: the largest start offset so far moves right, the settled suffix stays settled and grows by one, and a full sort means no swap |
| Sorting.SortPass | colr.js:171-179 | one pass leaves one more position settled at the end, swaps nothing only when the array is sorted, and rearranges stably |
| Sorting.Sort | colr.js:168-182 | `sort` ends with the array sorted by start offset, a permutation of the input, with matches of equal start offset in their original order |
| Sorting.PermutedApart | colr.js:209 | rearranging disjoint non-empty matches keeps them disjoint and keeps every one of them |
| Reassembly.Join | colr.js:245 | `join("")` of no pieces is the empty string |
| Reassembly.JoinAppend | colr.js:245 | joining two lists of pieces in turn is joining their concatenation |
| Reassembly.Stitch | colr.js:217-245 | reassembly fails exactly when there is no match |
| Reassembly.Reassemble | colr.js:217-245 | the loop builds the lead text, then each match followed by the unmatched text up to the next match or the end of the buffer, each pushed only when non-empty, and joins the pieces; an empty list fails |
| Reassembly.PiecesSplice | colr.js:217-241 | after each match, the joined pieces spell the buffer up to the next match, with the range of every match so far replaced by its text |
| Reassembly.Splice | colr.js:217-245 | for matches laid out left to right, the result is the buffer with each match's range replaced by its text |
| Reassembly.ReplacedRaw | colr.js:214-241 | putting the raw matches back in their places gives back the buffer: no text is lost, moved or repeated |
| Reassembly.Cover | colr.js:214-245 | reassembling the raw matches gives back the buffer |
| Reassembly.SpliceRendered | colr.js:212-245 | the markup is the buffer with each match replaced by its rendering |
| Colr.ScanTable | colr.js:204-206 | running the themes one after the other from nothing claimed and nothing recorded keeps the scan state consistent |
| Colr.ScanFromKeeps | colr.js:122-155 | the scan for one theme keeps every match and claim it started with |
| Colr.ScanTableStep | colr.js:204-206 | running the next theme keeps what the themes before it left |
| Colr.ScanTableKeeps | colr.js:204-206 | what the first themes recorded and claimed survives every later theme: it is a prefix of the final list of matches, and its claims stay claimed |
| Colr.ThemeOrder | colr.js:204-206 | in the final list the matches of each theme form one block after those of the earlier themes; they belong to that theme, run left to right, and avoid every offset the earlier themes claimed |
| Colr.Owner | colr.js:204-206 | every recorded match lies in the block of one theme, the theme whose scan recorded it |
| Colr.OwnerAvoids | colr.js:204-206 | a recorded match of a theme's category avoids every offset claimed by the themes before that theme |
| Colr.RecordedAvoids | colr.js:204-206 | the same for any match that is one of the recorded ones |
| Colr.PriorityKept | colr.js:204-209 | in any rearrangement of the recorded matches, a match of the theme at position `p` overlaps no offset claimed by the themes before position `p` |
| Colr.TableFacts | colr.js:34-89 | for a sound engine the rules of the table are sound, own pairwise different categories, and come in the order of `Priority` |
| Colr.ScanThemes | colr.js:204-206 | `themes.forEach(checkRegexp(0, ...))` leaves exactly the state of the fold `ScanTable` over the table |
| Colr.SortFound | colr.js:209 | the sorted list is ordered by start offset, a permutation of the recorded matches, and stable among equal start offsets |
| Colr.SortedScan | colr.js:209-212 | the recorded matches, sorted, are laid out left to right in the buffer, pairwise disjoint, and fit their themes |
| Colr.Highlight | colr.js:196-245 | the matches are exactly the recorded ones of the themes run in table order (as a multiset), sorted, located, disjoint and fitting their categories; a match of the theme at position `p` overlaps no offset claimed by the themes before it; the result fails exactly when there is no match, which includes the empty buffer; otherwise it is the buffer with each match replaced by its rendering |

## Left out

- The DOM is left out: the lookup of `.colr` elements, reading and writing `innerHTML`, and the loop over elements. `Colr.Highlight` takes the element's markup as the buffer and returns the new markup.
- `console.log` is left out: it has no effect on the result.
- JavaScript regular-expression semantics are left out for the six real patterns. A `Finder` from the engine stands for each; the proofs assume only that a reported match is non-empty and inside the window (`EngineSound`). So nothing is proved about which text a comment, number, keyword, string or function call pattern picks.
- Themes.Table: the engine could in principle report an empty match, which the real patterns cannot. `EngineSound` excludes it. An empty match claims nothing. At offset `j` of the window it moves the cursor to `start + j` (colr.js:139, 153). At offset 0 of a window whose start is the cursor itself, the cursor does not move, and the recursion would not end.
- A match's owner is a category tag. The source stores the pattern object and finds the theme with `===` (colr.js:160). Each theme has its own pattern object, so the lookup finds the theme that recorded the match. In the model each rule owns a different category (`Colr.DistinctOwners`, shown for the table by `Colr.TableFacts`), so the lookup by category finds the same theme.
- Themes.AddSpan: `addSpan` in the source overwrites the text of the shared record in place. The model returns an updated copy. The unstyled list is not used again, so the aliasing is not observable.
- `match[0]` is the window's text at the hit's offsets, and `match.index` is the hit's offset. The engine reports only those two.
- Scanner.Tokenizer.CheckRegexp: the tail recursion of `checkRegexp` is a loop that stops under the same test, `absoluteEnd < content.length`. Stack depth is not modelled.
- Interval.Max: `Math.max.apply(null, excludes)` passes every claimed offset as a separate argument. Past the engine's limit on the number of arguments it throws `RangeError`. The model has no such limit.
- Interval.SortAscending: `excludes.sort` is a built-in. The model gives it as insertion sort and proves only the sorted permutation, which is all the call promises on distinct numbers.
- The global `match` array reset at line 198 is never read and is left out.
- JavaScript strings are sequences of UTF-16 code units. The model treats a string as a `seq<char>` and takes lengths and offsets on it.
