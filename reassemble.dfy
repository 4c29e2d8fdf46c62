/** The reassembly at the end of the pipeline: the rendered matches, in order of
    offset, are put back into the buffer's text with the unmatched text between
    them, and the pieces are joined into the new markup. */
module Reassembly {
  import opened Tokens
  import opened Themes

  /** `finalArray.join("")`. */
  function Join(parts: seq<string>): (r: string)
    ensures parts == [] ==> r == []
  {
    if parts == [] then [] else Join(parts[..|parts| - 1]) + parts[|parts| - 1]
  }

  lemma {:induction false} JoinAppend(a: seq<string>, b: seq<string>)
    ensures Join(a + b) == Join(a) + Join(b)
  {
    if b == [] {
      assert a + b == a;
    } else {
      var c := a + b;
      assert c[..|c| - 1] == a + b[..|b| - 1];
      JoinAppend(a, b[..|b| - 1]);
    }
  }

  lemma JoinOne(s: string)
    ensures Join([s]) == s
  {
    assert [s][..0] == [];
  }

  /** The text before the first match, pushed only when the first match does not
      start the buffer. */
  function Lead(content: string, ms: seq<Match>): seq<string>
    requires ms != []
  {
    if ms[0].index > 0 then [Substring(content, 0, ms[0].index)] else []
  }

  /** Where the unmatched text after match `i` ends: at the next match, or at the
      end of the buffer after the last one. */
  function Next(content: string, ms: seq<Match>, i: nat): int
    requires i < |ms|
  {
    if i < |ms| - 1 then ms[i + 1].index else |content|
  }

  /** The unmatched text after match `i`, pushed only when it is not empty. */
  function After(content: string, ms: seq<Match>, i: nat): seq<string>
    requires i < |ms|
  {
    if ms[i].end != Next(content, ms, i) then [Substring(content, ms[i].end, Next(content, ms, i))] else []
  }

  /** The contents of `finalArray` once the first `k` matches have been handled. */
  function Pieces(content: string, ms: seq<Match>, k: nat): seq<string>
    requires ms != [] && k <= |ms|
  {
    if k == 0 then Lead(content, ms)
    else Pieces(content, ms, k - 1) + [ms[k - 1].content] + After(content, ms, k - 1)
  }

  /** The new markup of a buffer from its matches, or the error the source runs
      into when there is no match at all. */
  function Stitch(content: string, ms: seq<Match>): (r: Result<string>)
    ensures r.Failure? <==> ms == []
  {
    if ms == [] then Failure(FirstMatchUndefined) else Ok(Join(Pieces(content, ms, |ms|)))
  }

  /** Lines 217 to 245: builds `finalArray` piece by piece and joins it. Reading
      `styledMatches[0]` from an empty list fails. */
  method Reassemble(content: string, styled: seq<Match>) returns (r: Result<string>)
    ensures r == Stitch(content, styled)
  {
    if |styled| == 0 {
      return Failure(FirstMatchUndefined);
    }
    var finalArray: seq<string> := [];
    if styled[0].index > 0 {
      finalArray := finalArray + [Substring(content, 0, styled[0].index)];
    }
    for index := 0 to |styled|
      invariant finalArray == Pieces(content, styled, index)
    {
      finalArray := finalArray + [styled[index].content];
      if index < |styled| - 1 {
        if styled[index].end != styled[index + 1].index {
          finalArray := finalArray + [Substring(content, styled[index].end, styled[index + 1].index)];
        }
      } else {
        if styled[index].end != |content| {
          finalArray := finalArray + [Substring(content, styled[index].end, |content|)];
        }
      }
    }
    return Ok(Join(finalArray));
  }

  /** Matches whose offsets run left to right inside the buffer, whatever their
      text: the shape of the list reassembly works on. */
  predicate Spans(content: string, ms: seq<Match>) {
    && (forall i :: 0 <= i < |ms| ==> ms[i].index < ms[i].end <= |content|)
    && (forall i, j :: 0 <= i < j < |ms| ==> ms[i].end <= ms[j].index)
  }

  /** The reference meaning of reassembly: the buffer with the range of every
      match replaced by that match's text. */
  function Replaced(content: string, ms: seq<Match>): string
    requires Spans(content, ms)
    decreases |ms|
  {
    if ms == [] then content
    else
      var last := ms[|ms| - 1];
      Replaced(content[..last.index], ms[..|ms| - 1]) + last.content + content[last.end..]
  }

  lemma JoinLead(content: string, ms: seq<Match>)
    requires ms != [] && ms[0].index <= |content|
    ensures Join(Lead(content, ms)) == content[..ms[0].index]
  {
    if ms[0].index > 0 {
      JoinOne(Substring(content, 0, ms[0].index));
    }
  }

  lemma JoinAfter(content: string, ms: seq<Match>, i: nat)
    requires i < |ms| && ms[i].end <= Next(content, ms, i) <= |content|
    ensures Join(After(content, ms, i)) == content[ms[i].end..Next(content, ms, i)]
  {
    if ms[i].end != Next(content, ms, i) {
      JoinOne(Substring(content, ms[i].end, Next(content, ms, i)));
    }
  }

  /** The pieces for the first `k` matches spell the buffer up to where the text
      after match `k - 1` ends, with each of those matches' ranges replaced by its
      text. */
  lemma {:induction false} PiecesSplice(content: string, ms: seq<Match>, k: nat)
    requires 0 < k <= |ms| && Spans(content, ms)
    ensures ms[k - 1].end <= Next(content, ms, k - 1) <= |content|
    ensures Spans(content[..Next(content, ms, k - 1)], ms[..k])
    ensures Join(Pieces(content, ms, k)) == Replaced(content[..Next(content, ms, k - 1)], ms[..k])
  {
    var i := k - 1;
    var n := Next(content, ms, i);
    var last := ms[i];
    var cut := content[..n];
    var front := ms[..k][..i];
    assert front == ms[..i];
    assert cut[..last.index] == content[..last.index];
    assert cut[last.end..] == content[last.end..n];
    var prefix := if k == 1 then Lead(content, ms) else Pieces(content, ms, k - 1);
    assert Join(prefix) == Replaced(content[..last.index], ms[..i]) by {
      if k == 1 {
        JoinLead(content, ms);
      } else {
        PiecesSplice(content, ms, k - 1);
      }
    }
    assert Pieces(content, ms, k) == prefix + [last.content] + After(content, ms, i);
    JoinAppend(prefix + [last.content], After(content, ms, i));
    JoinAppend(prefix, [last.content]);
    JoinOne(last.content);
    JoinAfter(content, ms, i);
  }

  /** Reassembly is the reference replacement, whenever there is a match. */
  lemma Splice(content: string, ms: seq<Match>)
    requires ms != [] && Spans(content, ms)
    ensures Stitch(content, ms) == Ok(Replaced(content, ms))
  {
    PiecesSplice(content, ms, |ms|);
    assert content[..|content|] == content;
    assert ms[..|ms|] == ms;
  }

  /** Replacing each match of the buffer by its own text changes nothing. */
  lemma {:induction false} ReplacedRaw(content: string, ms: seq<Match>)
    requires Laid(content, ms)
    ensures Spans(content, ms) && Replaced(content, ms) == content
  {
    if ms != [] {
      var last := ms[|ms| - 1];
      var front := content[..last.index];
      var rest := ms[..|ms| - 1];
      assert Located(content, last);
      forall i | 0 <= i < |rest|
        ensures Located(front, rest[i])
      {
        assert Located(content, ms[i]) && rest[i] == ms[i];
        assert ms[i].end <= last.index;
        assert front[ms[i].index..ms[i].end] == content[ms[i].index..ms[i].end];
      }
      ReplacedRaw(front, rest);
      assert content == front + content[last.index..last.end] + content[last.end..];
    }
  }

  /** Stitching raw matches laid out left to right gives back the buffer: every
      piece of unmatched text lands in its place and nothing is repeated. */
  lemma Cover(content: string, ms: seq<Match>)
    requires ms != [] && Laid(content, ms)
    ensures Stitch(content, ms) == Ok(content)
  {
    ReplacedRaw(content, ms);
    Splice(content, ms);
  }

  /** Rendering keeps every offset, so the rendered matches of a buffer are
      reassembled into the buffer with each match replaced by its markup. */
  lemma SpliceRendered(content: string, ms: seq<Match>)
    requires ms != [] && Laid(content, ms)
    ensures Spans(content, StyleAll(ms))
    ensures Stitch(content, StyleAll(ms)) == Ok(Replaced(content, StyleAll(ms)))
  {
    var r := StyleAll(ms);
    assert forall i :: 0 <= i < |ms| ==> Located(content, ms[i]);
    assert forall i :: 0 <= i < |r| ==> r[i].index == ms[i].index && r[i].end == ms[i].end;
    Splice(content, r);
  }
}
