/** The theme table: nine rules applied from top to bottom. Each rule pairs a
    pattern with the markup that wraps what the pattern matched. The patterns of
    the `<`, `>` and punctuation rules are single-character classes and are
    modelled exactly; the other six are JavaScript regular expressions supplied by
    an engine. */
module Themes {
  import opened Tokens

  datatype Rule = Rule(category: Category, find: Finder)

  /** The regular-expression engine: a compiled pattern for each category. */
  type Engine = Category -> Finder

  /** The order of the table, which is the order of priority. */
  const Priority: seq<Category> :=
    [OlComment, MlComment, HtmlLt, HtmlGt, Number, Keyword, Str, Function, Special]

  /** The characters of the `/[{}\()]|\[|\]|[,;]/` rule. */
  const SpecialChars: set<char> := {'{', '}', '(', ')', '[', ']', ',', ';'}

  const Close: string := "</span>"

  function Open(cls: string): string {
    "<span class = \"" + cls + "\">"
  }

  function ClassOf(c: Category): string {
    match c
    case OlComment => "colr-ol-comment"
    case MlComment => "colr-ml-comment"
    case HtmlLt => "colr-html-arrow"
    case HtmlGt => "colr-html-arrow"
    case Number => "colr-number"
    case Keyword => "colr-kw"
    case Str => "colr-string"
    case Function => "colr-function"
    case Special => "colr-special"
  }

  /** The categories whose pattern is left to the regular-expression engine. */
  predicate UsesEngine(c: Category) {
    !(c.HtmlLt? || c.HtmlGt? || c.Special?)
  }

  /** What the text matched by a category's pattern looks like, as far as the
      model knows it: exactly `<`, exactly `>`, one punctuation character, or
      anything for the engine's patterns. */
  predicate Fits(c: Category, t: string) {
    match c
    case HtmlLt => t == "<"
    case HtmlGt => t == ">"
    case Special => |t| == 1 && t[0] in SpecialChars
    case _ => true
  }

  /** Strips a category's markup off a rendered match. The arrow rules discard
      their argument, so only their own markup reads back, as the character
      itself; anything else is not theirs and is returned unchanged. For the other
      rules the span of the class is taken off. */
  function Unrender(c: Category, r: string): string {
    var o := Open(ClassOf(c));
    match c
    case HtmlLt => if r == o + "&lt;" + Close then "<" else r
    case HtmlGt => if r == o + "&gt;" + Close then ">" else r
    case _ =>
      if |o| + |Close| <= |r| && r[..|o|] == o && r[|r| - |Close|..] == Close then r[|o|..|r| - |Close|] else r
  }

  /** A theme's `action`: the output is a span of the category's class. The arrow
      rules emit the escaped entity whatever they are given, so their markup reads
      back as `<` or `>` for every argument. Every other rule keeps the matched
      text inside the span, so rendering loses nothing: the raw text of a match its
      pattern can produce comes back from the markup. */
  function Render(c: Category, e: string): (r: string)
    ensures |Open(ClassOf(c))| + |Close| <= |r|
    ensures r[..|Open(ClassOf(c))|] == Open(ClassOf(c)) && r[|r| - |Close|..] == Close
    ensures c.HtmlLt? ==> Unrender(c, r) == "<"
    ensures c.HtmlGt? ==> Unrender(c, r) == ">"
    ensures Fits(c, e) ==> Unrender(c, r) == e
    ensures UsesEngine(c) || c.Special? ==> |r| == |Open(ClassOf(c))| + |e| + |Close|
  {
    var o := Open(ClassOf(c));
    var r := match c
      case HtmlLt => o + "&lt;" + Close
      case HtmlGt => o + "&gt;" + Close
      case _ => o + e + Close;
    var inner := match c
      case HtmlLt => "&lt;"
      case HtmlGt => "&gt;"
      case _ => e;
    SpanParts(o, inner);
    r
  }

  lemma SpanParts(o: string, x: string)
    ensures var r := o + x + Close;
      r[..|o|] == o && r[|r| - |Close|..] == Close && r[|o|..|r| - |Close|] == x
  {
  }

  /** `addSpan`: applies the owning theme's action. Only the text changes; the
      offsets and the owner stay as they were. */
  function AddSpan(e: Match): (r: Match)
    ensures r.index == e.index && r.end == e.end && r.category == e.category
    ensures Fits(e.category, e.content) ==> Unrender(r.category, r.content) == e.content
  {
    e.(content := Render(e.category, e.content))
  }

  /** `regexpMatches.map(addSpan)`. */
  function StyleAll(ms: seq<Match>): (r: seq<Match>)
    ensures |r| == |ms|
    ensures forall i :: 0 <= i < |ms| ==> r[i] == AddSpan(ms[i])
  {
    seq(|ms|, i requires 0 <= i < |ms| => AddSpan(ms[i]))
  }

  /** Replaces each rendered text by the raw text it came from. */
  function UnstyleAll(ms: seq<Match>): (r: seq<Match>)
    ensures |r| == |ms|
    ensures forall i :: 0 <= i < |ms| ==> r[i] == ms[i].(content := Unrender(ms[i].category, ms[i].content))
  {
    seq(|ms|, i requires 0 <= i < |ms| => ms[i].(content := Unrender(ms[i].category, ms[i].content)))
  }

  lemma {:induction false} UnstyleStyle(ms: seq<Match>)
    requires forall i :: 0 <= i < |ms| ==> Fits(ms[i].category, ms[i].content)
    ensures UnstyleAll(StyleAll(ms)) == ms
  {
    forall i | 0 <= i < |ms|
      ensures UnstyleAll(StyleAll(ms))[i] == ms[i]
    {
      assert StyleAll(ms)[i] == AddSpan(ms[i]);
      assert Unrender(ms[i].category, AddSpan(ms[i]).content) == ms[i].content;
    }
  }

  /** The first match of a one-character class: the leftmost character of the
      class, matched alone. */
  function FirstOf(chars: set<char>, w: string): (r: Option<Hit>)
    ensures r.Some? ==> r.value.length == 1 && r.value.index < |w| && w[r.value.index] in chars
    ensures r.Some? ==> forall i :: 0 <= i < r.value.index ==> w[i] !in chars
    ensures r.None? ==> forall i :: 0 <= i < |w| ==> w[i] !in chars
  {
    if w == [] then None
    else if w[0] in chars then Some(Hit(0, 1))
    else match FirstOf(chars, w[1..])
      case None => None
      case Some(h) => Some(Hit(h.index + 1, 1))
  }

  function FindChar(chars: set<char>): Finder {
    (w: string) => FirstOf(chars, w)
  }

  /** What a pattern may report for a window `w`: nothing, or a non-empty match
      inside `w` whose text fits the category. */
  predicate HitOk(c: Category, w: string, o: Option<Hit>) {
    o.None? ||
    (0 < o.value.length && o.value.index + o.value.length <= |w| &&
     Fits(c, w[o.value.index..o.value.index + o.value.length]))
  }

  /** `w.match(regexp)`: the rule's first match in `w`. */
  function FirstMatch(r: Rule, w: string): Option<Hit> {
    r.find(w)
  }

  ghost predicate Sound(r: Rule) {
    forall w :: HitOk(r.category, w, FirstMatch(r, w))
  }

  ghost predicate EngineSound(engine: Engine) {
    forall c, w :: UsesEngine(c) ==> HitOk(c, w, engine(c)(w))
  }

  /** The `themes` table. */
  function Table(engine: Engine): (rules: seq<Rule>)
    ensures |rules| == |Priority|
    ensures forall i :: 0 <= i < |rules| ==> rules[i].category == Priority[i]
    ensures forall i :: 0 <= i < |rules| && UsesEngine(rules[i].category) ==>
      rules[i].find == engine(rules[i].category)
  {
    [ Rule(OlComment, engine(OlComment)),
      Rule(MlComment, engine(MlComment)),
      Rule(HtmlLt, FindChar({'<'})),
      Rule(HtmlGt, FindChar({'>'})),
      Rule(Number, engine(Number)),
      Rule(Keyword, engine(Keyword)),
      Rule(Str, engine(Str)),
      Rule(Function, engine(Function)),
      Rule(Special, FindChar(SpecialChars)) ]
  }

  lemma FindCharSound(c: Category, chars: set<char>)
    requires forall ch :: ch in chars ==> Fits(c, [ch])
    ensures Sound(Rule(c, FindChar(chars)))
  {
    forall w
      ensures HitOk(c, w, FindChar(chars)(w))
    {
      var o := FirstOf(chars, w);
      if o.Some? {
        assert w[o.value.index..o.value.index + 1] == [w[o.value.index]];
      }
    }
  }

  /** Every rule of the table reports only non-empty matches inside its window,
      provided the engine does so for its own patterns. */
  lemma TableSound(engine: Engine)
    requires EngineSound(engine)
    ensures forall i :: 0 <= i < |Table(engine)| ==> Sound(Table(engine)[i])
  {
    FindCharSound(HtmlLt, {'<'});
    FindCharSound(HtmlGt, {'>'});
    FindCharSound(Special, SpecialChars);
    var t := Table(engine);
    forall i | 0 <= i < |t| && UsesEngine(t[i].category)
      ensures Sound(t[i])
    {
      var c := t[i].category;
      forall w
        ensures HitOk(c, w, FirstMatch(t[i], w))
      {
        assert HitOk(c, w, engine(c)(w));
      }
    }
  }
}
