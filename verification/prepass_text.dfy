/** What the destructuring pre-pass of index.js does to the parameter text when
    the patterns are laid out plainly: each `{…}` gives way to its placeholder
    where it stands, and the text around the patterns is kept. */
module PrepassText {

  import opened Options
  import opened JsText
  import opened Values
  import opened Extractor

  /** The text before a pattern, and the text between that pattern's braces. */
  datatype Piece = Piece(before: string, inner: string)

  function Braced(inner: string): string {
    "{" + inner + "}"
  }

  /** The parameter text the pieces spell, with `tail` after the last pattern. */
  function Spell(pieces: seq<Piece>, tail: string): string
    decreases |pieces|
  {
    if pieces == [] then tail
    else pieces[0].before + Braced(pieces[0].inner) + Spell(pieces[1..], tail)
  }

  /** The matches the pieces stand for, left to right. */
  function SpansOf(pieces: seq<Piece>): (r: seq<Span>)
    ensures |r| == |pieces|
  {
    seq(|pieces|, i requires 0 <= i < |pieces| => Span(Braced(pieces[i].inner), pieces[i].inner))
  }

  /** The reference result: every pattern replaced in place by its placeholder. */
  function Rewrite(pieces: seq<Piece>, tail: string): string
    decreases |pieces|
  {
    if pieces == [] then tail
    else pieces[0].before + Placeholder(SpansOf(pieces)[0]) + Rewrite(pieces[1..], tail)
  }

  /** Every `{` of `s` is closed at once, as in `= {}`, so no match starts
      in `s`. */
  predicate OnlyEmptyBraces(s: string) {
    forall k :: 0 <= k < |s| && s[k] == '{' ==> k + 1 < |s| && s[k + 1] == '}'
  }

  /** No `{` before a pattern, no brace inside it, and something between
      its braces. */
  predicate PlainPiece(p: Piece) {
    p.inner != [] && '{' !in p.before && '{' !in p.inner && '}' !in p.inner
  }

  /** Plain pieces, and no match in the text after the last pattern. */
  predicate PlainlyLaidOut(pieces: seq<Piece>, tail: string) {
    BraceSpans(tail) == [] && forall i :: 0 <= i < |pieces| ==> PlainPiece(pieces[i])
  }

  lemma LaidOutTail(pieces: seq<Piece>, tail: string)
    requires pieces != [] && PlainlyLaidOut(pieces, tail)
    ensures PlainlyLaidOut(pieces[1..], tail)
    ensures SpansOf(pieces)[1..] == SpansOf(pieces[1..])
  {
    assert forall i :: 0 <= i < |pieces| - 1 ==> pieces[1..][i] == pieces[i + 1];
  }

  /** The matches of a plainly laid-out text are its patterns, in order. */
  lemma {:induction false} SpellSpans(pieces: seq<Piece>, tail: string)
    requires PlainlyLaidOut(pieces, tail)
    ensures BraceSpans(Spell(pieces, tail)) == SpansOf(pieces)
    decreases |pieces|
  {
    if pieces != [] {
      var b, g := pieces[0].before, pieces[0].inner;
      assert PlainPiece(pieces[0]);
      var rest := Spell(pieces[1..], tail);
      LaidOutTail(pieces, tail);
      SpellSpans(pieces[1..], tail);
      PatternSpan(b, g, rest);
    }
  }

  /** The first match of `b{g}rest`, with no brace in `b` or `g`. */
  lemma PatternSpan(b: string, g: string, rest: string)
    requires g != [] && '{' !in b && '{' !in g && '}' !in g
    ensures BraceSpans(b + Braced(g) + rest) == [Span(Braced(g), g)] + BraceSpans(rest)
  {
    var s := b + Braced(g) + rest;
    var t := g + "}" + rest;
    FirstOpen(b, t);
    assert s == b + "{" + t;
    FirstClose(g, rest);
  }

  /** Text whose every `{` is closed at once holds no match. */
  lemma EmptyBracesNoMatch(s: string)
    requires OnlyEmptyBraces(s)
    ensures BraceSpans(s) == []
  {
    assert !HasBracePattern(s) by {
      forall p, c | 0 <= p < c < |s| ensures !PatternAt(s, p, c) {
        if s[p] == '{' {
          assert s[p + 1] == '}';
        }
      }
    }
    BraceSpansFound(s);
  }

  lemma FirstOpen(b: string, t: string)
    requires '{' !in b
    ensures var s := b + "{" + t;
            '{' in s && IndexOfChar(s, '{') == |b| && s[|b| + 1..] == t && s[|b|..|b| + 1] == "{"
  {
    var s := b + "{" + t;
    assert s[..|b|] == b && s[|b|] == '{';
    IndexOfCharUnique(s, '{', |b|);
  }

  lemma FirstClose(g: string, rest: string)
    requires '}' !in g
    ensures var t := g + "}" + rest;
            '}' in t && IndexOfChar(t, '}') == |g| && t[..|g|] == g && t[|g| + 1..] == rest
  {
    var t := g + "}" + rest;
    assert t[..|g|] == g && t[|g|] == '}';
    IndexOfCharUnique(t, '}', |g|);
  }

  /** A pattern that starts with a character absent from the text before it
      is first found where it stands. */
  lemma ReplaceFirstAt(pre: string, pat: string, post: string, rep: string)
    requires pat != [] && pat[0] !in pre
    ensures ReplaceFirst(pre + pat + post, pat, rep) == pre + rep + post
  {
    var s := pre + pat + post;
    assert OccursAt(s, pat, |pre|) by {
      assert s[|pre|..|pre| + |pat|] == pat;
    }
    forall j | 0 <= j < |pre| ensures !OccursAt(s, pat, j) {
      assert s[j] == pre[j] && pre[j] in pre;
      if j + |pat| <= |s| {
        assert s[j..j + |pat|][0] == s[j];
      }
    }
    assert IndexOf(s, pat) == Some(|pre|);
    assert s[|pre| + |pat|..] == post;
  }

  /** A placeholder holds no `{` when its pattern holds none. */
  lemma PlaceholderWithoutBrace(span: Span)
    requires '{' !in span.inner
    ensures '{' !in Placeholder(span)
  {
    var group := PatternGroup(span.inner);
    SliceAvoids(span.inner, |span.inner| - |group|, |span.inner|, '{');
    NamesWithout(group, '{');
    LowerWithoutBrace(Names(PatternProps(group)));
  }

  lemma NamesWithout(group: string, c: char)
    requires c !in group
    ensures c !in Names(PatternProps(group))
  {
    PropNamesAvoid(group, c);
    NamesAvoid(PatternProps(group), c);
  }

  lemma LowerWithoutBrace(s: string)
    requires '{' !in s
    ensures '{' !in Lower(s)
  {
    forall i | 0 <= i < |s| ensures Lower(s)[i] != '{' {
      assert s[i] in s;
    }
  }

  lemma SliceAvoids(s: string, i: nat, j: nat, c: char)
    requires i <= j <= |s| && c !in s
    ensures c !in s[i..j]
  {
    forall k | 0 <= k < j - i ensures s[i..j][k] != c {
      assert s[i..j][k] == s[i + k];
      assert s[i + k] in s;
    }
  }

  lemma TrimAvoids(s: string, c: char)
    requires c !in s
    ensures c !in Trim(s)
  {
    TrimStartIsSuffix(s);
    SliceAvoids(s, LeadingSpace(s), |s|, c);
    var t := TrimStart(s);
    TrimEndIsPrefix(t);
    SliceAvoids(t, 0, |t| - TrailingSpace(t), c);
  }

  lemma {:induction false} SplitAroundAvoids(s: string, sep: char, c: char)
    requires !IsSpace(sep) && c !in s
    ensures forall k :: 0 <= k < |SplitAround(s, sep)| ==> c !in SplitAround(s, sep)[k]
    decreases |s|
  {
    match SeparatorMatch(s, sep)
    case None =>
    case Some((a, b)) =>
      SliceAvoids(s, 0, a, c);
      SliceAvoids(s, b, |s|, c);
      SplitAroundAvoids(s[b..], sep, c);
      assert s[..a] == s[0..a] && s[b..] == s[b..|s|];
  }

  /** The key names of a pattern are pieces of its text. */
  lemma PropNamesAvoid(group: string, c: char)
    requires c !in group
    ensures forall i :: 0 <= i < |PatternProps(group)| ==> c !in PatternProps(group)[i].name
  {
    var around := SplitAround(group, ',');
    SplitAroundAvoids(group, ',', c);
    forall i | 0 <= i < |around| ensures c !in PatternProps(group)[i].name {
      var arg := Trim(around[i]);
      TrimAvoids(around[i], c);
      SplitAroundAvoids(arg, '=', c);
      TrimAvoids(SplitAround(arg, '=')[0], c);
    }
  }

  lemma {:induction false} NamesAvoid(props: seq<Prop>, c: char)
    requires forall i :: 0 <= i < |props| ==> c !in props[i].name
    ensures c !in Names(props)
    decreases |props|
  {
    if props != [] {
      assert forall i :: 0 <= i < |props| - 1 ==> props[1..][i] == props[i + 1];
      NamesAvoid(props[1..], c);
    }
  }

  /** The pre-pass replaces each pattern of a plainly laid-out text by its
      placeholder where it stands: the search for a pattern never stops
      early, since no `{` comes before it. */
  lemma {:induction false} RewriteInPlace(done: string, pieces: seq<Piece>, tail: string, groups: map<string, seq<Prop>>)
    requires '{' !in done && PlainlyLaidOut(pieces, tail)
    ensures ApplySpans(done + Spell(pieces, tail), groups, SpansOf(pieces)).text == done + Rewrite(pieces, tail)
    decreases |pieces|
  {
    if pieces != [] {
      var spans := SpansOf(pieces);
      var key := Placeholder(spans[0]);
      var next := groups[key := PatternProps(PatternGroup(spans[0].inner))];
      var done' := done + pieces[0].before + key;
      assert PlainPiece(pieces[0]);
      PlaceholderWithoutBrace(spans[0]);
      FirstRewritten(done, pieces, tail, key);
      ApplySpansStep(done + Spell(pieces, tail), groups, spans);
      LaidOutTail(pieces, tail);
      RewriteInPlace(done', pieces[1..], tail, next);
      RewriteStep(done, pieces, tail);
    }
  }

  lemma RewriteStep(done: string, pieces: seq<Piece>, tail: string)
    requires pieces != []
    ensures done + pieces[0].before + Placeholder(SpansOf(pieces)[0]) + Rewrite(pieces[1..], tail) == done + Rewrite(pieces, tail)
  {
    var b, k, r := pieces[0].before, Placeholder(SpansOf(pieces)[0]), Rewrite(pieces[1..], tail);
    assert Rewrite(pieces, tail) == b + k + r;
    assert done + b + k + r == done + (b + k + r);
  }

  /** One step of the pre-pass on a plainly laid-out text. */
  lemma FirstRewritten(done: string, pieces: seq<Piece>, tail: string, key: string)
    requires '{' !in done && '{' !in key && pieces != [] && PlainPiece(pieces[0])
    ensures '{' !in done + pieces[0].before + key
    ensures ReplaceFirst(done + Spell(pieces, tail), Braced(pieces[0].inner), key) ==
            done + pieces[0].before + key + Spell(pieces[1..], tail)
  {
    var rest := Spell(pieces[1..], tail);
    assert done + Spell(pieces, tail) == (done + pieces[0].before) + Braced(pieces[0].inner) + rest;
    ReplaceFirstAt(done + pieces[0].before, Braced(pieces[0].inner), rest, key);
  }

  lemma EmptyBracesJoin(a: string, b: string)
    requires OnlyEmptyBraces(a) && OnlyEmptyBraces(b)
    ensures OnlyEmptyBraces(a + b)
  {
    var s := a + b;
    forall k | 0 <= k < |s| && s[k] == '{' ensures k + 1 < |s| && s[k + 1] == '}' {
      if k < |a| {
        assert s[k] == a[k] && s[k + 1] == a[k + 1];
      } else {
        assert s[k] == b[k - |a|] && s[k + 1] == b[k - |a| + 1];
      }
    }
  }

  lemma BraceFreeEmpty(s: string)
    requires '{' !in s
    ensures OnlyEmptyBraces(s)
  {
    forall k | 0 <= k < |s| ensures s[k] != '{' {
      assert s[k] in s;
    }
  }

  /** The pre-pass of a plainly laid-out text: the text with each pattern
      replaced by its placeholder in place, and each placeholder that no later
      pattern repeats remembered with its pattern's properties. */
  lemma PrepassInPlace(pieces: seq<Piece>, tail: string)
    requires PlainlyLaidOut(pieces, tail) && Spell(pieces, tail) != []
    ensures BraceSpans(Spell(pieces, tail)) == SpansOf(pieces)
    ensures Prepass(Spell(pieces, tail)).text == Rewrite(pieces, tail)
    ensures forall j :: 0 <= j < |pieces| && LastWith(SpansOf(pieces), j) ==>
              Placeholder(SpansOf(pieces)[j]) in Prepass(Spell(pieces, tail)).groups
    ensures forall j :: 0 <= j < |pieces| && LastWith(SpansOf(pieces), j) ==>
              Prepass(Spell(pieces, tail)).groups[Placeholder(SpansOf(pieces)[j])] ==
              PatternProps(PatternGroup(pieces[j].inner))
  {
    var s := Spell(pieces, tail);
    SpellSpans(pieces, tail);
    RewriteInPlace([], pieces, tail, map[]);
    assert [] + s == s;
    forall j | 0 <= j < |pieces| && LastWith(SpansOf(pieces), j)
      ensures Placeholder(SpansOf(pieces)[j]) in Prepass(s).groups
      ensures Prepass(s).groups[Placeholder(SpansOf(pieces)[j])] == PatternProps(PatternGroup(pieces[j].inner))
    {
      PrepassRemembers(s, j);
    }
  }

  // ---------------------------------------------------------------- a pattern with two keys

  /** What the steps below use of a simple name, without a quantifier. */
  predicate PlainName(k: string) {
    && k != [] && NoEdgeSpace(k)
    && '(' !in k && ')' !in k && '{' !in k && '}' !in k && ',' !in k && '=' !in k
  }

  lemma SimpleIsPlain(k: string)
    requires SimpleName(k)
    ensures PlainName(k)
  {
    SimpleNameEdges(k);
  }

  /** `(x, {k1, k2}) => 0` for simple names: a plain, required parameter `x`,
      then the destructured parameter named after both keys, with both keys
      as required properties of type `any` and no default. */
  lemma TwoKeyPattern(source: string, x: string, k1: string, k2: string)
    requires SimpleName(x) && SimpleName(k1) && SimpleName(k2) && x != Lower(k1 + k2)
    requires source == "(" + x + ", {" + k1 + ", " + k2 + "}) => 0"
    ensures Extract(Function(source)) ==
              [Descriptor(x, Any, Some(Undefined), true, false, None),
               Descriptor(k1 + k2, Object, None, true, true, Some([Prop(k1, Any, Undefined, true), Prop(k2, Any, Undefined, true)]))]
  {
    var p := x + ", " + Braced(k1 + ", " + k2);
    var ph := Lower(k1 + k2);
    TwoKeyNormalized(source, x, k1, k2);
    PlaceholderPlain(k1, k2);
    SimpleIsPlain(x);
    SimpleIsPlain(k1);
    SimpleIsPlain(k2);
    TwoKeyParams(source, p, x, k1, k2);
    TwoKeyPrepass(x, k1, k2);
    var props := [Prop(k1, Any, Undefined, true), Prop(k2, Any, Undefined, true)];
    ExtractThrough(source, p, Prepared(x + ", " + ph, map[ph := props]));
    TwoKeyDescribe(x, ph, k1, k2);
  }

  /** The placeholder `k1k2`, lower-cased, is a plain name too. */
  lemma PlaceholderPlain(k1: string, k2: string)
    requires SimpleName(k1) && SimpleName(k2)
    ensures PlainName(Lower(k1 + k2))
  {
    assert SimpleName(k1 + k2);
    LowerSimple(k1 + k2);
    SimpleIsPlain(Lower(k1 + k2));
  }

  /** The source is normalised already. */
  lemma TwoKeyNormalized(source: string, x: string, k1: string, k2: string)
    requires SimpleName(x) && SimpleName(k1) && SimpleName(k2)
    requires source == "(" + x + ", {" + k1 + ", " + k2 + "}) => 0"
    ensures Normalize(source) == source
  {
    var a1, a2, a3 := "(" + x + ",", "{" + k1 + ",", k2 + "})";
    assert forall c :: c in a1 ==> c == '(' || c == ',' || c in x;
    assert forall c :: c in a2 ==> c == '{' || c == ',' || c in k1;
    assert forall c :: c in a3 ==> c == '}' || c == ')' || c in k2;
    SpaceFreeNormalized(a1);
    assert a1[|a1| - 1] == ',';
    JoinWord(a1, a2);
    JoinWord(a1 + " " + a2, a3);
    JoinWord(a1 + " " + a2 + " " + a3, "=>");
    JoinWord(a1 + " " + a2 + " " + a3 + " " + "=>", "0");
    TwoKeyWords(source, x, k1, k2);
    NormalizeOfNormalized(source);
  }

  /** The source as its five space-separated words. */
  lemma TwoKeyWords(source: string, x: string, k1: string, k2: string)
    requires source == "(" + x + ", {" + k1 + ", " + k2 + "}) => 0"
    ensures source == ("(" + x + ",") + " " + ("{" + k1 + ",") + " " + (k2 + "})") + " " + "=>" + " " + "0"
  {
  }

  /** The parameter text is `x, {k1, k2}`, which preparing leaves alone. */
  lemma TwoKeyParams(source: string, p: string, x: string, k1: string, k2: string)
    requires PlainName(x) && PlainName(k1) && PlainName(k2)
    requires source == "(" + x + ", {" + k1 + ", " + k2 + "}) => 0" && Normalize(source) == source
    requires p == x + ", " + Braced(k1 + ", " + k2)
    ensures ParamText(Normalize(source)) == Some(p) && PrepareParams(p) == p
  {
    TwoKeyShape(source, p, x, k1, k2);
    ArrowSourceParams(source, p);
    PrepareParamsOfPlain(p);
  }

  lemma TwoKeyShape(source: string, p: string, x: string, k1: string, k2: string)
    requires PlainName(x) && PlainName(k1) && PlainName(k2)
    requires source == "(" + x + ", {" + k1 + ", " + k2 + "}) => 0"
    requires p == x + ", " + Braced(k1 + ", " + k2)
    ensures source == "(" + p + ")" + " => 0"
    ensures p != [] && NoEdgeSpace(p) && '(' !in p && ')' !in p
  {
    assert p[0] == x[0] && p[|p| - 1] == '}';
  }

  /** The pattern `{k1, k2}` is the only match; it gives way to the
      lower-cased `k1k2`, which is remembered with the two keys. */
  lemma TwoKeyPrepass(x: string, k1: string, k2: string)
    requires PlainName(x) && PlainName(k1) && PlainName(k2)
    ensures var ph := Lower(k1 + k2);
            Prepass(x + ", " + Braced(k1 + ", " + k2)) ==
            Prepared(x + ", " + ph, map[ph := [Prop(k1, Any, Undefined, true), Prop(k2, Any, Undefined, true)]])
  {
    var g := k1 + ", " + k2;
    TwoKeyGroup(g, k1, k2);
    OnePatternPrepass(x + ", ", g);
  }

  /** A text with one pattern, after a brace-free `b` and before a `tail`
      with no match: the pattern gives way to its placeholder, which is
      remembered with the pattern's properties. */
  lemma {:induction false} PatternBeforeTail(b: string, g: string, tail: string)
    requires g != [] && '{' !in b && '{' !in g && '}' !in g && BraceSpans(tail) == []
    ensures var span := Span(Braced(g), g);
            Prepass(b + Braced(g) + tail) ==
            Prepared(b + Placeholder(span) + tail, map[Placeholder(span) := PatternProps(PatternGroup(g))])
  {
    var span := Span(Braced(g), g);
    var ph := Placeholder(span);
    var pieces := [Piece(b, g)];
    OnePiece(pieces, b, g, ph, tail);
    PrepassInPlace(pieces, tail);
    OnlyPlaceholder(Prepass(b + Braced(g) + tail).groups, [span], ph, PatternProps(PatternGroup(g)));
  }

  /** A text that ends with its one pattern, after a brace-free `b`. */
  lemma OnePatternPrepass(b: string, g: string)
    requires g != [] && '{' !in b && '{' !in g && '}' !in g
    ensures var span := Span(Braced(g), g);
            Prepass(b + Braced(g)) ==
            Prepared(b + Placeholder(span), map[Placeholder(span) := PatternProps(PatternGroup(g))])
  {
    var ph := Placeholder(Span(Braced(g), g));
    PatternBeforeTail(b, g, []);
    NoTail(b + Braced(g));
    NoTail(b + ph);
  }

  lemma NoTail(s: string)
    ensures s + [] == s
  {
  }

  /** A single pattern after `b`, with `tail` after it. */
  lemma OnePiece(pieces: seq<Piece>, b: string, g: string, ph: string, tail: string)
    requires pieces == [Piece(b, g)] && g != [] && '{' !in b && '{' !in g && '}' !in g
    requires BraceSpans(tail) == [] && Placeholder(Span(Braced(g), g)) == ph
    ensures PlainlyLaidOut(pieces, tail) && Spell(pieces, tail) == b + Braced(g) + tail
    ensures SpansOf(pieces) == [Span(Braced(g), g)] && Rewrite(pieces, tail) == b + ph + tail
  {
    assert PlainPiece(pieces[0]);
    SpellOne(Piece(b, g), tail);
    RewriteOne(Piece(b, g), tail);
  }

  lemma SpellOne(p: Piece, tail: string)
    ensures Spell([p], tail) == p.before + Braced(p.inner) + tail
    ensures SpansOf([p]) == [Span(Braced(p.inner), p.inner)]
  {
    assert [p][1..] == [];
  }

  lemma RewriteOne(p: Piece, tail: string)
    ensures Rewrite([p], tail) == p.before + Placeholder(Span(Braced(p.inner), p.inner)) + tail
  {
    assert [p][1..] == [];
    SpellOne(p, tail);
  }

  /** `x, {g} = {}, y`, the layout of a pattern with an empty object as its
      default: the pattern gives way to its placeholder, and the `{}` after
      it is kept and adds no match. */
  lemma DefaultedPatternPrepass(x: string, g: string, y: string)
    requires g != [] && '{' !in x && '{' !in g && '}' !in g && '{' !in y
    ensures var ph := Placeholder(Span(Braced(g), g));
            Prepass(x + ", " + Braced(g) + " = {}, " + y) ==
            Prepared(x + ", " + ph + " = {}, " + y, map[ph := PatternProps(PatternGroup(g))])
  {
    EmptyObjectDefault();
    PatternBeforeEmptyBraces(x + ", ", g, " = {}, ", y);
  }

  lemma EmptyObjectDefault()
    ensures OnlyEmptyBraces(" = {}, ")
  {
  }

  /** A pattern followed by text whose only braces are empty ones, and then
      by brace-free text. */
  lemma PatternBeforeEmptyBraces(a: string, g: string, d: string, y: string)
    requires g != [] && '{' !in a && '{' !in g && '}' !in g && OnlyEmptyBraces(d) && '{' !in y
    ensures var ph := Placeholder(Span(Braced(g), g));
            Prepass(a + Braced(g) + d + y) ==
            Prepared(a + ph + d + y, map[ph := PatternProps(PatternGroup(g))])
  {
    BraceFreeEmpty(y);
    EmptyBracesJoin(d, y);
    EmptyBracesNoMatch(d + y);
    PatternBeforeTail(a, g, d + y);
    ConcatAssoc(a + Braced(g), d, y);
    ConcatAssoc(a + Placeholder(Span(Braced(g), g)), d, y);
  }

  /** The groups remembered for one pattern hold its placeholder alone. */
  lemma OnlyPlaceholder(groups: map<string, seq<Prop>>, spans: seq<Span>, ph: string, props: seq<Prop>)
    requires |spans| == 1 && Placeholder(spans[0]) == ph
    requires groups.Keys == Placeholders(spans) && ph in groups && groups[ph] == props
    ensures groups == map[ph := props]
  {
    assert spans == [spans[0]];
    OnePlaceholder(spans[0]);
    SingletonGroups(groups, ph, props);
  }

  lemma OnePlaceholder(span: Span)
    ensures Placeholders([span]) == {Placeholder(span)}
  {
    assert [span][1..] == [];
  }

  /** A map whose only key is `ph` is the one-entry map at `ph`. */
  lemma SingletonGroups(groups: map<string, seq<Prop>>, ph: string, props: seq<Prop>)
    requires groups.Keys == {ph} && ph in groups && groups[ph] == props
    ensures groups == map[ph := props]
  {
  }

  /** `k1, k2` is its own group, splits into the two keys, each a required
      property of type `any`, and its placeholder is `k1k2` lower-cased. */
  lemma TwoKeyGroup(g: string, k1: string, k2: string)
    requires PlainName(k1) && PlainName(k2) && g == k1 + ", " + k2
    ensures g != [] && '{' !in g && '}' !in g
    ensures PatternGroup(g) == g
    ensures PatternProps(g) == [Prop(k1, Any, Undefined, true), Prop(k2, Any, Undefined, true)]
    ensures Placeholder(Span(Braced(g), g)) == Lower(k1 + k2)
  {
    TwoKeyText(g, k1, k2);
    TwoKeyProps(g, k1, k2);
    var props := [Prop(k1, Any, Undefined, true), Prop(k2, Any, Undefined, true)];
    NamesOfTwo(props[0], props[1]);
    PlaceholderOf(Span(Braced(g), g), props, k1 + k2);
  }

  lemma {:induction false} TwoKeyText(g: string, k1: string, k2: string)
    requires PlainName(k1) && PlainName(k2) && g == k1 + ", " + k2
    ensures g != [] && '{' !in g && '}' !in g
    ensures PatternGroup(g) == g && SplitAround(g, ',') == [k1, k2]
  {
    GroupWithoutLeadingSpace(g);
    assert g == k1 + [','] + " " + k2;
    SplitAroundPair(k1, k2, ',');
  }

  lemma {:induction false} TwoKeyProps(g: string, k1: string, k2: string)
    requires SplitAround(g, ',') == [k1, k2] && PlainName(k1) && PlainName(k2)
    ensures PatternProps(g) == [Prop(k1, Any, Undefined, true), Prop(k2, Any, Undefined, true)]
  {
    assert TrimEach(SplitAround(g, ',')) == [k1, k2] by {
      TrimNoEdge(k1);
      TrimNoEdge(k2);
    }
    PropsOfKeys(g, [k1, k2]);
    KeyProp(k1);
    KeyProp(k2);
  }

  /** The properties of a group are the keys read one by one. */
  lemma PropsOfKeys(g: string, keys: seq<string>)
    requires TrimEach(SplitAround(g, ',')) == keys
    ensures PatternProps(g) == seq(|keys|, i requires 0 <= i < |keys| => PropOf(keys[i]))
  {
  }

  /** A key with no default is a required property of type `any`. */
  lemma KeyProp(k: string)
    requires NoEdgeSpace(k) && ',' !in k && '=' !in k
    ensures PropOf(k) == Prop(k, Any, Undefined, true)
  {
    OneClause(k);
  }

  lemma NamesOfTwo(a: Prop, b: Prop)
    ensures Names([a, b]) == a.name + b.name
  {
    var props := [a, b];
    assert props[1..] == [b] && props[1..][1..] == [];
    assert Names([b]) == b.name + Names([]);
  }

  /** The prepared text `x, ph` is two clauses: `x` plain and `ph` the
      remembered pattern of the two keys. */
  lemma {:induction false} TwoKeyDescribe(x: string, ph: string, k1: string, k2: string)
    requires PlainName(x) && PlainName(ph) && x != ph
    ensures var props := [Prop(k1, Any, Undefined, true), Prop(k2, Any, Undefined, true)];
            var groups := map[ph := props];
            DescribeEach(Clauses(Prepared(x + ", " + ph, groups)), groups) ==
              [Descriptor(x, Any, Some(Undefined), true, false, None),
               Descriptor(k1 + k2, Object, None, true, true, Some(props))]
  {
    var props := [Prop(k1, Any, Undefined, true), Prop(k2, Any, Undefined, true)];
    var groups := map[ph := props];
    PairClauses(x, ph, groups);
    assert Describe(x, groups) == Descriptor(x, Any, Some(Undefined), true, false, None) by {
      OneClause(x);
    }
    DestructuredTwo(ph, k1, k2);
    DescribeTwo(x, ph, groups);
  }

  lemma PairClauses(x: string, ph: string, groups: map<string, seq<Prop>>)
    requires PlainName(x) && PlainName(ph)
    ensures Clauses(Prepared(x + ", " + ph, groups)) == [x, ph]
  {
    assert x + ", " + ph == x + [','] + " " + ph;
    SplitAroundPair(x, ph, ',');
  }

  lemma DestructuredTwo(ph: string, k1: string, k2: string)
    requires PlainName(ph)
    ensures var props := [Prop(k1, Any, Undefined, true), Prop(k2, Any, Undefined, true)];
            Describe(ph, map[ph := props]) == Descriptor(k1 + k2, Object, None, true, true, Some(props))
  {
    var props := [Prop(k1, Any, Undefined, true), Prop(k2, Any, Undefined, true)];
    PatternClause(ph, props);
    NamesOfTwo(props[0], props[1]);
    assert AnyRequired(props) by {
      assert props[0].required;
    }
  }

  /** A clause that is just a remembered placeholder. */
  lemma PatternClause(ph: string, props: seq<Prop>)
    requires NoEdgeSpace(ph) && ',' !in ph && '=' !in ph
    ensures Describe(ph, map[ph := props]) ==
            Descriptor(Names(props), Object, None, AnyRequired(props), true, Some(props))
  {
    OneClause(ph);
  }

  lemma {:induction false} DescribeTwo(a: string, b: string, groups: map<string, seq<Prop>>)
    ensures DescribeEach([a, b], groups) == [Describe(a, groups), Describe(b, groups)]
  {
    var clauses := [a, b];
    var r := DescribeEach(clauses, groups);
    assert clauses[0] == a && clauses[1] == b;
    TwoOf(r, Describe(a, groups), Describe(b, groups));
  }

  lemma TwoOf<T>(r: seq<T>, x: T, y: T)
    requires |r| == 2 && r[0] == x && r[1] == y
    ensures r == [x, y]
  {
  }

  // ---------------------------------------------------------------- a pattern with an empty-object default

  /** `(x, {k1, k2} = {}, y) => 0`, the layout of the code's own test with an
      overriding default: `x` and `y` plain and required, and between them
      the destructured parameter named after both keys, which keeps the
      empty object as its default and so is not required, though both of its
      keys are. */
  lemma DefaultedTwoKeyPattern(source: string, x: string, k1: string, k2: string, y: string)
    requires PlainName(x) && SimpleName(k1) && SimpleName(k2) && PlainName(y)
    requires x != Lower(k1 + k2) && y != Lower(k1 + k2)
    requires Normalize(source) == "(" + x + ", {" + k1 + ", " + k2 + "} = {}, " + y + ") => 0"
    ensures var props := [Prop(k1, Any, Undefined, true), Prop(k2, Any, Undefined, true)];
            Extract(Function(source)) ==
              [Descriptor(x, Any, Some(Undefined), true, false, None),
               Descriptor(k1 + k2, Object, Some(EmptyObject), false, true, Some(props)),
               Descriptor(y, Any, Some(Undefined), true, false, None)]
  {
    var g := k1 + ", " + k2;
    var p := x + ", " + Braced(g) + " = {}, " + y;
    var ph := Lower(k1 + k2);
    var props := [Prop(k1, Any, Undefined, true), Prop(k2, Any, Undefined, true)];
    SimpleIsPlain(k1);
    SimpleIsPlain(k2);
    PlaceholderPlain(k1, k2);
    DefaultedParams(source, p, x, k1, k2, y);
    DefaultedTwoKeyPrepass(x, k1, k2, y);
    ExtractThrough(source, p, Prepared(x + ", " + ph + " = {}, " + y, map[ph := props]));
    DefaultedDescribe(x, ph, k1, k2, y);
  }

  /** The pattern `{k1, k2}` gives way to `k1k2` lower-cased, and the `{}`
      after it adds no match. */
  lemma DefaultedTwoKeyPrepass(x: string, k1: string, k2: string, y: string)
    requires PlainName(x) && PlainName(k1) && PlainName(k2) && PlainName(y)
    ensures var ph := Lower(k1 + k2);
            Prepass(x + ", " + Braced(k1 + ", " + k2) + " = {}, " + y) ==
            Prepared(x + ", " + ph + " = {}, " + y, map[ph := [Prop(k1, Any, Undefined, true), Prop(k2, Any, Undefined, true)]])
  {
    var g := k1 + ", " + k2;
    TwoKeyGroup(g, k1, k2);
    DefaultedPatternPrepass(x, g, y);
  }

  /** The parameter text is `x, {g} = {}, y`, which preparing leaves alone. */
  lemma DefaultedParams(source: string, p: string, x: string, k1: string, k2: string, y: string)
    requires PlainName(x) && PlainName(k1) && PlainName(k2) && PlainName(y)
    requires p == x + ", " + Braced(k1 + ", " + k2) + " = {}, " + y
    requires Normalize(source) == "(" + x + ", {" + k1 + ", " + k2 + "} = {}, " + y + ") => 0"
    ensures ParamText(Normalize(source)) == Some(p) && PrepareParams(p) == p
  {
    var g := k1 + ", " + k2;
    assert forall c :: c in g ==> c in k1 || c in k2 || c in ", ";
    assert "(" + x + ", {" + k1 + ", " + k2 + "} = {}, " + y + ") => 0" == "(" + x + ", {" + g + "} = {}, " + y + ") => 0";
    DefaultedSource(x, g, y);
    DefaultedText(x, g, y, p);
    ArrowSourceParams(Normalize(source), p);
    PrepareParamsOfPlain(p);
  }

  lemma DefaultedText(x: string, g: string, y: string, p: string)
    requires PlainName(x) && PlainName(y) && '(' !in g && ')' !in g
    requires p == x + ", " + Braced(g) + " = {}, " + y
    ensures p != [] && NoEdgeSpace(p) && '(' !in p && ')' !in p
  {
    var m := ", " + Braced(g) + " = {}, ";
    assert p == x + m + y;
    assert '(' !in m && ')' !in m by {
      assert forall c :: c in m ==> c in g || c in ", {} =";
    }
    JoinEdges(x, m, y);
  }

  lemma DefaultedSource(x: string, g: string, y: string)
    ensures "(" + x + ", {" + g + "} = {}, " + y + ") => 0" ==
            "(" + (x + ", " + Braced(g) + " = {}, " + y) + ")" + " => 0"
  {
  }

  /** The ends of `a + m + b` are those of `a` and `b`, and its characters
      are theirs. */
  lemma JoinEdges(a: string, m: string, b: string)
    requires a != [] && b != []
    ensures (a + m + b)[0] == a[0] && (a + m + b)[|a + m + b| - 1] == b[|b| - 1]
    ensures forall c :: c in a + m + b <==> c in a || c in m || c in b
  {
  }

  /** The prepared text `x, ph = {}, y` is three clauses; the middle one names
      the remembered pattern and keeps its empty-object default. */
  lemma {:induction false} DefaultedDescribe(x: string, ph: string, k1: string, k2: string, y: string)
    requires PlainName(x) && PlainName(ph) && PlainName(y) && x != ph && y != ph
    ensures var props := [Prop(k1, Any, Undefined, true), Prop(k2, Any, Undefined, true)];
            var groups := map[ph := props];
            DescribeEach(Clauses(Prepared(x + ", " + ph + " = {}, " + y, groups)), groups) ==
              [Descriptor(x, Any, Some(Undefined), true, false, None),
               Descriptor(k1 + k2, Object, Some(EmptyObject), false, true, Some(props)),
               Descriptor(y, Any, Some(Undefined), true, false, None)]
  {
    var props := [Prop(k1, Any, Undefined, true), Prop(k2, Any, Undefined, true)];
    var groups := map[ph := props];
    DefaultedClauses(x, ph, y, groups);
    PlainDescribe(x, groups);
    PlainDescribe(y, groups);
    DefaultedMid(ph, k1, k2);
    DescribeThree(x, ph + " = " + "{}", y, groups);
  }

  lemma DefaultedClauses(x: string, ph: string, y: string, groups: map<string, seq<Prop>>)
    requires PlainName(x) && PlainName(ph) && PlainName(y)
    ensures Clauses(Prepared(x + ", " + ph + " = {}, " + y, groups)) == [x, ph + " = " + "{}", y]
  {
    DefaultedLayout(x, ph, y);
    MidClause(ph);
    TripleClauses(x, ph + " = " + "{}", y, groups);
  }

  /** A plain name that is not remembered is a required parameter of type
      `any` with no default text. */
  lemma PlainDescribe(x: string, groups: map<string, seq<Prop>>)
    requires PlainName(x) && x !in groups
    ensures Describe(x, groups) == Descriptor(x, Any, Some(Undefined), true, false, None)
  {
    OneClause(x);
  }

  /** `ph = {}` with `ph` remembered for two keys keeps the empty object. */
  lemma DefaultedMid(ph: string, k1: string, k2: string)
    requires PlainName(ph)
    ensures var props := [Prop(k1, Any, Undefined, true), Prop(k2, Any, Undefined, true)];
            Describe(ph + " = " + "{}", map[ph := props]) ==
              Descriptor(k1 + k2, Object, Some(EmptyObject), false, true, Some(props))
  {
    var props := [Prop(k1, Any, Undefined, true), Prop(k2, Any, Undefined, true)];
    ObjectDefaultKept(ph, "{}", map[ph := props]);
    NamesOfTwo(props[0], props[1]);
  }

  lemma DefaultedLayout(x: string, ph: string, y: string)
    ensures x + ", " + ph + " = {}, " + y == x + [','] + " " + ((ph + " = " + "{}") + [','] + " " + y)
  {
  }

  /** `ph = {}` is one trimmed clause without a comma. */
  lemma MidClause(ph: string)
    requires PlainName(ph)
    ensures var mid := ph + " = " + "{}";
            mid != [] && ',' !in mid && !IsSpace(mid[0]) && !IsSpace(mid[|mid| - 1])
  {
    var mid := ph + " = " + "{}";
    assert mid[0] == ph[0] && mid[|mid| - 1] == '}';
    assert forall c :: c in mid ==> c in ph || c in " = {}";
  }

  lemma TripleClauses(x: string, mid: string, y: string, groups: map<string, seq<Prop>>)
    requires PlainName(x) && PlainName(y) && mid != [] && ',' !in mid && !IsSpace(mid[0]) && !IsSpace(mid[|mid| - 1])
    ensures Clauses(Prepared(x + [','] + " " + (mid + [','] + " " + y), groups)) == [x, mid, y]
  {
    SplitAroundFirst(x, mid + [','] + " " + y, ',');
    SplitAroundPair(mid, y, ',');
  }

  lemma {:induction false} DescribeThree(a: string, b: string, c: string, groups: map<string, seq<Prop>>)
    ensures DescribeEach([a, b, c], groups) == [Describe(a, groups), Describe(b, groups), Describe(c, groups)]
  {
    var clauses := [a, b, c];
    var r := DescribeEach(clauses, groups);
    assert clauses[0] == a && clauses[1] == b && clauses[2] == c;
    ThreeOf(r, Describe(a, groups), Describe(b, groups), Describe(c, groups));
  }

  lemma ThreeOf<T>(r: seq<T>, x: T, y: T, z: T)
    requires |r| == 3 && r[0] == x && r[1] == y && r[2] == z
    ensures r == [x, y, z]
  {
  }

  // ---------------------------------------------------------------- padded keys and calls in defaults

  /** `{ k1, k2 }`, the keys padded inside the braces as in `({ a, b }) => 0`:
      the same placeholder and properties as `{k1, k2}`. */
  lemma PaddedKeysPrepass(k1: string, k2: string)
    requires PlainName(k1) && PlainName(k2)
    ensures var ph := Lower(k1 + k2);
            Prepass("{ " + k1 + ", " + k2 + " }") ==
            Prepared(ph, map[ph := [Prop(k1, Any, Undefined, true), Prop(k2, Any, Undefined, true)]])
  {
    var g := k1 + ", " + k2;
    TwoKeyGroup(g, k1, k2);
    TwoKeyEdges(g, k1, k2);
    PaddedPatternPrepass(g, PatternProps(g), Lower(k1 + k2));
    PaddedText(k1, k2, " " + g + " ");
  }

  lemma TwoKeyEdges(g: string, k1: string, k2: string)
    requires PlainName(k1) && PlainName(k2) && g == k1 + ", " + k2
    ensures NoEdgeSpace(g) && Lower(Names(PatternProps(g))) == Lower(k1 + k2)
  {
    assert g[0] == k1[0] && g[|g| - 1] == k2[|k2| - 1];
    TwoKeyGroup(g, k1, k2);
    var props := PatternProps(g);
    NamesOfTwo(props[0], props[1]);
  }

  /** A lone pattern padded with one space inside each brace. */
  lemma PaddedPatternPrepass(g: string, props: seq<Prop>, ph: string)
    requires g != [] && NoEdgeSpace(g) && '{' !in g && '}' !in g
    requires PatternProps(g) == props && Lower(Names(props)) == ph
    ensures Prepass(Braced(" " + g + " ")) == Prepared(ph, map[ph := props])
  {
    PaddedGroup(g, " " + g + " ");
    PatternAlonePrepass(" " + g + " ", props, ph);
  }

  lemma PaddedText(k1: string, k2: string, padded: string)
    requires padded == " " + (k1 + ", " + k2) + " "
    ensures "{ " + k1 + ", " + k2 + " }" == Braced(padded)
  {
  }

  /** A parameter text that is one pattern gives way to its placeholder. */
  lemma PatternAlonePrepass(g: string, props: seq<Prop>, ph: string)
    requires g != [] && '{' !in g && '}' !in g
    requires PatternProps(PatternGroup(g)) == props && Lower(Names(props)) == ph
    ensures Prepass(Braced(g)) == Prepared(ph, map[ph := props])
  {
    OnePatternPrepass([], g);
    PlaceholderOf(Span(Braced(g), g), props, Names(props));
    NoHead(Braced(g));
    NoHead(ph);
  }

  lemma NoHead(s: string)
    ensures [] + s == s
  {
  }

  /** One space on each side of a brace-free group: its properties are the
      group's own. */
  lemma PaddedGroup(g: string, padded: string)
    requires g != [] && NoEdgeSpace(g) && '{' !in g && '}' !in g && padded == " " + g + " "
    ensures padded != [] && '{' !in padded && '}' !in padded
    ensures PatternProps(PatternGroup(padded)) == PatternProps(g)
  {
    assert padded[1] == g[0];
    assert !AllSpace(padded);
    PatternGroupProps(padded);
    assert AllSpace(" ");
    TrimOfPadded(" ", g, " ");
    TrimNoEdge(g);
    PatternPropsOfTrimmed(padded);
  }

  /** `(a = f(v), b) => 0`: the parameter text ends at the first `)`, the one
      that closes the call, so `b` is lost; preparing then drops the call's
      `(`, leaving the single clause `a = fv`. */
  lemma CallInDefault(a: string, f: string, v: string, b: string)
    requires PlainName(a) && PlainName(f) && PlainName(v)
    ensures var p := a + " = " + f + "(" + v;
            ParamText("(" + p + ")" + ", " + b + ") => 0") == Some(p) &&
            PrepareParams(p) == a + " = " + f + v
  {
    var h := a + " = " + f;
    CallHead(a, f, h);
    CallParamText(h + "(" + v, b);
    DropCallParen(h, v);
  }

  lemma CallHead(a: string, f: string, h: string)
    requires PlainName(a) && PlainName(f) && h == a + " = " + f
    ensures h != [] && !IsSpace(h[0]) && '(' !in h && ')' !in h
  {
    assert h[0] == a[0];
  }

  /** The text between the first `(` and the first `)` of `(p), b) => 0`. */
  lemma CallParamText(p: string, b: string)
    requires ')' !in p && p != []
    ensures ParamText("(" + p + ")" + ", " + b + ") => 0") == Some(p)
  {
    var t := ", " + b + ") => 0";
    ParenthesisedParams([], p, t);
    NoHead("(");
    ConcatAssoc("(" + p + ")", ", " + b, ") => 0");
    ConcatAssoc("(" + p + ")", ", ", b);
  }

  /** Preparing `h(v)` where neither part has parentheses drops the `(`. */
  lemma DropCallParen(h: string, v: string)
    requires h != [] && !IsSpace(h[0]) && '(' !in h && ')' !in h
    requires PlainName(v)
    ensures PrepareParams(h + "(" + v) == h + v
  {
    ParenDropped(h, '(', v);
    assert (h + v)[0] == h[0] && (h + v)[|h + v| - 1] == v[|v| - 1];
    PrepareParamsOfPlain(h + v);
  }
}
