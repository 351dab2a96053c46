/** The exported extractor of index.js: from the source text of a function to
    one descriptor per parameter clause. */
module Extractor {

  import opened Options
  import opened JsText
  import opened Values
  import Typifier

  // ---------------------------------------------------------------- normalising

  predicate NotLineBreak(c: char) {
    !IsLineBreak(c)
  }

  predicate NotSpace(c: char) {
    !IsSpace(c)
  }

  predicate NoLineBreak(s: string) {
    forall i :: 0 <= i < |s| ==> !IsLineBreak(s[i])
  }

  /** No two neighbouring characters are both white space. */
  predicate NoSpaceRun(s: string) {
    forall i :: 0 <= i < |s| - 1 ==> !(IsSpace(s[i]) && IsSpace(s[i + 1]))
  }

  predicate Normalized(s: string) {
    NoLineBreak(s) && NoSpaceRun(s)
  }

  /** `s.replace(/\s{2,}/gim, ' ')`: each run of two or more white-space
      characters becomes one space; a single white-space character stays. */
  function CollapseSpaceRuns(s: string): (r: string)
    ensures |r| <= |s|
    ensures s == [] <==> r == []
    ensures s != [] ==> (IsSpace(r[0]) <==> IsSpace(s[0]))
    ensures forall c :: c in r ==> c == ' ' || c in s
    ensures NoSpaceRun(r)
    decreases |s|
  {
    if |s| >= 2 && IsSpace(s[0]) && IsSpace(s[1]) then
      var n := LeadingSpace(s);
      var rest := CollapseSpaceRuns(s[n..]);
      assert forall i :: 0 <= i < |rest| ==> (" " + rest)[i + 1] == rest[i];
      " " + rest
    else if s == [] then []
    else
      var rest := CollapseSpaceRuns(s[1..]);
      assert forall i :: 0 <= i < |rest| ==> ([s[0]] + rest)[i + 1] == rest[i];
      [s[0]] + rest
  }

  /** The two replacements of index.js:70-72: line breaks go, then white-space
      runs shrink to one space. */
  function Normalize(source: string): (r: string)
    ensures Normalized(r)
    ensures |r| <= |source|
  {
    var f := Filter(source, NotLineBreak);
    var r := CollapseSpaceRuns(f);
    assert forall i :: 0 <= i < |r| ==> r[i] in r;
    r
  }

  lemma FilterNothing(s: string, keep: char -> bool)
    requires forall i :: 0 <= i < |s| ==> !keep(s[i])
    ensures Filter(s, keep) == []
  {
  }

  /** Collapsing white space keeps every other character, in order. */
  lemma {:induction false} CollapseKeepsContent(s: string)
    ensures Filter(CollapseSpaceRuns(s), NotSpace) == Filter(s, NotSpace)
    decreases |s|
  {
    if |s| >= 2 && IsSpace(s[0]) && IsSpace(s[1]) {
      CollapseKeepsContent(s[LeadingSpace(s)..]);
      RunStepKept(s);
    } else if s != [] {
      CollapseKeepsContent(s[1..]);
      HeadStepKept(s);
    }
  }

  lemma {:induction false} RunStepKept(s: string)
    requires |s| >= 2 && IsSpace(s[0]) && IsSpace(s[1])
    requires Filter(CollapseSpaceRuns(s[LeadingSpace(s)..]), NotSpace) == Filter(s[LeadingSpace(s)..], NotSpace)
    ensures Filter(CollapseSpaceRuns(s), NotSpace) == Filter(s, NotSpace)
  {
    var n := LeadingSpace(s);
    RunStart(s);
    LeadingRun(s, n);
    RunKept(s[..n], s[n..], CollapseSpaceRuns(s[n..]));
  }

  lemma LeadingRun(s: string, n: nat)
    requires n == LeadingSpace(s)
    ensures s == s[..n] + s[n..] && AllSpace(s[..n])
  {
    assert forall k :: 0 <= k < n ==> s[..n][k] == s[k];
  }

  lemma {:induction false} HeadStepKept(s: string)
    requires s != [] && !(|s| >= 2 && IsSpace(s[0]) && IsSpace(s[1]))
    requires Filter(CollapseSpaceRuns(s[1..]), NotSpace) == Filter(s[1..], NotSpace)
    ensures Filter(CollapseSpaceRuns(s), NotSpace) == Filter(s, NotSpace)
  {
    assert s == [s[0]] + s[1..];
    HeadKept(s[0], s[1..], CollapseSpaceRuns(s[1..]));
  }

  /** A white-space run before `t` turned into one space before `r`. */
  lemma RunKept(w: string, t: string, r: string)
    requires AllSpace(w) && Filter(r, NotSpace) == Filter(t, NotSpace)
    ensures Filter(" " + r, NotSpace) == Filter(w + t, NotSpace)
  {
    FilterAppend(" ", r, NotSpace);
    FilterAppend(w, t, NotSpace);
    FilterNothing(w, NotSpace);
    FilterNothing(" ", NotSpace);
  }

  lemma HeadKept(c: char, t: string, r: string)
    requires Filter(r, NotSpace) == Filter(t, NotSpace)
    ensures Filter([c] + r, NotSpace) == Filter([c] + t, NotSpace)
  {
    FilterAppend([c], t, NotSpace);
    FilterAppend([c], r, NotSpace);
  }

  /** Normalising never changes the characters that are not white space. */
  lemma NormalizeKeepsContent(source: string)
    ensures Filter(Normalize(source), NotSpace) == Filter(source, NotSpace)
  {
    var f := Filter(source, NotLineBreak);
    CollapseKeepsContent(f);
    FilterDropsSpaceOnly(source);
  }

  lemma {:induction false} FilterDropsSpaceOnly(s: string)
    ensures Filter(Filter(s, NotLineBreak), NotSpace) == Filter(s, NotSpace)
    decreases |s|
  {
    if s != [] {
      FilterDropsSpaceOnly(s[1..]);
    }
  }

  lemma {:induction false} FilterKeepsAll(s: string, keep: char -> bool)
    requires forall i :: 0 <= i < |s| ==> keep(s[i])
    ensures Filter(s, keep) == s
    decreases |s|
  {
    if s != [] {
      FilterKeepsAll(s[1..], keep);
    }
  }

  lemma {:induction false} CollapseOfNoRun(s: string)
    requires NoSpaceRun(s)
    ensures CollapseSpaceRuns(s) == s
    decreases |s|
  {
    if s != [] {
      assert NoSpaceRun(s[1..]) by {
        forall i | 0 <= i < |s| - 2 ensures !(IsSpace(s[1..][i]) && IsSpace(s[1..][i + 1])) {
          assert s[1..][i] == s[i + 1] && s[1..][i + 1] == s[i + 2];
        }
      }
      CollapseOfNoRun(s[1..]);
    }
  }

  /** A normalised text is left as it is. */
  lemma NormalizeOfNormalized(s: string)
    requires Normalized(s)
    ensures Normalize(s) == s
  {
    FilterKeepsAll(s, NotLineBreak);
    CollapseOfNoRun(s);
  }

  /** A run of white space never reaches across a character that is not
      white space, so the collapse works on either side of it alone. */
  lemma {:induction false} CollapseSeam(a: string, b: string)
    requires b != [] && !IsSpace(b[0])
    ensures CollapseSpaceRuns(a + b) == CollapseSpaceRuns(a) + CollapseSpaceRuns(b)
    decreases |a|, 1
  {
    if a == [] {
      assert a + b == b;
    } else if |a| >= 2 && IsSpace(a[0]) && IsSpace(a[1]) {
      SeamAfterRun(a, b);
    } else if |a| == 1 {
      SeamSingle(a, b);
    } else {
      SeamAfterChar(a, b);
    }
  }

  lemma {:induction false} SeamAfterRun(a: string, b: string)
    requires |a| >= 2 && IsSpace(a[0]) && IsSpace(a[1]) && b != [] && !IsSpace(b[0])
    ensures CollapseSpaceRuns(a + b) == CollapseSpaceRuns(a) + CollapseSpaceRuns(b)
    decreases |a|, 0
  {
    var rest := a[LeadingSpace(a)..];
    SeamRun(a, b);
    CollapseSeam(rest, b);
    ConcatAssoc(" ", CollapseSpaceRuns(rest), CollapseSpaceRuns(b));
  }

  lemma {:induction false} SeamAfterChar(a: string, b: string)
    requires |a| >= 2 && !(IsSpace(a[0]) && IsSpace(a[1])) && b != [] && !IsSpace(b[0])
    ensures CollapseSpaceRuns(a + b) == CollapseSpaceRuns(a) + CollapseSpaceRuns(b)
    decreases |a|, 0
  {
    SeamChar(a, b);
    CollapseSeam(a[1..], b);
    ConcatAssoc([a[0]], CollapseSpaceRuns(a[1..]), CollapseSpaceRuns(b));
  }

  /** A run at the start of `a` is a run at the start of `a + b`. */
  lemma SeamRun(a: string, b: string)
    requires |a| >= 2 && IsSpace(a[0]) && IsSpace(a[1]) && b != [] && !IsSpace(b[0])
    ensures CollapseSpaceRuns(a) == " " + CollapseSpaceRuns(a[LeadingSpace(a)..])
    ensures CollapseSpaceRuns(a + b) == " " + CollapseSpaceRuns(a[LeadingSpace(a)..] + b)
  {
    var s := a + b;
    RunStart(a);
    assert s[0] == a[0] && s[1] == a[1];
    RunStart(s);
    LeadingSpaceAppend(a, b);
    SuffixOfAppend(a, b, LeadingSpace(a));
  }

  /** A text that starts with a run collapses it to one space. */
  lemma RunStart(s: string)
    requires |s| >= 2 && IsSpace(s[0]) && IsSpace(s[1])
    ensures CollapseSpaceRuns(s) == " " + CollapseSpaceRuns(s[LeadingSpace(s)..])
  {
  }

  lemma SuffixOfAppend(a: string, b: string, n: nat)
    requires n <= |a|
    ensures (a + b)[n..] == a[n..] + b
  {
  }

  /** A single white-space character before `b` stays. */
  lemma SeamSingle(a: string, b: string)
    requires |a| == 1 && b != [] && !IsSpace(b[0])
    ensures CollapseSpaceRuns(a + b) == a + CollapseSpaceRuns(b)
  {
    var s := a + b;
    assert s[0] == a[0] && s[1] == b[0] && s[1..] == b;
    assert CollapseSpaceRuns(a) == a by {
      assert a[1..] == [];
    }
  }

  /** A character that starts no run is copied. */
  lemma SeamChar(a: string, b: string)
    requires |a| >= 2 && !(IsSpace(a[0]) && IsSpace(a[1]))
    ensures CollapseSpaceRuns(a) == [a[0]] + CollapseSpaceRuns(a[1..])
    ensures CollapseSpaceRuns(a + b) == [a[0]] + CollapseSpaceRuns(a[1..] + b)
  {
    var s := a + b;
    assert s[0] == a[0] && s[1] == a[1];
    assert s[1..] == a[1..] + b;
  }

  lemma {:induction false} LeadingSpaceAppend(a: string, b: string)
    requires b != [] && !IsSpace(b[0])
    ensures LeadingSpace(a + b) == LeadingSpace(a)
    decreases |a|
  {
    if a == [] {
      assert a + b == b;
    } else {
      assert (a + b)[0] == a[0];
      assert (a + b)[1..] == a[1..] + b;
      LeadingSpaceAppend(a[1..], b);
    }
  }

  /** Normalising `h()t` normalises `h` and `t` apart and keeps `()`. */
  lemma NormalizeAroundParens(h: string, t: string)
    ensures Normalize(h + "()" + t) == Normalize(h) + "()" + Normalize(t)
  {
    var fh, ft := Filter(h, NotLineBreak), Filter(t, NotLineBreak);
    FilterAroundParens(h, t);
    CollapseSeam(fh, "()" + ft);
    CollapseParens(ft);
    ConcatAssoc(CollapseSpaceRuns(fh), "()", CollapseSpaceRuns(ft));
  }

  lemma FilterAroundParens(h: string, t: string)
    ensures Filter(h + "()" + t, NotLineBreak) == Filter(h, NotLineBreak) + ("()" + Filter(t, NotLineBreak))
  {
    assert h + "()" + t == h + ("()" + t);
    FilterAppend(h, "()" + t, NotLineBreak);
    FilterAppend("()", t, NotLineBreak);
    FilterKeepsAll("()", NotLineBreak);
  }

  lemma CollapseParens(t: string)
    ensures CollapseSpaceRuns("()" + t) == "()" + CollapseSpaceRuns(t)
  {
    assert ("()" + t)[1..] == ")" + t && (")" + t)[1..] == t;
  }

  /** What normalising keeps of a text: its characters other than line
      breaks, and spaces. */
  lemma NormalizeChars(s: string, c: char)
    requires c != ' ' && c !in s
    ensures c !in Normalize(s)
  {
  }

  /** Normalising twice is normalising once. */
  lemma NormalizeIdempotent(source: string)
    ensures Normalize(Normalize(source)) == Normalize(source)
  {
    NormalizeOfNormalized(Normalize(source));
  }

  /** A text without white space is normalised. */
  lemma SpaceFreeNormalized(w: string)
    requires forall c :: c in w ==> !IsSpace(c)
    ensures Normalized(w)
  {
    assert forall i :: 0 <= i < |w| ==> w[i] in w;
  }

  /** A normalised text ending in a character that is not white space,
      then one space and a word without white space, is normalised and ends
      in such a character again. */
  lemma JoinWord(acc: string, w: string)
    requires Normalized(acc) && acc != [] && !IsSpace(acc[|acc| - 1])
    requires w != [] && forall c :: c in w ==> !IsSpace(c)
    ensures Normalized(acc + " " + w) && !IsSpace((acc + " " + w)[|acc + " " + w| - 1])
  {
    SpaceFreeNormalized(w);
    assert w[0] in w && w[|w| - 1] in w;
    NormalizedJoin(acc, w);
    assert (acc + " " + w)[|acc + " " + w| - 1] == w[|w| - 1];
  }

  /** Two normalised texts joined by one space, with no white space at the
      seam, make a normalised text. */
  lemma NormalizedJoin(a: string, b: string)
    requires Normalized(a) && Normalized(b)
    requires a != [] && !IsSpace(a[|a| - 1]) && b != [] && !IsSpace(b[0])
    ensures Normalized(a + " " + b)
  {
    var s := a + " " + b;
    assert forall i :: 0 <= i < |a| ==> s[i] == a[i];
    assert forall i :: 0 <= i < |b| ==> s[|a| + 1 + i] == b[i];
    forall i | 0 <= i < |s| - 1 ensures !(IsSpace(s[i]) && IsSpace(s[i + 1])) {
      if i >= |a| + 1 {
        assert s[i] == b[i - |a| - 1];
      }
    }
  }

  // ---------------------------------------------------------------- the parameter text

  /** Length of the `\w` run at the start of `s`. */
  function WordRun(s: string): (n: nat)
    ensures n <= |s|
    ensures forall k :: 0 <= k < n ==> IsWordChar(s[k])
    ensures n == |s| || !IsWordChar(s[n])
    decreases |s|
  {
    if s != [] && IsWordChar(s[0]) then 1 + WordRun(s[1..]) else 0
  }

  /** The lookahead `(?=\s*=>)`. */
  predicate ArrowFollows(s: string) {
    var n := LeadingSpace(s);
    n + 2 <= |s| && s[n] == '=' && s[n + 1] == '>'
  }

  /** `matchedArgs[1]` after `filter(Boolean)` for the first match of
      `^((\w*)(?=\s*=>))|^[^(]*\(([^)]+)\)`. Both alternatives are anchored at
      the start. The first takes the leading word when white space and `=>`
      follow it; when that word is empty every group is empty, the filter
      leaves nothing and there is no parameter text. The second takes the text
      between the first `(` and the next `)`, which must not be empty. */
  function ParamText(s: string): (r: Option<string>)
    ensures r.Some? ==> r.value != [] && ')' !in r.value
  {
    var w := WordRun(s);
    if ArrowFollows(s[w..]) then
      if w == 0 then None
      else
        assert forall k :: 0 <= k < w ==> s[..w][k] == s[k];
        Some(s[..w])
    else if '(' !in s then None
    else
      var t := s[IndexOfChar(s, '(') + 1..];
      if ')' !in t then None
      else
        var j := IndexOfChar(t, ')');
        if j == 0 then None else Some(t[..j])
  }

  /** Characters that are neither `(` nor `)`. */
  predicate NotParen(c: char) {
    c != '(' && c != ')'
  }

  /** `String(text.trim()).replace(/[()]/gim, '')`: the trimmed text, with
      every other character as often as it occurs there. */
  function PrepareParams(p: string): (r: string)
    ensures '(' !in r && ')' !in r
    ensures forall c :: NotParen(c) ==> multiset(r)[c] == multiset(Trim(p))[c]
  {
    FilterCounts(Trim(p), NotParen);
    Filter(Trim(p), NotParen)
  }

  /** A parenthesis inside a trimmed text is dropped and the rest kept in
      order. */
  lemma ParenDropped(a: string, q: char, b: string)
    requires !NotParen(q) && a != [] && b != [] && !IsSpace(a[0]) && !IsSpace(b[|b| - 1])
    ensures PrepareParams(a + [q] + b) == PrepareParams(a + b)
  {
    assert (a + [q] + b)[0] == a[0] && (a + b)[0] == a[0];
    assert (a + [q] + b)[|a + [q] + b| - 1] == b[|b| - 1] && (a + b)[|a + b| - 1] == b[|b| - 1];
    TrimNoEdge(a + [q] + b);
    TrimNoEdge(a + b);
    assert a + [q] + b == a + ([q] + b);
    FilterAppend(a, [q] + b, NotParen);
    FilterAppend([q], b, NotParen);
    FilterAppend(a, b, NotParen);
  }

  lemma WordRunOf(w: string, t: string)
    requires forall k :: 0 <= k < |w| ==> IsWordChar(w[k])
    requires t == [] || !IsWordChar(t[0])
    ensures WordRun(w + t) == |w|
  {
    var s := w + t;
    var n := WordRun(s);
    assert forall k :: 0 <= k < |w| ==> s[k] == w[k];
    if |w| < |s| {
      assert s[|w|] == t[0];
    }
  }

  /** A single word followed by `=>` is the whole parameter text. */
  lemma {:induction false} ArrowParam(w: string, ws: string, rest: string)
    requires w != [] && forall k :: 0 <= k < |w| ==> IsWordChar(w[k])
    requires AllSpace(ws)
    ensures ParamText(w + ws + "=>" + rest) == Some(w)
  {
    var s := w + ws + "=>" + rest;
    assert s == w + (ws + "=>" + rest);
    WordRunOf(w, ws + "=>" + rest);
    assert s[|w|..] == ws + ("=>" + rest);
    ArrowAfterSpace(ws, rest);
    ArrowTaken(s, |w|);
    assert s[..|w|] == w;
  }

  lemma ArrowAfterSpace(ws: string, rest: string)
    requires AllSpace(ws)
    ensures ArrowFollows(ws + ("=>" + rest))
  {
    LeadingSpaceOf(ws, "=>" + rest);
    var t := ws + ("=>" + rest);
    assert t[|ws|] == '=' && t[|ws| + 1] == '>';
  }

  /** A non-empty word followed by `=>` is the parameter text. */
  lemma ArrowTaken(s: string, n: nat)
    requires 0 < n <= |s| && WordRun(s) == n && ArrowFollows(s[n..])
    ensures ParamText(s) == Some(s[..n])
  {
  }

  /** A trimmed parameter text without parentheses is prepared as it is. */
  lemma PrepareParamsOfPlain(p: string)
    requires NoEdgeSpace(p) && '(' !in p && ')' !in p
    ensures PrepareParams(p) == p
  {
    TrimStartOfTrimmed(p);
    TrimEndOfTrimmed(p);
    assert forall i :: 0 <= i < |p| ==> p[i] in p;
    FilterKeepsAll(p, NotParen);
  }

  /** Without `=` or `(` before the parenthesis, the parameter text is what
      the first pair of parentheses holds. */
  lemma ParenthesisedParams(h: string, p: string, t: string)
    requires '(' !in h && '=' !in h && ')' !in p && p != []
    ensures ParamText(h + "(" + p + ")" + t) == Some(p)
  {
    var s := h + "(" + p + ")" + t;
    NoArrowBeforeParen(h, p + ")" + t);
    assert s == h + "(" + (p + ")" + t);
    assert s[..|h|] == h;
    IndexOfCharUnique(s, '(', |h|);
    var u := s[|h| + 1..];
    assert u == p + ")" + t;
    assert u[..|p|] == p;
    IndexOfCharUnique(u, ')', |p|);
  }

  /** Empty parentheses give no parameter text. */
  lemma EmptyParens(h: string, t: string)
    requires '(' !in h && '=' !in h
    ensures ParamText(h + "()" + t) == None
  {
    var s := h + "()" + t;
    assert s == h + "(" + (")" + t);
    NoArrowBeforeParen(h, ")" + t);
    assert s[..|h|] == h;
    IndexOfCharUnique(s, '(', |h|);
    var u := s[|h| + 1..];
    assert u == ")" + t;
    IndexOfCharUnique(u, ')', 0);
  }

  /** `h()t`: no parameter text in empty parentheses, so no descriptors,
      whatever white space the source holds. */
  lemma EmptyParensExtract(h: string, t: string)
    requires '(' !in h && '=' !in h
    ensures Extract(Function(h + "()" + t)) == []
  {
    NormalizeAroundParens(h, t);
    NormalizeChars(h, '(');
    NormalizeChars(h, '=');
    EmptyParens(Normalize(h), Normalize(t));
  }

  lemma NoArrowBeforeParen(h: string, t: string)
    requires '=' !in h
    ensures var s := h + "(" + t; !ArrowFollows(s[WordRun(s)..])
  {
    var s := h + "(" + t;
    var w := WordRun(s);
    assert s[|h|] == '(';
    assert w <= |h|;
    var n := LeadingSpace(s[w..]);
    assert s[w..][|h| - w] == '(';
    assert w + n <= |h|;
    if w + n < |h| {
      assert s[w..][n] == h[w + n];
    }
  }

  // ---------------------------------------------------------------- destructuring patterns

  /** One match of `{\s*([^}]+)\s*}`: its whole text and the text between
      its braces, from which `PatternGroup` takes the first group. */
  datatype Span = Span(whole: string, inner: string)

  /** The group of a match whose braces hold `inner`: the white space after
      `{` is dropped; when there is nothing else, the engine gives the last
      white-space character back to `[^}]+`. */
  function PatternGroup(inner: string): (group: string)
    ensures |group| <= |inner| && group == inner[|inner| - |group|..]
    ensures inner != [] ==> group != []
    ensures !AllSpace(inner) ==> group == TrimStart(inner)
    ensures inner != [] && AllSpace(inner) ==> |group| == 1 && AllSpace(group)
  {
    if inner == [] then []
    else if AllSpace(inner) then inner[|inner| - 1..]
    else
      TrimStartIsSuffix(inner);
      inner[LeadingSpace(inner)..]
  }

  /** The global matches of `{\s*([^}]+)\s*}`, left to right. A match runs
      from a `{` to the first `}` after it and needs at least one character
      between them, so `{}` is none. */
  function BraceSpans(s: string): (r: seq<Span>)
    ensures forall i :: 0 <= i < |r| ==> r[i].inner != []
    decreases |s|
  {
    if '{' !in s then []
    else
      var p := IndexOfChar(s, '{');
      var t := s[p + 1..];
      if '}' !in t then []
      else
        var c := IndexOfChar(t, '}');
        if c == 0 then BraceSpans(t)
        else [Span(s[p..p + c + 2], t[..c])] + BraceSpans(t[c + 1..])
  }

  /** `s[p]` is `{`, `s[c]` the first `}` after it, with something between. */
  predicate PatternAt(s: string, p: int, c: int) {
    && 0 <= p && p + 1 < c < |s| && s[p] == '{' && s[c] == '}'
    && forall k :: p < k < c ==> s[k] != '}'
  }

  predicate HasBracePattern(s: string) {
    exists p, c :: 0 <= p < c < |s| && PatternAt(s, p, c)
  }

  lemma PatternAtShift(s: string, d: nat, p: int, c: int)
    requires d <= |s| && 0 <= p
    ensures PatternAt(s[d..], p, c) <==> PatternAt(s, p + d, c + d)
  {
    if PatternAt(s, p + d, c + d) {
      forall k | p < k < c ensures s[d..][k] != '}' { assert s[d..][k] == s[k + d]; }
    }
  }

  /** The matches are exactly what the pattern predicts: there is one as soon
      as the text holds a `{…}` with something inside. */
  lemma {:induction false} BraceSpansFound(s: string)
    ensures BraceSpans(s) != [] <==> HasBracePattern(s)
    decreases |s|
  {
    if '{' in s {
      var p := IndexOfChar(s, '{');
      NotBefore(s, '{', p);
      var t := s[p + 1..];
      if '}' !in t {
        NoCloseNoPattern(s, p);
      } else {
        var c := IndexOfChar(t, '}');
        if c == 0 {
          BraceSpansFound(t);
          PatternShift(s, p);
        } else {
          NotBefore(t, '}', c);
          forall k | p < k < p + 1 + c ensures s[k] != '}' { assert s[k] == t[k - p - 1]; }
          assert PatternAt(s, p, p + 1 + c);
        }
      }
    }
  }

  lemma NoCloseNoPattern(s: string, p: nat)
    requires p < |s| && s[p] == '{' && '}' !in s[p + 1..]
    requires forall k :: 0 <= k < p ==> s[k] != '{'
    ensures !HasBracePattern(s)
  {
    assert forall k :: p < k < |s| ==> s[k] != '}' by {
      forall k | p < k < |s| ensures s[k] != '}' { assert s[p + 1..][k - p - 1] == s[k]; }
    }
  }

  /** With `{}` at the first `{`, the patterns of the text are those after it. */
  lemma PatternShift(s: string, p: nat)
    requires p + 1 < |s| && s[p] == '{' && s[p + 1] == '}'
    requires forall k :: 0 <= k < p ==> s[k] != '{'
    ensures HasBracePattern(s) <==> HasBracePattern(s[p + 1..])
  {
    var t := s[p + 1..];
    if HasBracePattern(s) {
      var q, c :| 0 <= q < c < |s| && PatternAt(s, q, c);
      assert q >= p && s[q + 1] != '}';
      PatternAtShift(s, p + 1, q - p - 1, c - p - 1);
    }
    if HasBracePattern(t) {
      var q, c :| 0 <= q < c < |t| && PatternAt(t, q, c);
      PatternAtShift(s, p + 1, q, c);
    }
  }

  // ---------------------------------------------------------------- clauses and properties

  // `clause.split(/\s*=\s*/).map(val => val.trim())`
  function ClauseParts(clause: string): (parts: seq<string>)
    ensures |parts| >= 1
    ensures forall i :: 0 <= i < |parts| ==> NoEdgeSpace(parts[i])
  {
    var parts := TrimEach(SplitAround(clause, '='));
    parts
  }

  /** `argPrepared?.[1]?.trim()`: the second piece, when there is one. */
  function DefaultText(parts: seq<string>): Option<string> {
    if |parts| > 1 then Some(Trim(parts[1])) else None
  }

  /** The element the pre-pass pushes for one key of a pattern:
      `{name: argPrepared[0], ...typification(...)}`. */
  function PropOf(arg: string): (prop: Prop)
    ensures prop == PlainProp(arg)
  {
    var parts := ClauseParts(arg);
    var typed := Typifier.Typify(DefaultText(parts));
    ClauseReading(arg);
    Prop(parts[0], typed.tag, typed.default, typed.required)
  }

  /** The properties of one pattern group, one per comma-separated key, in
      key order. */
  function PatternProps(group: string): (props: seq<Prop>)
    ensures |props| == |SplitAround(group, ',')|
  {
    var args := TrimEach(SplitAround(group, ','));
    seq(|args|, i requires 0 <= i < |args| => PropOf(args[i]))
  }

  /** Two groups whose trimmed keys agree have the same properties. */
  lemma SameKeysSameProps(g1: string, g2: string)
    requires TrimEach(SplitAround(g1, ',')) == TrimEach(SplitAround(g2, ','))
    ensures PatternProps(g1) == PatternProps(g2)
  {
  }

  /** White space around a group's keys does not change its properties. */
  lemma PatternPropsOfTrimmed(s: string)
    ensures PatternProps(Trim(s)) == PatternProps(s)
  {
    SplitAroundTrimmed(s, ',');
    SplitAroundTrimmed(Trim(s), ',');
    SplitOfTrimmed(s, ',');
    SameKeysSameProps(Trim(s), s);
  }

  /** Taking the first group of a pattern with some key text leaves its
      properties as they are: only the white space after `{` goes. */
  lemma PatternGroupProps(inner: string)
    requires !AllSpace(inner)
    ensures PatternProps(PatternGroup(inner)) == PatternProps(inner)
  {
    var n := LeadingSpace(inner);
    var w, g := inner[..n], inner[n..];
    assert inner == w + g;
    assert AllSpace(w);
    SplitAroundTrimmed(inner, ',');
    SplitAroundTrimmed(g, ',');
    PaddedSplitTrimmed(w, g, ',');
    SameKeysSameProps(g, inner);
  }

  /** `props.map(val => val.name).join('')` */
  function Names(props: seq<Prop>): string {
    if props == [] then [] else props[0].name + Names(props[1..])
  }

  /** The text that takes the place of a pattern and the key it is remembered
      under: the lower-cased concatenation of its key names. */
  function Placeholder(span: Span): string {
    Lower(Names(PatternProps(PatternGroup(span.inner))))
  }

  /** The placeholder is the lower-cased joined key names. */
  lemma PlaceholderOf(span: Span, props: seq<Prop>, names: string)
    requires PatternProps(PatternGroup(span.inner)) == props && Names(props) == names
    ensures Placeholder(span) == Lower(names)
  {
  }

  function Placeholders(spans: seq<Span>): set<string> {
    if spans == [] then {} else {Placeholder(spans[0])} + Placeholders(spans[1..])
  }

  /** The parameter text after the pre-pass and the remembered patterns
      (`destructuredArgs`), by placeholder. */
  datatype Prepared = Prepared(text: string, groups: map<string, seq<Prop>>)

  /** The `forEach` over the matches (index.js:94-107): each pattern's first
      occurrence in the current text gives way to its placeholder, and the
      placeholder is remembered with the pattern's properties; a later
      pattern with the same placeholder overwrites an earlier one. */
  function ApplySpans(text: string, groups: map<string, seq<Prop>>, spans: seq<Span>): (r: Prepared)
    ensures r.groups.Keys == groups.Keys + Placeholders(spans)
    ensures forall k :: k in r.groups && k !in Placeholders(spans) ==> r.groups[k] == groups[k]
    decreases |spans|
  {
    if spans == [] then Prepared(text, groups)
    else
      var props := PatternProps(PatternGroup(spans[0].inner));
      var key := Placeholder(spans[0]);
      var r := ApplySpans(ReplaceFirst(text, spans[0].whole, key), groups[key := props], spans[1..]);
      GroupsStep(groups, key, props, spans, r);
      r
  }

  /** What one step of `ApplySpans` adds to the remembered placeholders. */
  lemma {:induction false} GroupsStep(groups: map<string, seq<Prop>>, key: string, props: seq<Prop>, spans: seq<Span>, r: Prepared)
    requires spans != [] && key == Placeholder(spans[0])
    requires r.groups.Keys == groups[key := props].Keys + Placeholders(spans[1..])
    requires forall k :: k in r.groups && k !in Placeholders(spans[1..]) ==> r.groups[k] == groups[key := props][k]
    ensures r.groups.Keys == groups.Keys + Placeholders(spans)
    ensures forall k :: k in r.groups && k !in Placeholders(spans) ==> r.groups[k] == groups[k]
  {
    assert Placeholders(spans) == {key} + Placeholders(spans[1..]);
  }

  /** The destructuring pre-pass (index.js:90-109); it only runs on a
      non-empty text. */
  function Prepass(params: string): (r: Prepared)
    ensures !HasBracePattern(params) ==> r == Prepared(params, map[])
    ensures r.groups.Keys == Placeholders(BraceSpans(params))
  {
    BraceSpansFound(params);
    if params == [] then Prepared(params, map[])
    else ApplySpans(params, map[], BraceSpans(params))
  }

  /** The first step of the `forEach`. */
  lemma ApplySpansStep(text: string, groups: map<string, seq<Prop>>, spans: seq<Span>)
    requires spans != []
    ensures var key := Placeholder(spans[0]);
            ApplySpans(text, groups, spans) ==
            ApplySpans(ReplaceFirst(text, spans[0].whole, key), groups[key := PatternProps(PatternGroup(spans[0].inner))], spans[1..])
  {
  }

  /** The pre-pass of a text with a single pattern. */
  lemma {:induction false} PrepassOneSpan(p: string, span: Span, key: string, props: seq<Prop>)
    requires p != [] && BraceSpans(p) == [span]
    requires Placeholder(span) == key && PatternProps(PatternGroup(span.inner)) == props
    ensures Prepass(p) == Prepared(ReplaceFirst(p, span.whole, key), map[key := props])
  {
    ApplySpansStep(p, map[], [span]);
    assert [span][1..] == [];
  }

  /** An entry whose name no pattern has as its placeholder is kept. */
  lemma {:induction false} ApplySpansKeeps(text: string, groups: map<string, seq<Prop>>, spans: seq<Span>, k: string)
    requires k in groups && forall m :: 0 <= m < |spans| ==> Placeholder(spans[m]) != k
    ensures k in ApplySpans(text, groups, spans).groups
    ensures ApplySpans(text, groups, spans).groups[k] == groups[k]
    decreases |spans|
  {
    if spans != [] {
      var key := Placeholder(spans[0]);
      var next := groups[key := PatternProps(PatternGroup(spans[0].inner))];
      var tail := spans[1..];
      assert key != k;
      NoneHasAfter(spans, k);
      ApplySpansKeeps(ReplaceFirst(text, spans[0].whole, key), next, tail, k);
      ApplySpansStep(text, groups, spans);
    }
  }

  /** What no pattern has as its placeholder, no later pattern has. */
  lemma NoneHasAfter(spans: seq<Span>, k: string)
    requires spans != [] && forall m :: 0 < m < |spans| ==> Placeholder(spans[m]) != k
    ensures forall m :: 0 <= m < |spans| - 1 ==> Placeholder(spans[1..][m]) != k
  {
    forall m | 0 <= m < |spans| - 1 ensures Placeholder(spans[1..][m]) != k {
      assert spans[1..][m] == spans[m + 1];
    }
  }

  /** No later pattern has the placeholder of pattern `j`. */
  predicate LastWith(spans: seq<Span>, j: int)
    requires 0 <= j < |spans|
  {
    forall m :: j < m < |spans| ==> Placeholder(spans[m]) != Placeholder(spans[j])
  }

  /** Under each placeholder the pre-pass remembers the properties of the
      last pattern that has it. */
  lemma {:induction false} ApplySpansRemembers(text: string, groups: map<string, seq<Prop>>, spans: seq<Span>, j: nat)
    requires j < |spans| && LastWith(spans, j)
    ensures Placeholder(spans[j]) in ApplySpans(text, groups, spans).groups
    ensures ApplySpans(text, groups, spans).groups[Placeholder(spans[j])] == PatternProps(PatternGroup(spans[j].inner))
    decreases |spans|
  {
    if j == 0 {
      RemembersFirst(text, groups, spans);
    } else {
      var key := Placeholder(spans[0]);
      var next := groups[key := PatternProps(PatternGroup(spans[0].inner))];
      var tail := spans[1..];
      var i: nat := j - 1;
      assert tail[i] == spans[j];
      assert LastWith(tail, i) by {
        forall m | i < m < |tail| ensures Placeholder(tail[m]) != Placeholder(tail[i]) {
          assert tail[m] == spans[m + 1];
        }
      }
      ApplySpansRemembers(ReplaceFirst(text, spans[0].whole, key), next, tail, i);
      assert ApplySpans(text, groups, spans) == ApplySpans(ReplaceFirst(text, spans[0].whole, key), next, tail);
    }
  }

  /** A first pattern whose placeholder no later pattern shares keeps its
      properties to the end. */
  lemma RemembersFirst(text: string, groups: map<string, seq<Prop>>, spans: seq<Span>)
    requires spans != [] && LastWith(spans, 0)
    ensures Placeholder(spans[0]) in ApplySpans(text, groups, spans).groups
    ensures ApplySpans(text, groups, spans).groups[Placeholder(spans[0])] == PatternProps(PatternGroup(spans[0].inner))
  {
    var key := Placeholder(spans[0]);
    var next := groups[key := PatternProps(PatternGroup(spans[0].inner))];
    var tail := spans[1..];
    NoneHasAfter(spans, key);
    ApplySpansKeeps(ReplaceFirst(text, spans[0].whole, key), next, tail, key);
    assert ApplySpans(text, groups, spans) == ApplySpans(ReplaceFirst(text, spans[0].whole, key), next, tail);
  }

  /** The pre-pass remembers, under the placeholder of each pattern that no
      later pattern shares, that pattern's properties. */
  lemma PrepassRemembers(params: string, j: nat)
    requires params != [] && j < |BraceSpans(params)| && LastWith(BraceSpans(params), j)
    ensures Placeholder(BraceSpans(params)[j]) in Prepass(params).groups
    ensures var span := BraceSpans(params)[j];
            Prepass(params).groups[Placeholder(span)] == PatternProps(PatternGroup(span.inner))
  {
    ApplySpansRemembers(params, map[], BraceSpans(params), j);
  }

  /** What is remembered does not depend on the text being rewritten. */
  lemma {:induction false} GroupsIgnoreText(a: string, b: string, groups: map<string, seq<Prop>>, spans: seq<Span>)
    ensures ApplySpans(a, groups, spans).groups == ApplySpans(b, groups, spans).groups
    decreases |spans|
  {
    if spans != [] {
      var key := Placeholder(spans[0]);
      var next := groups[key := PatternProps(PatternGroup(spans[0].inner))];
      GroupsIgnoreText(ReplaceFirst(a, spans[0].whole, key), ReplaceFirst(b, spans[0].whole, key), next, spans[1..]);
    }
  }

  // ---------------------------------------------------------------- descriptors

  predicate AnyRequired(props: seq<Prop>) {
    exists i :: 0 <= i < |props| && props[i].required
  }

  /** What every descriptor the extractor returns satisfies. */
  predicate WellFormed(d: Descriptor) {
    && (d.destructured <==> d.properties.Some?)
    && (!d.destructured ==> d.default.Some?)
    && (d.destructured ==>
          && d.tag == Object
          && d.name == Names(d.properties.value)
          && (d.default.Some? ==> Truthy(d.default.value))
          && (d.required <==> AnyRequired(d.properties.value) && d.default.None?))
  }

  /** One clause of the main split (index.js:114-136). When its name is a
      remembered placeholder the descriptor is the pattern's: type `object`,
      the key names as name, the default only when truthy, and required when
      a property is required and no truthy default is given. */
  function Describe(clause: string, groups: map<string, seq<Prop>>): (d: Descriptor)
    ensures WellFormed(d)
    ensures d.destructured <==> ClauseParts(clause)[0] in groups
    ensures d.destructured ==> d.properties.value == groups[ClauseParts(clause)[0]]
    ensures !d.destructured ==> d.name == ClauseParts(clause)[0]
    ensures var t := Typifier.Typify(DefaultText(ClauseParts(clause)));
            && (d.destructured ==> d.default == if Truthy(t.default) then Some(t.default) else None)
            && (!d.destructured ==> d.tag == t.tag && d.default == Some(t.default) && d.required == t.required)
  {
    var parts := ClauseParts(clause);
    var typed := Typifier.Typify(DefaultText(parts));
    var name := parts[0];
    if name in groups then
      var props := groups[name];
      var given := Truthy(typed.default);
      Descriptor(Names(props), Object, if given then Some(typed.default) else None,
                 AnyRequired(props) && !given, true, Some(props))
    else
      Descriptor(name, typed.tag, Some(typed.default), typed.required, false, None)
  }

  /** The descriptor of a clause whose name is a remembered placeholder, by
      the reference reading: the joined key names, type `object`, the default
      only when it is truthy, and required exactly when some key is required
      and no default is kept. */
  function DestructuredReading(props: seq<Prop>, typed: Typed): Descriptor {
    var kept := Truthy(typed.default);
    Descriptor(Names(props), Object, if kept then Some(typed.default) else None,
               AnyRequired(props) && !kept, true, Some(props))
  }

  /** A clause is described as its reference reading says: destructured when
      its name is remembered, plain otherwise. */
  lemma DescribeReads(clause: string, groups: map<string, seq<Prop>>)
    ensures Reading(clause).0 in groups ==>
              Describe(clause, groups) == DestructuredReading(groups[Reading(clause).0], Reading(clause).1)
    ensures Reading(clause).0 !in groups ==> Describe(clause, groups) == Plain(clause)
  {
    ClausePartsRead(clause);
  }

  /** A truthy default after a pattern, such as `= {}`, is kept, and the
      parameter is then not required, whatever its keys require. */
  lemma ObjectDefaultKept(name: string, value: string, groups: map<string, seq<Prop>>)
    requires name in groups && NoEdgeSpace(name) && '=' !in name
    requires value != [] && value[0] == '{' && NoEdgeSpace(value) && '=' !in value
    ensures Describe(name + " = " + value, groups) ==
              Descriptor(Names(groups[name]), Object, Some(EmptyObject), false, true, Some(groups[name]))
  {
    var clause := name + " = " + value;
    var typed := Typed(Object, EmptyObject, false);
    ObjectDefaultReading(name, value);
    assert Reading(clause) == (name, typed);
    DescribeReads(clause, groups);
    assert Describe(clause, groups) == DestructuredReading(groups[name], typed);
    assert Truthy(typed.default);
    assert DestructuredReading(groups[name], typed) ==
             Descriptor(Names(groups[name]), Object, Some(EmptyObject), false, true, Some(groups[name]));
  }

  lemma ObjectDefaultReading(name: string, value: string)
    requires NoEdgeSpace(name) && '=' !in name
    requires value != [] && value[0] == '{' && NoEdgeSpace(value) && '=' !in value
    ensures Reading(name + " = " + value) == (name, Typed(Object, EmptyObject, false))
  {
    AssignmentPieces(name, value);
    ObjectValue(value);
  }

  lemma ObjectValue(value: string)
    requires value != [] && value[0] == '{'
    ensures Typifier.Typify(Some(value)) == Typed(Object, EmptyObject, false)
  {
    assert value == "{" + value[1..];
    Typifier.ContainerDefaults(value[1..]);
  }

  /** `name = value` splits on its one `=` into the name and the value. */
  lemma AssignmentPieces(name: string, value: string)
    requires NoEdgeSpace(name) && '=' !in name && NoEdgeSpace(value) && '=' !in value
    ensures TrimEach(SplitOn(name + " = " + value, '=')) == [name, value]
  {
    AssignmentSplit(name, value);
    SpacePaddedTrim(name, value);
  }

  lemma AssignmentSplit(name: string, value: string)
    requires '=' !in name && '=' !in value
    ensures SplitOn(name + " = " + value, '=') == [name + " ", " " + value]
  {
    assert name + " = " + value == (name + " ") + ['='] + (" " + value);
    SplitOnTwo(name + " ", " " + value, '=');
  }

  lemma SpacePaddedTrim(name: string, value: string)
    requires NoEdgeSpace(name) && NoEdgeSpace(value)
    ensures Trim(name + " ") == name && Trim(" " + value) == value
  {
    assert AllSpace(" ");
    TrimOfPadded([], name, " ");
    TrimOfPadded(" ", value, []);
    assert [] + name + " " == name + " " && " " + value + [] == " " + value;
    TrimNoEdge(name);
    TrimNoEdge(value);
  }

  // The clauses of the prepared text: `split(/\s*,\s*/)`.
  function Clauses(prepared: Prepared): (r: seq<string>)
    ensures |r| == multiset(prepared.text)[','] + 1
  {
    SplitAroundCount(prepared.text, ',');
    SplitAround(prepared.text, ',')
  }

  /** One descriptor per clause, in order (the `forEach` of index.js:114-136). */
  function DescribeEach(clauses: seq<string>, groups: map<string, seq<Prop>>): (r: seq<Descriptor>)
    ensures |r| == |clauses|
    ensures forall i :: 0 <= i < |clauses| ==> r[i] == Describe(clauses[i], groups)
  {
    seq(|clauses|, i requires 0 <= i < |clauses| => Describe(clauses[i], groups))
  }

  /** The first descriptor, then the descriptors of the other clauses. */
  lemma {:induction false} DescribeEachCons(clauses: seq<string>, groups: map<string, seq<Prop>>)
    requires clauses != []
    ensures DescribeEach(clauses, groups) == [Describe(clauses[0], groups)] + DescribeEach(clauses[1..], groups)
  {
    var r := DescribeEach(clauses, groups);
    var t := DescribeEach(clauses[1..], groups);
    forall i | 0 <= i < |t| ensures r[i + 1] == t[i] {
      assert clauses[1..][i] == clauses[i + 1];
    }
    FirstThenRest(r, t);
  }

  lemma FirstThenRest<T>(r: seq<T>, t: seq<T>)
    requires |r| == 1 + |t| && forall i :: 0 <= i < |t| ==> r[i + 1] == t[i]
    ensures r == [r[0]] + t
  {
    assert forall i :: 0 < i < |r| ==> r[i] == t[i - 1];
  }

  /** The exported function, with a lookup that only sees remembered
      placeholders (the published code also sees inherited members of a plain
      object; see `AsWritten`). */
  function Extract(input: Input): (r: seq<Descriptor>)
    ensures input.NotFunction? ==> r == []
    ensures input.Function? && ParamText(Normalize(input.source)).None? ==> r == []
    ensures forall i :: 0 <= i < |r| ==> WellFormed(r[i])
  {
    match input
    case NotFunction => []
    case Function(source) =>
      match ParamText(Normalize(source))
      case None => []
      case Some(p) =>
        var prepared := Prepass(PrepareParams(p));
        DescribeEach(Clauses(prepared), prepared.groups)
  }

  /** A name that needs no further splitting: no white space, no
      parentheses, braces, commas or `=`. */
  predicate SimpleName(name: string) {
    name != [] && forall c :: c in name ==> !IsSpace(c) && c !in "(){},="
  }

  /** The extractor once the parameter text and the pre-pass are known. */
  /** `(p) => 0` has the parameter text `p`. */
  lemma ArrowSourceParams(source: string, p: string)
    requires source == "(" + p + ")" + " => 0" && p != [] && ')' !in p
    ensures ParamText(source) == Some(p)
  {
    assert source == [] + "(" + p + ")" + " => 0";
    ParenthesisedParams([], p, " => 0");
  }

  lemma ExtractThrough(source: string, p: string, prepared: Prepared)
    requires ParamText(Normalize(source)) == Some(p) && Prepass(PrepareParams(p)) == prepared
    ensures Extract(Function(source)) == DescribeEach(Clauses(prepared), prepared.groups)
  {
  }

  /** A simple name has no white space at its ends. */
  lemma SimpleNameEdges(name: string)
    requires SimpleName(name)
    ensures NoEdgeSpace(name) && !IsSpace(name[0]) && !IsSpace(name[|name| - 1])
  {
    assert name[0] in name && name[|name| - 1] in name;
  }

  /** Lower-casing keeps a name simple. */
  lemma LowerSimple(name: string)
    requires SimpleName(name)
    ensures SimpleName(Lower(name))
  {
    forall c | c in Lower(name) ensures !IsSpace(c) && c !in "(){},=" {
      var i :| 0 <= i < |name| && Lower(name)[i] == c;
      assert name[i] in name;
    }
  }

  /** A clause without `,` or `=` and without white space at its ends is a
      single clause whose name is the clause itself, with no default text. */
  lemma OneClause(c: string)
    requires NoEdgeSpace(c) && ',' !in c && '=' !in c
    ensures SplitAround(c, ',') == [c]
    ensures ClauseParts(c) == [c]
    ensures DefaultText(ClauseParts(c)) == None
  {
    SplitAroundWithout(c, ',');
    SplitAroundWithout(c, '=');
    TrimNoEdge(c);
  }

  /** A pattern holding one key without a default: one match, with the key as
      its group and one required property of type `any`. */
  lemma SingleKeyPattern(key: string)
    requires key != [] && !IsSpace(key[0]) && NoEdgeSpace(key)
    requires '{' !in key && '}' !in key && ',' !in key && '=' !in key
    ensures BraceSpans("{" + key + "}") == [Span("{" + key + "}", key)]
    ensures PatternGroup(key) == key
    ensures PatternProps(key) == [Prop(key, Any, Undefined, true)]
  {
    SingleKeySpan(key);
    GroupWithoutLeadingSpace(key);
    SingleKeyProps(key);
  }

  /** Such a key without capitals is its own placeholder. */
  lemma SingleKeyPlaceholder(key: string)
    requires key != [] && !IsSpace(key[0]) && NoEdgeSpace(key)
    requires '{' !in key && '}' !in key && ',' !in key && '=' !in key
    requires forall c :: c in key ==> !('A' <= c <= 'Z')
    ensures BraceSpans("{" + key + "}") == [Span("{" + key + "}", key)]
    ensures PatternGroup(key) == key
    ensures PatternProps(key) == [Prop(key, Any, Undefined, true)]
    ensures Placeholder(Span("{" + key + "}", key)) == key
  {
    SingleKeyPattern(key);
    KeyIsPlaceholder(Span("{" + key + "}", key), key);
  }

  lemma KeyIsPlaceholder(span: Span, key: string)
    requires span.inner == key && PatternGroup(key) == key
    requires PatternProps(key) == [Prop(key, Any, Undefined, true)]
    requires forall c :: c in key ==> !('A' <= c <= 'Z')
    ensures Placeholder(span) == key
  {
    OneName(Prop(key, Any, Undefined, true));
    PlaceholderOf(span, [Prop(key, Any, Undefined, true)], key);
    LowerUnchanged(key);
  }

  lemma OneName(prop: Prop)
    ensures Names([prop]) == prop.name
  {
    assert [prop][1..] == [];
  }

  lemma SingleKeySpan(key: string)
    requires key != [] && '{' !in key && '}' !in key
    ensures BraceSpans("{" + key + "}") == [Span("{" + key + "}", key)]
  {
    var s := "{" + key + "}";
    assert s[1..|key| + 1] == key;
    BracedKey(s, key);
  }

  /** A text that is `{`, a key and `}` is exactly one match of that key. */
  lemma {:induction false} BracedKey(s: string, key: string)
    requires key != [] && '{' !in key && '}' !in key
    requires |s| == |key| + 2 && s[0] == '{' && s[1..|key| + 1] == key && s[|key| + 1] == '}'
    ensures BraceSpans(s) == [Span(s, key)]
  {
    var t := s[1..];
    var c := |key|;
    assert s[0] == '{';
    assert IndexOfChar(s, '{') == 0;
    assert t[..c] == key && t[c] == '}';
    IndexOfCharUnique(t, '}', c);
    assert t[c + 1..] == [] && s[0..c + 2] == s;
  }

  /** Without white space at its start the key text is its own group. */
  lemma GroupWithoutLeadingSpace(inner: string)
    requires inner != [] && !IsSpace(inner[0])
    ensures PatternGroup(inner) == inner
  {
    assert !AllSpace(inner);
    assert LeadingSpace(inner) == 0;
  }

  lemma SingleKeyProps(key: string)
    requires NoEdgeSpace(key) && ',' !in key && '=' !in key
    ensures PatternProps(key) == [Prop(key, Any, Undefined, true)]
  {
    OneClause(key);
  }

  // ---------------------------------------------------------------- reference readings

  /** The reference reading of a clause: split on every `=`, trim each
      piece, take the first piece as the name and the second, when present,
      as the default text. */
  function Reading(clause: string): (string, Typed) {
    var parts := TrimEach(SplitOn(clause, '='));
    (parts[0], Typifier.Typify(if |parts| > 1 then Some(parts[1]) else None))
  }

  /** A clause with no pattern behind its name: a plain descriptor. */
  function Plain(clause: string): Descriptor {
    var (name, typed) := Reading(clause);
    Descriptor(name, typed.tag, Some(typed.default), typed.required, false, None)
  }

  /** A key of a pattern. */
  function PlainProp(arg: string): Prop {
    var (name, typed) := Reading(arg);
    Prop(name, typed.tag, typed.default, typed.required)
  }

  /** The regular-expression split and the second `trim` change nothing: a
      clause reads as the reference reading says, and white space around it
      does not matter. */
  lemma ClauseReading(clause: string)
    ensures ClauseParts(clause)[0] == Reading(clause).0
    ensures Typifier.Typify(DefaultText(ClauseParts(clause))) == Reading(clause).1
    ensures Reading(Trim(clause)) == Reading(clause)
  {
    ClausePartsRead(clause);
    ReadingOfTrimmed(clause);
  }

  lemma ClausePartsRead(clause: string)
    ensures ClauseParts(clause)[0] == Reading(clause).0
    ensures Typifier.Typify(DefaultText(ClauseParts(clause))) == Reading(clause).1
  {
    var pieces := TrimEach(SplitOn(clause, '='));
    SplitAroundTrimmed(clause, '=');
    assert ClauseParts(clause) == pieces;
    if |pieces| > 1 {
      TrimIdempotent(SplitOn(clause, '=')[1]);
      assert DefaultText(pieces) == Some(pieces[1]);
    }
  }

  lemma ReadingOfTrimmed(clause: string)
    ensures Reading(Trim(clause)) == Reading(clause)
  {
    SplitOfTrimmed(clause, '=');
  }

  /** Pieces whose trimmed forms agree read alike. */
  lemma ReadingsAgree(xs: seq<string>, ys: seq<string>, i: nat)
    requires TrimEach(xs) == TrimEach(ys) && i < |xs|
    ensures Reading(xs[i]) == Reading(ys[i])
  {
    assert Trim(xs[i]) == TrimEach(xs)[i] == TrimEach(ys)[i] == Trim(ys[i]);
    ClauseReading(xs[i]);
    ClauseReading(ys[i]);
  }

  /** The properties of a pattern are its comma-separated keys, in key order,
      each read by the reference reading. */
  lemma PatternPropsInOrder(group: string)
    ensures |PatternProps(group)| == |SplitOn(group, ',')|
    ensures forall i :: 0 <= i < |SplitOn(group, ',')| ==> PatternProps(group)[i] == PlainProp(SplitOn(group, ',')[i])
  {
    var around := SplitAround(group, ',');
    var plain := SplitOn(group, ',');
    var args := TrimEach(around);
    SplitAroundCount(group, ',');
    SplitAroundTrimmed(group, ',');
    forall i | 0 <= i < |plain| ensures PatternProps(group)[i] == PlainProp(plain[i]) {
      ClauseReading(args[i]);
      ReadingsAgree(around, plain, i);
      ClauseReading(around[i]);
    }
  }

  /** Without a `{` nothing is destructured: the result is one plain
      descriptor per comma-separated clause, in left-to-right order. */
  lemma PlainParameterList(source: string, p: string)
    requires ParamText(Normalize(source)) == Some(p)
    requires '{' !in PrepareParams(p)
    ensures |Extract(Function(source))| == |SplitOn(PrepareParams(p), ',')|
    ensures forall i :: 0 <= i < |SplitOn(PrepareParams(p), ',')| ==>
              Extract(Function(source))[i] == Plain(SplitOn(PrepareParams(p), ',')[i])
  {
    var q := PrepareParams(p);
    PrepassOfPlain(q);
    ExtractThrough(source, p, Prepared(q, map[]));
    PlainClauses(q);
  }

  lemma PrepassOfPlain(q: string)
    requires '{' !in q
    ensures Prepass(q) == Prepared(q, map[])
  {
    assert !HasBracePattern(q) by {
      assert forall k :: 0 <= k < |q| ==> q[k] in q;
    }
  }

  /** A clause that names no pattern reads as its plain reference reading. */
  lemma DescribePlain(clause: string)
    ensures Describe(clause, map[]) == Plain(clause)
  {
    ClauseReading(clause);
  }

  /** The clauses of a text, described without patterns, are the plain
      readings of its comma-separated pieces. */
  lemma {:induction false} PlainClauses(q: string)
    ensures |DescribeEach(Clauses(Prepared(q, map[])), map[])| == |SplitOn(q, ',')|
    ensures forall i :: 0 <= i < |SplitOn(q, ',')| ==>
              DescribeEach(Clauses(Prepared(q, map[])), map[])[i] == Plain(SplitOn(q, ',')[i])
  {
    var around := SplitAround(q, ',');
    var plain := SplitOn(q, ',');
    SplitAroundCount(q, ',');
    SplitAroundTrimmed(q, ',');
    var r := DescribeEach(around, map[]);
    forall i | 0 <= i < |plain| ensures r[i] == Plain(plain[i]) {
      DescribePlain(around[i]);
      ReadingsAgree(around, plain, i);
    }
  }

  /** Line breaks and runs of white space in the source never matter. */
  lemma ExtractIgnoresLayout(source: string)
    ensures Extract(Function(Normalize(source))) == Extract(Function(source))
  {
    NormalizeIdempotent(source);
  }
}
