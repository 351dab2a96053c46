/** The JavaScript string operations index.js uses, written out as functions over
    `string`. The source uses regular expressions for them; each one is restated
    here as an explicit scan. */
module JsText {

  import opened Options

  /** Characters matched by `\s`. `String.prototype.trim` removes the same set:
      WhiteSpace plus LineTerminator. */
  predicate IsSpace(c: char) {
    || c == '\t' || c == '\n' || c == '\U{000B}' || c == '\U{000C}' || c == '\r'
    || c == ' ' || c == '\U{00A0}' || c == '\U{1680}'
    || ('\U{2000}' <= c <= '\U{200A}')
    || c == '\U{2028}' || c == '\U{2029}' || c == '\U{202F}' || c == '\U{205F}'
    || c == '\U{3000}' || c == '\U{FEFF}'
  }

  /** `[\r\n]` */
  predicate IsLineBreak(c: char) {
    c == '\r' || c == '\n'
  }

  /** `\w` (no `u` flag). */
  predicate IsWordChar(c: char) {
    ('a' <= c <= 'z') || ('A' <= c <= 'Z') || ('0' <= c <= '9') || c == '_'
  }

  predicate IsDigit(c: char) {
    '0' <= c <= '9'
  }

  predicate AllSpace(s: string) {
    forall i :: 0 <= i < |s| ==> IsSpace(s[i])
  }

  /** Neither end of `s` is white space. */
  predicate NoEdgeSpace(s: string) {
    s == [] || (!IsSpace(s[0]) && !IsSpace(s[|s| - 1]))
  }

  /** `toLowerCase` on one character, restricted to ASCII letters. */
  function LowerChar(c: char): char {
    if 'A' <= c <= 'Z' then (c as int + 32) as char else c
  }

  function Lower(s: string): string {
    seq(|s|, i requires 0 <= i < |s| => LowerChar(s[i]))
  }

  /** Lower-casing leaves a text without capital letters alone. */
  lemma LowerUnchanged(s: string)
    requires forall c :: c in s ==> !('A' <= c <= 'Z')
    ensures Lower(s) == s
  {
    assert forall i :: 0 <= i < |s| ==> s[i] in s;
  }

  /** The characters of `s` that `keep` accepts, in order. */
  function Filter(s: string, keep: char -> bool): (r: string)
    ensures |r| <= |s|
    ensures forall c :: c in r <==> c in s && keep(c)
  {
    if s == [] then []
    else if keep(s[0]) then [s[0]] + Filter(s[1..], keep)
    else Filter(s[1..], keep)
  }

  lemma {:induction false} FilterAppend(a: string, b: string, keep: char -> bool)
    ensures Filter(a + b, keep) == Filter(a, keep) + Filter(b, keep)
    decreases |a|
  {
    if a != [] {
      assert (a + b)[0] == a[0];
      assert (a + b)[1..] == a[1..] + b;
      FilterAppend(a[1..], b, keep);
    } else {
      assert a + b == b;
    }
  }

  /** Filtering keeps every kept character as often as it occurs. */
  lemma {:induction false} FilterCounts(s: string, keep: char -> bool)
    ensures forall c :: keep(c) ==> multiset(Filter(s, keep))[c] == multiset(s)[c]
    decreases |s|
  {
    if s != [] {
      FilterCounts(s[1..], keep);
      assert s == [s[0]] + s[1..];
    }
  }

  // ---------------------------------------------------------------- trimming

  /** Length of the white-space run at the start of `s`. */
  function LeadingSpace(s: string): (n: nat)
    ensures n <= |s|
    ensures forall k :: 0 <= k < n ==> IsSpace(s[k])
    ensures n == |s| || !IsSpace(s[n])
    decreases |s|
  {
    if s != [] && IsSpace(s[0]) then 1 + LeadingSpace(s[1..]) else 0
  }

  /** Length of the white-space run at the end of `s`. */
  function TrailingSpace(s: string): (n: nat)
    ensures n <= |s|
    ensures forall k :: |s| - n <= k < |s| ==> IsSpace(s[k])
    ensures n == |s| || !IsSpace(s[|s| - n - 1])
    decreases |s|
  {
    if s != [] && IsSpace(s[|s| - 1]) then 1 + TrailingSpace(s[..|s| - 1]) else 0
  }

  function TrimStart(s: string): (r: string)
    ensures |r| <= |s|
    ensures r == [] || !IsSpace(r[0])
    decreases |s|
  {
    if s != [] && IsSpace(s[0]) then TrimStart(s[1..]) else s
  }

  function TrimEnd(s: string): (r: string)
    ensures |r| <= |s|
    ensures r == [] || !IsSpace(r[|r| - 1])
    ensures s != [] && !IsSpace(s[0]) ==> r != [] && r[0] == s[0]
    decreases |s|
  {
    if s != [] && IsSpace(s[|s| - 1]) then TrimEnd(s[..|s| - 1]) else s
  }

  /** `String.prototype.trim`. */
  function Trim(s: string): (r: string)
    ensures NoEdgeSpace(r)
    ensures |r| <= |s|
  {
    TrimEnd(TrimStart(s))
  }

  function TrimEach(xs: seq<string>): (r: seq<string>)
    ensures |r| == |xs|
    ensures forall i :: 0 <= i < |xs| ==> r[i] == Trim(xs[i])
  {
    seq(|xs|, i requires 0 <= i < |xs| => Trim(xs[i]))
  }

  lemma {:induction false} TrimStartPadded(w: string, t: string)
    requires AllSpace(w)
    ensures TrimStart(w + t) == TrimStart(t)
    decreases |w|
  {
    if w != [] {
      assert (w + t)[0] == w[0];
      assert (w + t)[1..] == w[1..] + t;
      assert AllSpace(w[1..]) by {
        forall k | 0 <= k < |w| - 1 ensures IsSpace(w[1..][k]) {
          assert w[1..][k] == w[k + 1];
        }
      }
      TrimStartPadded(w[1..], t);
    } else {
      assert w + t == t;
    }
  }

  lemma {:induction false} TrimEndPadded(t: string, w: string)
    requires AllSpace(w)
    ensures TrimEnd(t + w) == TrimEnd(t)
    decreases |w|
  {
    if w != [] {
      assert (t + w)[|t + w| - 1] == w[|w| - 1];
      assert (t + w)[..|t + w| - 1] == t + w[..|w| - 1];
      var w' := w[..|w| - 1];
      assert AllSpace(w') by {
        forall k | 0 <= k < |w'| ensures IsSpace(w'[k]) {
          assert w'[k] == w[k];
        }
      }
      TrimEndPadded(t, w');
    } else {
      assert t + w == t;
    }
  }

  lemma {:induction false} TrimSpaceSuffix(t: string, w: string)
    requires AllSpace(w)
    ensures TrimEnd(TrimStart(t + w)) == TrimEnd(TrimStart(t))
    decreases |t|
  {
    if t == [] {
      assert TrimStart(w) == [] by {
        TrimStartPadded(w, []);
        assert w + [] == w;
      }
      assert t + w == w;
    } else if IsSpace(t[0]) {
      assert (t + w)[1..] == t[1..] + w;
      TrimSpaceSuffix(t[1..], w);
    } else {
      TrimEndPadded(t, w);
    }
  }

  /** White space around a text never reaches through `trim`. */
  lemma TrimOfPadded(w1: string, t: string, w2: string)
    requires AllSpace(w1) && AllSpace(w2)
    ensures Trim(w1 + t + w2) == Trim(t)
  {
    assert w1 + t + w2 == w1 + (t + w2);
    TrimStartPadded(w1, t + w2);
    TrimSpaceSuffix(t, w2);
  }

  lemma {:induction false} TrimStartOfTrimmed(s: string)
    requires s == [] || !IsSpace(s[0])
    ensures TrimStart(s) == s
  {
  }

  lemma TrimEndOfTrimmed(s: string)
    requires s == [] || !IsSpace(s[|s| - 1])
    ensures TrimEnd(s) == s
  {
  }

  /** A text with no white space at either end is its own trim. */
  lemma TrimNoEdge(s: string)
    requires NoEdgeSpace(s)
    ensures Trim(s) == s
  {
    TrimStartOfTrimmed(s);
    TrimEndOfTrimmed(s);
  }

  /** `trim` is idempotent. */
  lemma TrimIdempotent(s: string)
    ensures Trim(Trim(s)) == Trim(s)
  {
    var t := Trim(s);
    TrimStartOfTrimmed(t);
    TrimEndOfTrimmed(t);
  }

  // ---------------------------------------------------------------- searching

  function IndexOfChar(s: string, c: char): (i: nat)
    requires c in s
    ensures i < |s| && s[i] == c
    ensures c !in s[..i]
    decreases |s|
  {
    if s[0] == c then 0
    else
      var j := IndexOfChar(s[1..], c);
      assert s[..j + 1] == [s[0]] + s[1..][..j];
      1 + j
  }

  lemma NotBefore(s: string, c: char, i: nat)
    requires i <= |s| && c !in s[..i]
    ensures forall k :: 0 <= k < i ==> s[k] != c
  {
    forall k | 0 <= k < i ensures s[k] != c { assert s[..i][k] == s[k]; }
  }

  /** The first-index characterisation pins `IndexOfChar` down. */
  lemma IndexOfCharUnique(s: string, c: char, i: nat)
    requires i < |s| && s[i] == c && c !in s[..i]
    ensures IndexOfChar(s, c) == i
  {
    var j := IndexOfChar(s, c);
    assert forall k :: 0 <= k < i ==> s[k] != c by {
      forall k | 0 <= k < i ensures s[k] != c { assert s[..i][k] == s[k]; }
    }
    assert forall k :: 0 <= k < j ==> s[k] != c by {
      forall k | 0 <= k < j ensures s[k] != c { assert s[..j][k] == s[k]; }
    }
  }

  predicate OccursAt(s: string, pat: string, i: nat) {
    i + |pat| <= |s| && s[i..i + |pat|] == pat
  }

  /** `s.indexOf(pat, from)`, with the missing index as `None`. */
  function IndexOfFrom(s: string, pat: string, from: nat): (r: Option<nat>)
    requires from <= |s|
    ensures r.Some? ==> from <= r.value && OccursAt(s, pat, r.value)
    ensures r.Some? ==> forall j :: from <= j < r.value ==> !OccursAt(s, pat, j)
    ensures r.None? ==> forall j :: from <= j <= |s| ==> !OccursAt(s, pat, j)
    decreases |s| - from
  {
    if OccursAt(s, pat, from) then Some(from)
    else if from == |s| then None
    else IndexOfFrom(s, pat, from + 1)
  }

  function IndexOf(s: string, pat: string): Option<nat> {
    IndexOfFrom(s, pat, 0)
  }

  // ---------------------------------------------------------------- replacing

  /** The replacement text of `String.prototype.replace` with a string pattern
      (GetSubstitution without captures): `$$` is a dollar sign, `$&` the
      matched text, `` $` `` the text before the match and `$'` the text after
      it; every other character, including any other `$`, is copied. */
  function Expand(rep: string, matched: string, before: string, after: string): string
    decreases |rep|
  {
    if rep == [] then []
    else if |rep| >= 2 && rep[0] == '$' && rep[1] == '$' then "$" + Expand(rep[2..], matched, before, after)
    else if |rep| >= 2 && rep[0] == '$' && rep[1] == '&' then matched + Expand(rep[2..], matched, before, after)
    else if |rep| >= 2 && rep[0] == '$' && rep[1] == '`' then before + Expand(rep[2..], matched, before, after)
    else if |rep| >= 2 && rep[0] == '$' && rep[1] == '\'' then after + Expand(rep[2..], matched, before, after)
    else [rep[0]] + Expand(rep[1..], matched, before, after)
  }

  /** Without a dollar sign the replacement text is inserted as it is. */
  lemma {:induction false} ExpandWithoutDollar(rep: string, matched: string, before: string, after: string)
    requires '$' !in rep
    ensures Expand(rep, matched, before, after) == rep
    decreases |rep|
  {
    if rep != [] {
      assert rep == [rep[0]] + rep[1..];
      ExpandWithoutDollar(rep[1..], matched, before, after);
    }
  }

  /** `s.replace(pat, rep)` with a string pattern: the first occurrence of `pat`
      is replaced by the expansion of `rep`; without an occurrence `s` is
      returned unchanged. */
  function Replace(s: string, pat: string, rep: string): (r: string)
    ensures IndexOf(s, pat).None? ==> r == s
  {
    match IndexOf(s, pat)
    case None => s
    case Some(i) =>
      s[..i] + Expand(rep, pat, s[..i], s[i + |pat|..]) + s[i + |pat|..]
  }

  /** `s.replace(pat, () => rep)`: the first occurrence of `pat` is replaced by
      `rep` as it is written. */
  function ReplaceFirst(s: string, pat: string, rep: string): (r: string)
    ensures IndexOf(s, pat).None? ==> r == s
    ensures IndexOf(s, pat).Some? ==> |r| == |s| - |pat| + |rep|
  {
    match IndexOf(s, pat)
    case None => s
    case Some(i) => s[..i] + rep + s[i + |pat|..]
  }

  /** Replacing a whole text by `rep` leaves `rep`, expanded when the
      replacement patterns are read. */
  lemma ReplaceWhole(s: string, rep: string)
    ensures ReplaceFirst(s, s, rep) == rep
    ensures Replace(s, s, rep) == Expand(rep, s, [], [])
  {
    assert OccursAt(s, s, 0);
    assert IndexOf(s, s) == Some(0);
    assert s[..0] == [] && s[|s|..] == [];
  }

  /** Without a dollar sign the two replacements agree. */
  lemma ReplaceWithoutDollar(s: string, pat: string, rep: string)
    requires '$' !in rep
    ensures Replace(s, pat, rep) == ReplaceFirst(s, pat, rep)
  {
    match IndexOf(s, pat)
    case None =>
    case Some(i) =>
      ExpandWithoutDollar(rep, pat, s[..i], s[i + |pat|..]);
      assert Replace(s, pat, rep) == s[..i] + rep + s[i + |pat|..];
  }

  /** A dollar-free replacement takes exactly the place of the first
      occurrence, and the text around it is kept. */
  lemma ReplaceLiterally(s: string, pat: string, rep: string, i: nat)
    requires '$' !in rep
    requires OccursAt(s, pat, i)
    requires forall j :: 0 <= j < i ==> !OccursAt(s, pat, j)
    ensures Replace(s, pat, rep) == s[..i] + rep + s[i + |pat|..]
  {
    assert IndexOf(s, pat) == Some(i);
    ExpandWithoutDollar(rep, pat, s[..i], s[i + |pat|..]);
  }

  // ---------------------------------------------------------------- splitting

  /** Splitting on every occurrence of `sep`, the plain `s.split(sep)`. */
  function SplitOn(s: string, sep: char): (parts: seq<string>)
    ensures |parts| == multiset(s)[sep] + 1
    ensures forall k :: 0 <= k < |parts| ==> sep !in parts[k]
    ensures Join(parts, sep) == s
    decreases |s|
  {
    if sep !in s then [s]
    else
      var i := IndexOfChar(s, sep);
      var tail := SplitOn(s[i + 1..], sep);
      assert s == s[..i] + [sep] + s[i + 1..];
      assert multiset(s)[sep] == multiset(s[..i])[sep] + 1 + multiset(s[i + 1..])[sep];
      assert multiset(s[..i])[sep] == 0;
      assert ([s[..i]] + tail)[1..] == tail;
      [s[..i]] + tail
  }

  /** The inverse of `SplitOn`: `Array.prototype.join` with a one-character separator. */
  function Join(parts: seq<string>, sep: char): string
    requires |parts| >= 1
  {
    if |parts| == 1 then parts[0] else parts[0] + [sep] + Join(parts[1..], sep)
  }

  /** The leftmost match of `/\s*sep\s*` + "/" as the pair (start, end): it
      begins at the white space before the first `sep` and swallows the white
      space after it. */
  function SeparatorMatch(s: string, sep: char): (m: Option<(nat, nat)>)
    requires !IsSpace(sep)
    ensures m.None? <==> sep !in s
    ensures m.Some? ==> m.value.0 <= IndexOfChar(s, sep) < m.value.1 <= |s|
    ensures m.Some? ==> forall k :: m.value.0 <= k < IndexOfChar(s, sep) ==> IsSpace(s[k])
    ensures m.Some? ==> forall k :: IndexOfChar(s, sep) < k < m.value.1 ==> IsSpace(s[k])
    ensures m.Some? ==> m.value.0 == 0 || !IsSpace(s[m.value.0 - 1])
    ensures m.Some? ==> m.value.1 == |s| || !IsSpace(s[m.value.1])
  {
    if sep !in s then None
    else
      var i := IndexOfChar(s, sep);
      var before := TrailingSpace(s[..i]);
      var after := LeadingSpace(s[i + 1..]);
      SeparatorBounds(s, i, before, after);
      Some((i - before, i + 1 + after))
  }

  /** The white space runs on either side of position `i`. */
  lemma SeparatorBounds(s: string, i: nat, before: nat, after: nat)
    requires i < |s| && before == TrailingSpace(s[..i]) && after == LeadingSpace(s[i + 1..])
    ensures before <= i && i + 1 + after <= |s|
    ensures forall k :: i - before <= k < i ==> IsSpace(s[k])
    ensures forall k :: i < k < i + 1 + after ==> IsSpace(s[k])
    ensures before == i || !IsSpace(s[i - before - 1])
    ensures i + 1 + after == |s| || !IsSpace(s[i + 1 + after])
  {
    assert forall k :: i - before <= k < i ==> s[k] == s[..i][k];
    assert forall k :: i < k < i + 1 + after ==> s[k] == s[i + 1..][k - i - 1];
    assert before < i ==> s[i - before - 1] == s[..i][i - before - 1];
    assert i + 1 + after < |s| ==> s[i + 1 + after] == s[i + 1..][after];
  }

  // `s.split(/\s*sep\s*/)`: the text before each leftmost separator match
  // is a piece, and the split goes on after the match.
  function SplitAround(s: string, sep: char): (parts: seq<string>)
    requires !IsSpace(sep)
    ensures |parts| >= 1
    decreases |s|
  {
    match SeparatorMatch(s, sep)
    case None => [s]
    case Some((a, b)) => [s[..a]] + SplitAround(s[b..], sep)
  }

  /** Without a separator there is one piece, the text itself. */
  lemma SplitAroundWithout(s: string, sep: char)
    requires !IsSpace(sep) && sep !in s
    ensures SplitAround(s, sep) == [s]
  {
  }

  lemma LeadingSpaceOf(w: string, t: string)
    requires AllSpace(w) && (t == [] || !IsSpace(t[0]))
    ensures LeadingSpace(w + t) == |w|
  {
    var s := w + t;
    assert forall k :: 0 <= k < |w| ==> s[k] == w[k];
    if |w| < |s| {
      assert s[|w|] == t[0];
    }
  }

  lemma SplitAroundOfMatch(s: string, sep: char, a: nat, b: nat)
    requires !IsSpace(sep) && SeparatorMatch(s, sep) == Some((a, b))
    ensures a <= b <= |s|
    ensures SplitAround(s, sep) == [s[..a]] + SplitAround(s[b..], sep)
  {
  }

  /** `a, b` splits into `a` and `b`. */
  lemma SplitAroundPair(a: string, b: string, sep: char)
    requires !IsSpace(sep) && sep !in a && sep !in b
    requires a == [] || !IsSpace(a[|a| - 1])
    requires b == [] || !IsSpace(b[0])
    ensures SplitAround(a + [sep] + " " + b, sep) == [a, b]
  {
    var s := a + [sep] + " " + b;
    PairMatch(a, b, sep, s);
    SplitAroundOfMatch(s, sep, |a|, |a| + 2);
    assert s[..|a|] == a && s[|a| + 2..] == b;
    SplitAroundWithout(b, sep);
  }

  /** `a, rest` splits into `a` and then the pieces of `rest`. */
  lemma SplitAroundFirst(a: string, b: string, sep: char)
    requires !IsSpace(sep) && sep !in a
    requires a == [] || !IsSpace(a[|a| - 1])
    requires b == [] || !IsSpace(b[0])
    ensures SplitAround(a + [sep] + " " + b, sep) == [a] + SplitAround(b, sep)
  {
    var s := a + [sep] + " " + b;
    PairMatch(a, b, sep, s);
    SplitAroundOfMatch(s, sep, |a|, |a| + 2);
    assert s[..|a|] == a && s[|a| + 2..] == b;
  }

  /** In `a, b` the separator match is the comma and the one space after it. */
  lemma {:induction false} PairMatch(a: string, b: string, sep: char, s: string)
    requires !IsSpace(sep) && sep !in a
    requires a == [] || !IsSpace(a[|a| - 1])
    requires b == [] || !IsSpace(b[0])
    requires s == a + [sep] + " " + b
    ensures SeparatorMatch(s, sep) == Some((|a|, |a| + 2))
  {
    assert s[..|a|] == a && s[|a|] == sep;
    IndexOfCharUnique(s, sep, |a|);
    var (a', b') := SeparatorMatch(s, sep).value;
    if a != [] {
      assert s[|a| - 1] == a[|a| - 1];
    }
    assert s[|a| + 1] == ' ';
    if b != [] {
      assert s[|a| + 2] == b[0];
    }
  }

  /** One piece more than there are separators. */
  lemma {:induction false} SplitAroundCount(s: string, sep: char)
    requires !IsSpace(sep)
    ensures |SplitAround(s, sep)| == multiset(s)[sep] + 1
    decreases |s|
  {
    if sep in s {
      var (a, b) := SeparatorMatch(s, sep).value;
      SplitAroundCount(s[b..], sep);
      SeparatorCount(s, sep, IndexOfChar(s, sep), b);
    }
  }

  lemma SeparatorCount(s: string, sep: char, i: nat, b: nat)
    requires !IsSpace(sep) && i < b <= |s| && s[i] == sep && sep !in s[..i]
    requires forall k :: i + 1 <= k < b ==> IsSpace(s[k])
    ensures multiset(s)[sep] == multiset(s[b..])[sep] + 1
  {
    assert s == s[..i] + [sep] + s[i + 1..b] + s[b..];
    assert sep !in s[i + 1..b];
  }

  lemma SplitOnUnfold(s: string, sep: char)
    requires sep in s
    ensures SplitOn(s, sep) == [s[..IndexOfChar(s, sep)]] + SplitOn(s[IndexOfChar(s, sep) + 1..], sep)
  {
  }

  /** One separator between two texts without it splits into those two. */
  lemma SplitOnTwo(a: string, b: string, sep: char)
    requires sep !in a && sep !in b
    ensures SplitOn(a + [sep] + b, sep) == [a, b]
  {
    var s := a + [sep] + b;
    assert s[..|a|] == a && s[|a|] == sep;
    IndexOfCharUnique(s, sep, |a|);
    assert s[|a| + 1..] == b;
    SplitOnUnfold(s, sep);
  }

  /** Leading white space only lengthens the first piece of a split. */
  lemma {:induction false} SplitOnPadded(w: string, t: string, sep: char)
    requires AllSpace(w) && !IsSpace(sep)
    ensures SplitOn(w + t, sep) == [w + SplitOn(t, sep)[0]] + SplitOn(t, sep)[1..]
  {
    assert sep !in w;
    var s := w + t;
    if sep in t {
      var j := IndexOfChar(t, sep);
      var i := |w| + j;
      assert s[..i] == w + t[..j];
      assert s[i] == sep && sep !in s[..i];
      IndexOfCharUnique(s, sep, i);
      assert s[i + 1..] == t[j + 1..];
      SplitOnUnfold(s, sep);
      SplitOnUnfold(t, sep);
    } else {
      assert sep !in s;
    }
  }

  lemma TrimEachCons(x: string, xs: seq<string>)
    ensures TrimEach([x] + xs) == [Trim(x)] + TrimEach(xs)
  {
  }

  /** Trimmed, a split of space-padded text is the split of the text. */
  lemma PaddedSplitTrimmed(w: string, t: string, sep: char)
    requires AllSpace(w) && !IsSpace(sep)
    ensures TrimEach(SplitOn(w + t, sep)) == TrimEach(SplitOn(t, sep))
  {
    var plain := SplitOn(t, sep);
    SplitOnPadded(w, t, sep);
    TrimOfPadded(w, plain[0], []);
    assert w + plain[0] + [] == w + plain[0];
    assert plain == [plain[0]] + plain[1..];
    TrimEachCons(w + plain[0], plain[1..]);
    TrimEachCons(plain[0], plain[1..]);
  }

  /** The white space before a separator only pads the piece in front of it. */
  lemma FirstPieceTrimmed(s: string, a: nat, i: nat)
    requires a <= i <= |s| && AllSpace(s[a..i])
    ensures Trim(s[..a]) == Trim(s[..i])
  {
    TrimOfPadded([], s[..a], s[a..i]);
    assert [] + s[..a] + s[a..i] == s[..i];
  }

  /** The white space a separator match swallows, on `a..i` and on
      `i + 1..b`, only pads the pieces next to the separator at `i`. */
  lemma PaddingAround(s: string, sep: char, a: nat, i: nat, b: nat)
    requires !IsSpace(sep) && a <= i < b <= |s|
    requires forall k :: a <= k < i ==> IsSpace(s[k])
    requires forall k :: i < k < b ==> IsSpace(s[k])
    ensures Trim(s[..a]) == Trim(s[..i])
    ensures TrimEach(SplitOn(s[i + 1..], sep)) == TrimEach(SplitOn(s[b..], sep))
  {
    AllSpaceSlice(s, a, i);
    FirstPieceTrimmed(s, a, i);
    AllSpaceSlice(s, i + 1, b);
    PaddedSuffixTrimmed(s, i + 1, b, sep);
  }

  /** Dropping white space in front of a suffix leaves its trimmed split. */
  lemma PaddedSuffixTrimmed(s: string, i: nat, j: nat, sep: char)
    requires i <= j <= |s| && AllSpace(s[i..j]) && !IsSpace(sep)
    ensures TrimEach(SplitOn(s[i..], sep)) == TrimEach(SplitOn(s[j..], sep))
  {
    assert s[i..] == s[i..j] + s[j..];
    PaddedSplitTrimmed(s[i..j], s[j..], sep);
  }

  // Once the pieces are trimmed, the white space the separator pattern
  // swallows makes no difference: splitting on `/\s*sep\s*/` and trimming is
  // splitting on every `sep` and trimming.
  lemma {:induction false} SplitAroundTrimmed(s: string, sep: char)
    requires !IsSpace(sep)
    ensures TrimEach(SplitAround(s, sep)) == TrimEach(SplitOn(s, sep))
    decreases |s|
  {
    if sep in s {
      var i := IndexOfChar(s, sep);
      var (a, b) := SeparatorMatch(s, sep).value;
      SplitAroundTrimmed(s[b..], sep);
      PaddingAround(s, sep, a, i, b);
      var rest := SplitAround(s[b..], sep);
      assert SplitAround(s, sep) == [s[..a]] + rest;
      SplitOnUnfold(s, sep);
      TrimEachConsEqual(s[..a], rest, s[..i], SplitOn(s[i + 1..], sep));
    }
  }

  /** Lists whose heads and tails trim alike trim alike. */
  lemma TrimEachConsEqual(x: string, xs: seq<string>, y: string, ys: seq<string>)
    requires Trim(x) == Trim(y) && TrimEach(xs) == TrimEach(ys)
    ensures TrimEach([x] + xs) == TrimEach([y] + ys)
  {
    TrimEachCons(x, xs);
    TrimEachCons(y, ys);
  }

  lemma {:induction false} TrimStartIsSuffix(s: string)
    ensures TrimStart(s) == s[LeadingSpace(s)..]
    decreases |s|
  {
    if s != [] && IsSpace(s[0]) {
      TrimStartIsSuffix(s[1..]);
      assert s[1..][LeadingSpace(s[1..])..] == s[LeadingSpace(s)..];
    }
  }

  lemma {:induction false} TrimEndIsPrefix(s: string)
    ensures TrimEnd(s) == s[..|s| - TrailingSpace(s)]
    decreases |s|
  {
    if s != [] && IsSpace(s[|s| - 1]) {
      TrimEndIsPrefix(s[..|s| - 1]);
      assert s[..|s| - 1][..|s| - 1 - TrailingSpace(s[..|s| - 1])] == s[..|s| - TrailingSpace(s)];
    }
  }

  lemma AllSpaceSlice(s: string, a: nat, b: nat)
    requires a <= b <= |s| && forall k :: a <= k < b ==> IsSpace(s[k])
    ensures AllSpace(s[a..b])
  {
    forall k | 0 <= k < b - a ensures IsSpace(s[a..b][k]) { assert s[a..b][k] == s[a + k]; }
  }

  lemma LeadingSplit(s: string) returns (w: string)
    ensures AllSpace(w) && s == w + TrimStart(s)
  {
    var n := LeadingSpace(s);
    TrimStartIsSuffix(s);
    AllSpaceSlice(s, 0, n);
    w := s[0..n];
    assert s == s[0..n] + s[n..];
  }

  lemma TrailingSplit(s: string) returns (w: string)
    ensures AllSpace(w) && s == TrimEnd(s) + w
  {
    var m := TrailingSpace(s);
    TrimEndIsPrefix(s);
    AllSpaceSlice(s, |s| - m, |s|);
    w := s[|s| - m..|s|];
    assert s == s[..|s| - m] + s[|s| - m..|s|];
  }

  /** A text is its trimmed core with white space on either side. */
  lemma TrimDecomposition(s: string) returns (w1: string, w2: string)
    ensures AllSpace(w1) && AllSpace(w2)
    ensures s == w1 + Trim(s) + w2
  {
    w1 := LeadingSplit(s);
    w2 := TrailingSplit(TrimStart(s));
  }

  /** Trailing white space only lengthens the last piece of a split. */
  lemma {:induction false} TrailingPaddedSplitTrimmed(t: string, w: string, sep: char)
    requires AllSpace(w) && !IsSpace(sep)
    ensures TrimEach(SplitOn(t + w, sep)) == TrimEach(SplitOn(t, sep))
    decreases |t|
  {
    assert sep !in w;
    if sep !in t {
      assert sep !in t + w;
      TrimOfPadded([], t, w);
      assert [] + t + w == t + w;
      TrimEachConsEqual(t + w, [], t, []);
      assert [t + w] + [] == [t + w] && [t] + [] == [t];
    } else {
      var i := IndexOfChar(t, sep);
      SlicesOfAppend(t, w, i);
      IndexOfCharUnique(t + w, sep, i);
      SplitOnUnfold(t + w, sep);
      SplitOnUnfold(t, sep);
      TrailingPaddedSplitTrimmed(t[i + 1..], w, sep);
      TrimEachConsEqual(t[..i], SplitOn(t[i + 1..] + w, sep), t[..i], SplitOn(t[i + 1..], sep));
    }
  }

  lemma ConcatAssoc(x: string, y: string, z: string)
    ensures x + (y + z) == (x + y) + z
  {
  }

  /** Cutting `a + b` around a position inside `a`. */
  lemma SlicesOfAppend(a: string, b: string, i: nat)
    requires i < |a|
    ensures (a + b)[..i] == a[..i] && (a + b)[i] == a[i] && (a + b)[i + 1..] == a[i + 1..] + b
  {
  }

  /** The pieces of a split, trimmed, do not depend on the white space around
      the text. */
  lemma SplitOfTrimmed(s: string, sep: char)
    requires !IsSpace(sep)
    ensures TrimEach(SplitOn(s, sep)) == TrimEach(SplitOn(Trim(s), sep))
  {
    var w1, w2 := TrimDecomposition(s);
    var t := Trim(s) + w2;
    ConcatAssoc(w1, Trim(s), w2);
    PaddedSplitTrimmed(w1, t, sep);
    TrailingPaddedSplitTrimmed(Trim(s), w2, sep);
  }
}
