/** `typification` (index.js): the type tag, the materialised default and the
    `required` flag of one optional default-value text. */
module Typifier {

  import opened Options
  import opened JsText
  import opened Values

  // ---------------------------------------------------------------- quotes

  predicate IsQuote(c: char) {
    c == '\'' || c == '"'
  }

  predicate AllQuotes(s: string) {
    forall i :: 0 <= i < |s| ==> IsQuote(s[i])
  }

  /** Length of the run of quote characters at the start of `s`. */
  function LeadingQuotes(s: string): (n: nat)
    ensures n <= |s|
    ensures forall k :: 0 <= k < n ==> IsQuote(s[k])
    ensures n == |s| || !IsQuote(s[n])
    decreases |s|
  {
    if s != [] && IsQuote(s[0]) then 1 + LeadingQuotes(s[1..]) else 0
  }

  /** Length of the run of quote characters at the end of `s`. */
  function TrailingQuotes(s: string): (n: nat)
    ensures n <= |s|
    ensures forall k :: |s| - n <= k < |s| ==> IsQuote(s[k])
    ensures n == |s| || !IsQuote(s[|s| - n - 1])
    decreases |s|
  {
    if s != [] && IsQuote(s[|s| - 1]) then 1 + TrailingQuotes(s[..|s| - 1]) else 0
  }

  /** `s.replace(/^['"]*|['"]*$/gim, '')`: the global replacement first takes
      the run of quotes at the start, then the run of quotes that reaches the
      end of what is left. Everything between them is kept as it is. */
  function StripQuotes(s: string): (r: string)
    ensures |r| <= |s|
    ensures r == [] || (!IsQuote(r[0]) && !IsQuote(r[|r| - 1]))
  {
    var rest := s[LeadingQuotes(s)..];
    rest[..|rest| - TrailingQuotes(rest)]
  }

  lemma {:induction false} LeadingQuotesOfWrapped(q: string, t: string)
    requires AllQuotes(q) && (t == [] || !IsQuote(t[0]))
    ensures LeadingQuotes(q + t) == |q|
    decreases |q|
  {
    if q != [] {
      var s := q + t;
      assert s[0] == q[0] && IsQuote(q[0]);
      assert s[1..] == q[1..] + t;
      assert AllQuotes(q[1..]) by {
        forall k | 0 <= k < |q| - 1 ensures IsQuote(q[1..][k]) {
          assert q[1..][k] == q[k + 1];
        }
      }
      LeadingQuotesOfWrapped(q[1..], t);
      assert LeadingQuotes(s) == 1 + LeadingQuotes(s[1..]);
    } else {
      assert q + t == t;
    }
  }

  lemma TrailingQuotesOfWrapped(t: string, q: string)
    requires AllQuotes(q) && (t == [] || !IsQuote(t[|t| - 1]))
    ensures TrailingQuotes(t + q) == |q|
    decreases |q|
  {
    if q != [] {
      assert (t + q)[..|t + q| - 1] == t + q[..|q| - 1];
      TrailingQuotesOfWrapped(t, q[..|q| - 1]);
    } else {
      assert t + q == t;
    }
  }

  /** Quotes around a body whose ends are no quotes come off exactly: the body,
      inner quotes and backslashes included, is what remains. */
  lemma StripQuotesOfWrapped(q1: string, body: string, q2: string)
    requires AllQuotes(q1) && AllQuotes(q2)
    requires body == [] || (!IsQuote(body[0]) && !IsQuote(body[|body| - 1]))
    ensures StripQuotes(q1 + body + q2) == body
  {
    var s := q1 + body + q2;
    assert s == q1 + (body + q2);
    if body == [] {
      assert AllQuotes(q1 + q2);
      LeadingQuotesOfWrapped(q1 + q2, []);
      assert (q1 + q2) + [] == s;
    } else {
      LeadingQuotesOfWrapped(q1, body + q2);
      assert s[|q1|..] == body + q2;
      TrailingQuotesOfWrapped(body, q2);
    }
  }

  // ---------------------------------------------------------------- regular expressions

  /** `s.lastIndexOf(c)` for a character that occurs. */
  function LastIndexOfChar(s: string, c: char): (k: nat)
    requires c in s
    ensures k < |s| && s[k] == c
    ensures c !in s[k + 1..]
    decreases |s|
  {
    if s[|s| - 1] == c then |s| - 1
    else
      assert c in s[..|s| - 1] by {
        var i :| 0 <= i < |s| && s[i] == c;
        assert s[..|s| - 1][i] == c;
      }
      var k := LastIndexOfChar(s[..|s| - 1], c);
      assert s[k + 1..] == s[..|s| - 1][k + 1..] + [s[|s| - 1]];
      k
  }

  lemma LastIndexOfCharUnique(s: string, c: char, k: nat)
    requires k < |s| && s[k] == c && c !in s[k + 1..]
    ensures LastIndexOfChar(s, c) == k
  {
    var j := LastIndexOfChar(s, c);
    assert forall i :: k < i < |s| ==> s[i] != c by {
      forall i | k < i < |s| ensures s[i] != c { assert s[k + 1..][i - k - 1] == s[i]; }
    }
    assert forall i :: j < i < |s| ==> s[i] != c by {
      forall i | j < i < |s| ensures s[i] != c { assert s[j + 1..][i - j - 1] == s[i]; }
    }
  }

  /** The regular expression of a default text that starts with `/`. The flags
      are what follows the last `/` (`/[^/]*$/`). The body is the text with the
      leading `/` and the trailing `/flags` removed (`^/|/flags$`); when the
      leading `/` is the only one, only it is removed. */
  function RegexDefault(s: string): (r: DefaultValue)
    requires s != [] && s[0] == '/'
    ensures r.Regex? && '/' !in r.flags
    ensures r.body <= s[1..]
    ensures |r.flags| < |s| && r.flags == s[|s| - |r.flags|..]
  {
    var k := LastIndexOfChar(s, '/');
    var flags := s[k + 1..];
    if k == 0 then Regex(s[1..], flags) else Regex(s[1..k], flags)
  }

  /** `/body/flags` with flags free of `/` gives back its body and flags,
      whatever slashes the body holds. */
  lemma RegexRoundTrip(body: string, flags: string)
    requires '/' !in flags
    ensures RegexDefault("/" + body + "/" + flags) == Regex(body, flags)
  {
    var s := "/" + body + "/" + flags;
    var k := |body| + 1;
    assert s[k + 1..] == flags;
    LastIndexOfCharUnique(s, '/', k);
    assert s[1..k] == body;
  }

  /** A text with a single `/` keeps everything after it as the body, and the
      same text is read as the flags as well. */
  lemma RegexWithoutClosingSlash(t: string)
    requires '/' !in t
    ensures RegexDefault("/" + t) == Regex(t, t)
  {
    var s := "/" + t;
    assert s[1..] == t;
    LastIndexOfCharUnique(s, '/', 0);
  }

  // ---------------------------------------------------------------- numbers

  /** `Number(s)`, or `BigInt(s.replace('n', ''))` when `s` ends in `n`. */
  function NumericDefault(s: string): DefaultValue {
    if s != [] && s[|s| - 1] == 'n' then BigInt(Replace(s, "n", "")) else Num(s)
  }

  // ---------------------------------------------------------------- typification

  /** `defaultValue` is truthy: present and not the empty string. */
  predicate Present(text: Option<string>) {
    text.Some? && text.value != []
  }

  predicate IsBooleanWord(s: string) {
    Lower(s) == "true" || Lower(s) == "false"
  }

  /** `typification(defaultValue)`: the checks run one after another and a
      later match overwrites what an earlier one set. */
  function Typify(text: Option<string>): (r: Typed)
    ensures r.required <==> !Present(text)
    ensures !Present(text) ==> r == Typed(Any, Undefined, true)
    ensures Present(text) ==> r == Literal(text.value)
  {
    if !Present(text) then Typed(Any, Undefined, true)
    else
      var s := text.value;
      var r := Typed(Any, Undefined, false);
      var r := if IsDigit(s[0]) then r.(tag := Number, default := NumericDefault(s)) else r;
      var r := if IsBooleanWord(s) then r.(tag := Boolean, default := Bool(s == "true")) else r;
      var r := if IsQuote(s[0]) then r.(tag := String, default := Str(StripQuotes(s))) else r;
      var r := if s[0] == '{' then r.(tag := Object, default := EmptyObject) else r;
      var r := if s[0] == '[' then r.(tag := Array, default := EmptyArray) else r;
      var r := if s[0] == '/' then r.(tag := Object, default := RegexDefault(s)) else r;
      var r := if s == "Infinity" then r.(tag := Number, default := Infinity) else r;
      var r := if s == "NaN" then r.(tag := Number, default := NaN) else r;
      var r := if Lower(s) == "null" then r.(default := Null) else r;
      var r := if Lower(s) == "undefined" then r.(default := Undefined) else r;
      LiteralFormsDisjoint(s);
      r
  }

  /** The reference reading of a present default text: it is classified by the
      first form it has, and the forms never overlap. */
  function Literal(s: string): (r: Typed)
    requires s != []
    ensures !r.required
  {
    if IsDigit(s[0]) then Typed(Number, NumericDefault(s), false)
    else if IsQuote(s[0]) then Typed(String, Str(StripQuotes(s)), false)
    else if s[0] == '{' then Typed(Object, EmptyObject, false)
    else if s[0] == '[' then Typed(Array, EmptyArray, false)
    else if s[0] == '/' then Typed(Object, RegexDefault(s), false)
    else if s == "Infinity" || s == "NaN" then Typed(Number, if s == "NaN" then NaN else Infinity, false)
    else if IsBooleanWord(s) then Typed(Boolean, Bool(s == "true"), false)
    else if Lower(s) == "null" then Typed(Any, Null, false)
    else Typed(Any, Undefined, false)
  }

  /** The lower-cased words begin with a letter, so none of them starts like a
      number, a string, an object, an array or a regular expression, and no two
      of them coincide. */
  lemma LiteralFormsDisjoint(s: string)
    requires s != []
    ensures IsBooleanWord(s) || Lower(s) == "null" || Lower(s) == "undefined"
            ==> !IsDigit(s[0]) && !IsQuote(s[0]) && s[0] != '{' && s[0] != '[' && s[0] != '/'
    ensures IsBooleanWord(s) || Lower(s) == "null" || Lower(s) == "undefined" ==> s != "Infinity" && s != "NaN"
    ensures IsBooleanWord(s) ==> Lower(s) != "null" && Lower(s) != "undefined"
  {
    assert Lower(s)[0] == LowerChar(s[0]);
    assert Lower("Infinity") == "infinity";
    assert Lower("NaN") == "nan";
  }

  // ---------------------------------------------------------------- properties

  /** A digit string, with or without the `n` suffix, is read back as the
      number (or big integer) it spells. */
  lemma {:induction false} NumberRoundTrip(d: string)
    requires d != [] && forall i :: 0 <= i < |d| ==> IsDigit(d[i])
    ensures Typify(Some(d)) == Typed(Number, Num(d), false)
    ensures Typify(Some(d + "n")) == Typed(Number, BigInt(d), false)
  {
    var s := d + "n";
    assert OccursAt(s, "n", |d|) by { assert s[|d|..|d| + 1] == "n"; }
    forall j | 0 <= j < |d| ensures !OccursAt(s, "n", j) {
      assert s[j..j + 1] == [d[j]];
    }
    ReplaceLiterally(s, "n", "", |d|);
    assert s[..|d|] + "" + s[|d| + 1..] == d;
  }

  /** Only the first `n` is removed before `BigInt` reads the text. */
  lemma BigIntFirstNOnly()
    ensures Typify(Some("1n2n")) == Typed(Number, BigInt("12n"), false)
  {
    var s := "1n2n";
    assert OccursAt(s, "n", 1) by { assert s[1..2] == "n"; }
    assert !OccursAt(s, "n", 0) by { assert s[0..1] == "1"; }
    ReplaceLiterally(s, "n", "", 1);
    assert s[..1] + "" + s[2..] == "12n";
  }

  /** `true` and `false` in any letter case are booleans; the value is true only
      for the exact text `true`. */
  lemma BooleanWords(s: string)
    requires Lower(s) == "true" || Lower(s) == "false"
    ensures Typify(Some(s)) == Typed(Boolean, Bool(s == "true"), false)
  {
    assert s != [];
    LiteralFormsDisjoint(s);
  }

  lemma BooleanCaseExample()
    ensures Typify(Some("True")) == Typed(Boolean, Bool(false), false)
    ensures Typify(Some("false")) == Typed(Boolean, Bool(false), false)
    ensures Typify(Some("true")) == Typed(Boolean, Bool(true), false)
  {
    assert Lower("True") == "true";
    BooleanWords("True");
    assert Lower("false") == "false";
    BooleanWords("false");
    assert Lower("true") == "true";
    BooleanWords("true");
  }

  /** `null` and `undefined` in any letter case set that default, leave the
      type `any` and still count as a given default. */
  lemma NullAndUndefinedStayAny(s: string)
    requires Lower(s) == "null" || Lower(s) == "undefined"
    ensures Typify(Some(s)) == Typed(Any, if Lower(s) == "null" then Null else Undefined, false)
  {
    assert s != [];
    LiteralFormsDisjoint(s);
  }

  /** `Infinity` and `NaN`, exactly written, are numbers. */
  lemma SpecialNumbers()
    ensures Typify(Some("Infinity")) == Typed(Number, Infinity, false)
    ensures Typify(Some("NaN")) == Typed(Number, NaN, false)
    ensures Typify(Some("nan")) == Typed(Any, Undefined, false)
  {
    assert Lower("nan") == "nan";
  }

  /** A quoted default is a string holding what lies between the quote runs. */
  lemma StringRoundTrip(q1: string, body: string, q2: string)
    requires q1 != [] && AllQuotes(q1) && AllQuotes(q2)
    requires body == [] || (!IsQuote(body[0]) && !IsQuote(body[|body| - 1]))
    ensures Typify(Some(q1 + body + q2)) == Typed(String, Str(body), false)
  {
    var s := q1 + body + q2;
    assert s[0] == q1[0];
    StripQuotesOfWrapped(q1, body, q2);
  }

  /** Object and array literals give empty containers, whatever they hold. */
  lemma ContainerDefaults(t: string)
    ensures Typify(Some("{" + t)) == Typed(Object, EmptyObject, false)
    ensures Typify(Some("[" + t)) == Typed(Array, EmptyArray, false)
  {
    assert ("{" + t)[0] == '{';
    assert ("[" + t)[0] == '[';
  }

  /** A regular-expression literal is an object holding its body and flags. */
  lemma RegexLiteral(body: string, flags: string)
    requires '/' !in flags
    ensures Typify(Some("/" + body + "/" + flags)) == Typed(Object, Regex(body, flags), false)
  {
    RegexRoundTrip(body, flags);
    assert ("/" + body + "/" + flags)[0] == '/';
  }
}
