/** index.js as published, where it departs from `Extractor.Extract`:
    the pre-pass replaces with a replacement pattern (`$$`, `$&`, `` $` `` and
    `$'` are expanded), and the lookup `destructuredArgs?.[name]` also finds
    what a plain object inherits from `Object.prototype`, which makes the
    descriptor assembly throw. */
module AsWritten {

  import opened Options
  import opened JsText
  import opened Values
  import opened Extractor

  /** The names a plain object `{}` inherits from `Object.prototype`. Reading
      one gives a function, or the prototype object for `__proto__`: both are
      truthy, and neither has a `map` method. */
  const InheritedNames: set<string> := {
    "constructor", "hasOwnProperty", "isPrototypeOf", "propertyIsEnumerable",
    "toLocaleString", "toString", "valueOf", "__defineGetter__",
    "__defineSetter__", "__lookupGetter__", "__lookupSetter__", "__proto__"
  }

  /** A call either returns the descriptors or throws. */
  datatype Outcome = Returned(args: seq<Descriptor>) | Threw(error: Error)

  /** The `TypeError` raised when `.map` is called on an inherited member
      ("destructuredArgs[argPrepared[0]].map is not a function"). */
  datatype Error = MapIsNotAFunction

  /** index.js:94-107 with `getBaseArgs.replace(args[0], replacer)`. */
  function ApplySpansAsWritten(text: string, groups: map<string, seq<Prop>>, spans: seq<Span>): (r: Prepared)
    ensures r.groups.Keys == groups.Keys + Placeholders(spans)
    ensures r.groups == ApplySpans(text, groups, spans).groups
    decreases |spans|
  {
    if spans == [] then Prepared(text, groups)
    else
      var props := PatternProps(PatternGroup(spans[0].inner));
      var key := Placeholder(spans[0]);
      var r := ApplySpansAsWritten(Replace(text, spans[0].whole, key), groups[key := props], spans[1..]);
      ReplaceAllStep(text, groups, spans, r);
      r
  }

  /** Replacing every occurrence instead of the first changes no remembered
      pattern: one step of `ApplySpansAsWritten` against `ApplySpans`. */
  lemma {:induction false} ReplaceAllStep(text: string, groups: map<string, seq<Prop>>, spans: seq<Span>, r: Prepared)
    requires spans != []
    requires r.groups == ApplySpans(Replace(text, spans[0].whole, Placeholder(spans[0])),
                                    groups[Placeholder(spans[0]) := PatternProps(PatternGroup(spans[0].inner))], spans[1..]).groups
    ensures r.groups == ApplySpans(text, groups, spans).groups
    ensures r.groups.Keys == groups.Keys + Placeholders(spans)
  {
    var key := Placeholder(spans[0]);
    var next := groups[key := PatternProps(PatternGroup(spans[0].inner))];
    GroupsIgnoreText(Replace(text, spans[0].whole, key), ReplaceFirst(text, spans[0].whole, key), next, spans[1..]);
  }

  function PrepassAsWritten(params: string): (r: Prepared)
    ensures r.groups.Keys == Placeholders(BraceSpans(params))
  {
    if params == [] then Prepared(params, map[]) else ApplySpansAsWritten(params, map[], BraceSpans(params))
  }

  /** The lookup throws for a clause whose name is inherited and not one of the
      remembered placeholders. */
  predicate Throws(clause: string, groups: map<string, seq<Prop>>) {
    var name := ClauseParts(clause)[0];
    name !in groups && name in InheritedNames
  }

  /** index.js:114-136 as written: the `forEach` stops at the first clause
      whose lookup throws. */
  function DescribeAll(clauses: seq<string>, groups: map<string, seq<Prop>>): (r: Outcome)
    ensures r.Threw? <==> exists i :: 0 <= i < |clauses| && Throws(clauses[i], groups)
    ensures r.Returned? ==> r.args == DescribeEach(clauses, groups)
    decreases |clauses|
  {
    if clauses == [] then Returned([])
    else if Throws(clauses[0], groups) then Threw(MapIsNotAFunction)
    else
      match DescribeAll(clauses[1..], groups)
      case Threw(e) =>
        ThrowsCons(clauses, groups);
        Threw(e)
      case Returned(rest) =>
        ReturnedCons(clauses, groups, rest);
        Returned([Describe(clauses[0], groups)] + rest)
  }

  /** No clause throws when neither the first nor a later one does, and the
      descriptors are the first clause's followed by the later ones'. */
  lemma ReturnedCons(clauses: seq<string>, groups: map<string, seq<Prop>>, rest: seq<Descriptor>)
    requires clauses != [] && !Throws(clauses[0], groups)
    requires !exists i :: 0 <= i < |clauses[1..]| && Throws(clauses[1..][i], groups)
    requires rest == DescribeEach(clauses[1..], groups)
    ensures !exists i :: 0 <= i < |clauses| && Throws(clauses[i], groups)
    ensures [Describe(clauses[0], groups)] + rest == DescribeEach(clauses, groups)
  {
    ThrowsCons(clauses, groups);
    DescribeEachCons(clauses, groups);
  }

  /** Some clause throws exactly when the first one does or a later one does. */
  lemma ThrowsCons(clauses: seq<string>, groups: map<string, seq<Prop>>)
    requires clauses != []
    ensures (exists i :: 0 <= i < |clauses| && Throws(clauses[i], groups)) <==>
            Throws(clauses[0], groups) || exists i :: 0 <= i < |clauses[1..]| && Throws(clauses[1..][i], groups)
  {
    if exists i :: 0 <= i < |clauses| && Throws(clauses[i], groups) {
      var i :| 0 <= i < |clauses| && Throws(clauses[i], groups);
      if i > 0 {
        assert clauses[1..][i - 1] == clauses[i];
      }
    }
    if exists i :: 0 <= i < |clauses[1..]| && Throws(clauses[1..][i], groups) {
      var i :| 0 <= i < |clauses[1..]| && Throws(clauses[1..][i], groups);
      assert clauses[1..][i] == clauses[i + 1];
    }
  }

  /** The exported function as published. */
  function ExtractAsWritten(input: Input): (r: Outcome)
    ensures input.NotFunction? ==> r == Returned([])
    ensures r.Returned? ==> forall i :: 0 <= i < |r.args| ==> WellFormed(r.args[i])
  {
    match input
    case NotFunction => Returned([])
    case Function(source) =>
      match ParamText(Normalize(source))
      case None => Returned([])
      case Some(p) =>
        var prepared := PrepassAsWritten(PrepareParams(p));
        DescribeAll(Clauses(prepared), prepared.groups)
  }

  predicate DollarFree(spans: seq<Span>) {
    forall i :: 0 <= i < |spans| ==> '$' !in Placeholder(spans[i])
  }

  /** Without a dollar sign in any placeholder the two pre-passes agree. */
  lemma {:induction false} ApplySpansAgree(text: string, groups: map<string, seq<Prop>>, spans: seq<Span>)
    requires DollarFree(spans)
    ensures ApplySpansAsWritten(text, groups, spans) == ApplySpans(text, groups, spans)
    decreases |spans|
  {
    if spans != [] {
      ReplaceWithoutDollar(text, spans[0].whole, Placeholder(spans[0]));
      assert DollarFree(spans[1..]) by {
        assert forall i :: 0 <= i < |spans| - 1 ==> spans[1..][i] == spans[i + 1];
      }
      ApplySpansAgree(ReplaceFirst(text, spans[0].whole, Placeholder(spans[0])), groups[Placeholder(spans[0]) := PatternProps(PatternGroup(spans[0].inner))], spans[1..]);
    }
  }

  /** The published code returns what `Extract` returns whenever no
      placeholder holds a `$` and no clause is named after an inherited member
      that is not a placeholder; otherwise only the `$` case changes the
      result and the other one throws. */
  lemma AsWrittenAgrees(source: string, p: string)
    requires ParamText(Normalize(source)) == Some(p)
    requires DollarFree(BraceSpans(PrepareParams(p)))
    requires var prepared := Prepass(PrepareParams(p));
             forall c :: c in Clauses(prepared) ==> !Throws(c, prepared.groups)
    ensures ExtractAsWritten(Function(source)) == Returned(Extract(Function(source)))
  {
    var q := PrepareParams(p);
    PrepassAgree(q);
    NoThrowReturns(Clauses(Prepass(q)), Prepass(q).groups);
  }

  lemma PrepassAgree(q: string)
    requires DollarFree(BraceSpans(q))
    ensures PrepassAsWritten(q) == Prepass(q)
  {
    if q != [] {
      ApplySpansAgree(q, map[], BraceSpans(q));
    }
  }

  /** Without a throwing clause the published assembly returns every
      descriptor. */
  lemma NoThrowReturns(clauses: seq<string>, groups: map<string, seq<Prop>>)
    requires forall c :: c in clauses ==> !Throws(c, groups)
    ensures DescribeAll(clauses, groups) == Returned(DescribeEach(clauses, groups))
  {
    forall i | 0 <= i < |clauses| ensures !Throws(clauses[i], groups) {
      assert clauses[i] in clauses;
    }
  }

  // ---------------------------------------------------------------- counterexamples

  /** `(name) => 0` for a simple name: `Extract` gives one plain, required
      parameter, and the published code gives the same unless the name is
      inherited from `Object.prototype`, when it throws. */
  lemma SingleParameter(source: string, name: string)
    requires SimpleName(name) && source == "(" + name + ")" + " " + "=>" + " " + "0"
    ensures Extract(Function(source)) == [Descriptor(name, Any, Some(Undefined), true, false, None)]
    ensures ExtractAsWritten(Function(source)) ==
              if name in InheritedNames then Threw(MapIsNotAFunction) else Returned(Extract(Function(source)))
  {
    ParenthesisedSource(source, "(" + name + ")", name);
    PlainNameParams(name);
    SingleClauseExtract(source, name);
    SingleClauseAsWritten(source, name);
  }

  /** A simple name is its own prepared text and its own only clause, which
      describes a plain, required parameter of type `any`. */
  lemma {:induction false} PlainNameParams(name: string)
    requires SimpleName(name)
    ensures PrepareParams(name) == name
    ensures Prepass(name) == Prepared(name, map[]) && PrepassAsWritten(name) == Prepared(name, map[])
    ensures Clauses(Prepared(name, map[])) == [name] && ClauseParts(name) == [name]
    ensures Describe(name, map[]) == Descriptor(name, Any, Some(Undefined), true, false, None)
  {
    assert NoEdgeSpace(name) by {
      assert name[0] in name && name[|name| - 1] in name;
    }
    PrepareParamsOfPlain(name);
    OneClause(name);
    assert BraceSpans(name) == [];
  }

  lemma SingleClauseExtract(source: string, name: string)
    requires ParamText(Normalize(source)) == Some(name) && PrepareParams(name) == name
    requires Prepass(name) == Prepared(name, map[]) && Clauses(Prepared(name, map[])) == [name]
    ensures Extract(Function(source)) == [Describe(name, map[])]
  {
  }

  lemma SingleClauseAsWritten(source: string, name: string)
    requires ParamText(Normalize(source)) == Some(name) && PrepareParams(name) == name
    requires PrepassAsWritten(name) == Prepared(name, map[]) && Clauses(Prepared(name, map[])) == [name]
    requires ClauseParts(name) == [name]
    ensures ExtractAsWritten(Function(source)) ==
              if name in InheritedNames then Threw(MapIsNotAFunction) else Returned([Describe(name, map[])])
  {
    var prepared := Prepared(name, map[]);
    assert ExtractAsWritten(Function(source)) == DescribeAll([name], prepared.groups);
    OneClauseOutcome(name, map[]);
  }

  /** A single clause named after itself throws exactly when the name is
      inherited and not remembered. */
  lemma OneClauseOutcome(name: string, groups: map<string, seq<Prop>>)
    requires ClauseParts(name) == [name] && name !in groups
    ensures DescribeAll([name], groups) ==
              if name in InheritedNames then Threw(MapIsNotAFunction) else Returned([Describe(name, groups)])
  {
    var clauses := [name];
    assert clauses[0] == name && clauses[1..] == [];
    assert Throws(name, groups) <==> name in InheritedNames;
  }

  /** The source `(p) => 0`, for a `p` without white space, parentheses or
      `=`, is normalised and its parameter text is `p`. */
  lemma ParenthesisedSource(source: string, h: string, p: string)
    requires p != [] && forall c :: c in p ==> !IsSpace(c) && c !in "()="
    requires h == "(" + p + ")" && source == h + " " + "=>" + " " + "0"
    ensures ParamText(Normalize(source)) == Some(p)
  {
    ArrowSourceNormalized(source, h, p);
    ArrowSourceParams(source, p);
  }

  lemma ArrowSourceNormalized(source: string, h: string, p: string)
    requires forall c :: c in p ==> !IsSpace(c) && c !in "()="
    requires h == "(" + p + ")" && source == h + " " + "=>" + " " + "0"
    ensures Normalize(source) == source && source == "(" + p + ")" + " => 0" && ')' !in p
  {
    assert forall c :: c in h ==> c == '(' || c == ')' || c in p;
    SpaceFreeNormalized(h);
    SpaceFreeNormalized("=>");
    SpaceFreeNormalized("0");
    NormalizedJoin(h, "=>");
    NormalizedJoin(h + " " + "=>", "0");
    NormalizeOfNormalized(source);
  }

  /** `(constructor) => 0`: the published code throws where `Extract` gives
      one plain, required parameter named `constructor`. */
  lemma {:induction false} InheritedNameThrows(source: string)
    requires source == "(constructor) => 0"
    ensures ExtractAsWritten(Function(source)).Threw?
    ensures Extract(Function(source)) == [Descriptor("constructor", Any, Some(Undefined), true, false, None)]
  {
    var name := "constructor";
    ConstructorName(name);
    assert source == "(" + name + ")" + " " + "=>" + " " + "0";
    SingleParameter(source, name);
  }

  lemma ConstructorName(name: string)
    requires name == "constructor"
    ensures SimpleName(name) && name in InheritedNames
  {
    assert forall c :: c in name ==> 'a' <= c <= 'z';
  }

  /** `({$$}) => 0`: the placeholder `$$` is expanded to `$` when it replaces
      the pattern, so the clause no longer names the remembered pattern and a
      plain parameter `$` comes out. `Extract` gives the destructured
      parameter with its one key `$$`. */
  lemma {:induction false} DollarPlaceholderExpanded(source: string)
    requires source == "({$$}) => 0"
    ensures ExtractAsWritten(Function(source)) == Returned([Descriptor("$", Any, Some(Undefined), true, false, None)])
    ensures Extract(Function(source)) ==
              [Descriptor("$$", Object, None, true, true, Some([Prop("$$", Any, Undefined, true)]))]
  {
    var key := "$$";
    var p := "{" + key + "}";
    ParenthesisedSource(source, "(" + p + ")", p);
    PrepareParamsOfPlain(p);
    DollarNames(key, "$");
    DollarKeyPlaceholder(p, key);
    DollarCorrected(source, p, key);
    DollarAsWritten(source, p, key, "$");
  }

  lemma DollarCorrected(source: string, p: string, key: string)
    requires key == "$$" && p == "{" + key + "}" && SimpleName(key)
    requires ParamText(Normalize(source)) == Some(p) && PrepareParams(p) == p
    requires BraceSpans(p) == [Span(p, key)] && Placeholder(Span(p, key)) == key
    requires PatternGroup(key) == key && PatternProps(key) == [Prop(key, Any, Undefined, true)]
    ensures Extract(Function(source)) ==
              [Descriptor(key, Object, None, true, true, Some([Prop(key, Any, Undefined, true)]))]
  {
    var groups := map[key := [Prop(key, Any, Undefined, true)]];
    DollarKeyPrepass(p, key);
    ExtractThrough(source, p, Prepared(key, groups));
    DestructuredOnlyClause(key);
    SingleDescribed(Clauses(Prepared(key, groups)), groups);
  }

  lemma SingleDescribed(clauses: seq<string>, groups: map<string, seq<Prop>>)
    requires |clauses| == 1
    ensures DescribeEach(clauses, groups) == [Describe(clauses[0], groups)]
  {
  }

  lemma DollarAsWritten(source: string, p: string, key: string, dollar: string)
    requires key == "$$" && dollar == "$" && p == "{" + key + "}"
    requires SimpleName(dollar) && dollar != key && dollar !in InheritedNames
    requires ParamText(Normalize(source)) == Some(p) && PrepareParams(p) == p
    requires BraceSpans(p) == [Span(p, key)] && Placeholder(Span(p, key)) == key
    requires PatternGroup(key) == key && PatternProps(key) == [Prop(key, Any, Undefined, true)]
    ensures ExtractAsWritten(Function(source)) == Returned([Descriptor(dollar, Any, Some(Undefined), true, false, None)])
  {
    var groups := map[key := [Prop(key, Any, Undefined, true)]];
    DollarKeyPrepassAsWritten(p, key);
    AsWrittenThrough(source, p, Prepared(dollar, groups));
    PlainOnlyClause(dollar, groups);
  }

  /** The published extractor once the parameter text and its pre-pass are
      known. */
  lemma AsWrittenThrough(source: string, p: string, prepared: Prepared)
    requires ParamText(Normalize(source)) == Some(p) && PrepassAsWritten(PrepareParams(p)) == prepared
    ensures ExtractAsWritten(Function(source)) == DescribeAll(Clauses(prepared), prepared.groups)
  {
  }

  /** `$$` and `$` are simple names, distinct, and `$` is not inherited. */
  lemma DollarNames(key: string, dollar: string)
    requires key == "$$" && dollar == "$"
    ensures SimpleName(key) && SimpleName(dollar)
    ensures dollar != key && dollar !in InheritedNames
  {
    assert forall c :: c in key ==> c == '$';
    assert forall c :: c in dollar ==> c == '$';
    assert |dollar| != |key|;
    assert forall n :: n in InheritedNames ==> |n| > 1 || n[0] != '$';
  }

  /** A prepared text that is one simple name, remembered with one required
      key of the same name, gives the destructured parameter. */
  lemma DestructuredOnlyClause(key: string)
    requires SimpleName(key)
    ensures var props := [Prop(key, Any, Undefined, true)];
            var groups := map[key := props];
            var clauses := Clauses(Prepared(key, groups));
            |clauses| == 1 && Describe(clauses[0], groups) == Descriptor(key, Object, None, true, true, Some(props))
  {
    var props := [Prop(key, Any, Undefined, true)];
    assert NoEdgeSpace(key) by {
      assert key[0] in key && key[|key| - 1] in key;
    }
    OneClause(key);
    assert AnyRequired(props) by { assert props[0].required; }
    assert Names(props) == key;
  }

  /** A prepared text that is one simple name, neither remembered nor
      inherited, gives one plain, required parameter. */
  lemma PlainOnlyClause(name: string, groups: map<string, seq<Prop>>)
    requires SimpleName(name) && name !in groups && name !in InheritedNames
    ensures DescribeAll(Clauses(Prepared(name, groups)), groups) ==
              Returned([Descriptor(name, Any, Some(Undefined), true, false, None)])
  {
    assert NoEdgeSpace(name) by {
      assert name[0] in name && name[|name| - 1] in name;
    }
    OneClause(name);
  }

  /** `{$$}` is one match whose placeholder is `$$`. */
  lemma DollarKeyPlaceholder(p: string, key: string)
    requires key == "$$" && p == "{" + key + "}"
    ensures BraceSpans(p) == [Span(p, key)]
    ensures PatternGroup(key) == key
    ensures PatternProps(key) == [Prop(key, Any, Undefined, true)]
    ensures Placeholder(Span(p, key)) == key
  {
    DollarKeyChars(key);
    SingleKeyPlaceholder(key);
  }

  /** `$$` is a key without white space, braces, commas, `=` or capitals. */
  lemma DollarKeyChars(key: string)
    requires key == "$$"
    ensures key != [] && !IsSpace(key[0]) && NoEdgeSpace(key)
    ensures '{' !in key && '}' !in key && ',' !in key && '=' !in key
    ensures forall c :: c in key ==> !('A' <= c <= 'Z')
  {
    assert forall c :: c in key ==> c == '$';
  }

  lemma DollarKeyPrepass(p: string, key: string)
    requires key == "$$" && p == "{" + key + "}"
    requires BraceSpans(p) == [Span(p, key)] && Placeholder(Span(p, key)) == key
    requires PatternGroup(key) == key && PatternProps(key) == [Prop(key, Any, Undefined, true)]
    ensures Prepass(p) == Prepared(key, map[key := [Prop(key, Any, Undefined, true)]])
  {
    PrepassOneSpan(p, Span(p, key), key, [Prop(key, Any, Undefined, true)]);
    ReplaceWhole(p, key);
  }

  /** The published replacement reads the placeholder `$$` as a pattern for
      one `$`. */
  lemma DollarKeyPrepassAsWritten(p: string, key: string)
    requires key == "$$" && p == "{" + key + "}"
    requires BraceSpans(p) == [Span(p, key)] && Placeholder(Span(p, key)) == key
    requires PatternGroup(key) == key && PatternProps(key) == [Prop(key, Any, Undefined, true)]
    ensures PrepassAsWritten(p) == Prepared("$", map[key := [Prop(key, Any, Undefined, true)]])
  {
    PrepassAsWrittenOneSpan(p, Span(p, key), key, [Prop(key, Any, Undefined, true)]);
    ReplaceWhole(p, key);
    DoubleDollar(key, p);
  }

  /** The published pre-pass of a text with a single pattern. */
  lemma PrepassAsWrittenOneSpan(p: string, span: Span, key: string, props: seq<Prop>)
    requires p != [] && BraceSpans(p) == [span]
    requires Placeholder(span) == key && PatternProps(PatternGroup(span.inner)) == props
    ensures PrepassAsWritten(p) == Prepared(Replace(p, span.whole, key), map[key := props])
  {
    assert [span][1..] == [];
    assert ApplySpansAsWritten(p, map[], [span]) ==
           ApplySpansAsWritten(Replace(p, span.whole, key), map[key := props], []);
  }

  /** The replacement pattern `$$` stands for one dollar sign. */
  lemma DoubleDollar(key: string, matched: string)
    requires key == "$$"
    ensures Expand(key, matched, [], []) == "$"
  {
    assert key[2..] == [];
    assert Expand(key, matched, [], []) == "$" + Expand([], matched, [], []);
  }
}
