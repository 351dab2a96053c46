# pragma-get-function-args in Dafny

This project models `index.js` of pragma-get-function-args. Given a function, that module reads its source text and returns one descriptor per parameter. A descriptor holds:

- `name`, `type` and `default`;
- `required`;
- `destructured`;
- `properties`, the keys of a destructuring pattern.

The model follows the code's two parts:

- **`typification`** turns an optional default-value text into a type tag, a materialised default and a `required` flag. Its checks are a chain of independent `if`s, where a later match overwrites an earlier one.
- **The exported extractor** works in these steps:
  1. It collapses white space in the source.
  2. It finds the parameter text: a bare word before `=>`, or the text between the first `(` and the next `)`.
  3. It strips the parentheses.
  4. It runs the destructuring pre-pass. Each `{…}` span is typified key by key. The span's first occurrence is replaced by the lower-cased concatenation of its key names, and that placeholder is remembered.
  5. It splits on every comma.
  6. It describes each clause.

Modules:

- `Options`: `Option`, the model of JavaScript `undefined` for a missing element.
- `JsText`: the string operations the code uses, written as functions with their own contracts. These are `trim`, `indexOf`, `String.prototype.replace` with a string pattern (including the `$` replacement patterns), `split(/\s*c\s*/)` and ASCII `toLowerCase`.
- `NumberText`: when `Number(text)` or `BigInt(text)` of a numeric default is falsy. This is needed because a falsy default is deleted.
- `Values`: the type tags, default values, descriptors and truthiness.
- `Typifier`: `typification` (`Typify`), proved equal to a first-match reference classifier (`Literal`).
- `Extractor`: the extractor with the corrected lookup (`Extract`). It also has reference readings of a clause (`Reading`, `Plain`) that the extractor is proved to agree with.
- `PrepassText`: what the pre-pass does to a text whose patterns are laid out plainly, and the worked sources `(x, {k1, k2}) => 0`, `(x, {k1, k2} = {}, y) => 0`, `({ k1, k2 }) => 0` and `(a = f(v), b) => 0`.
- `AsWritten`: the extractor as published (`ExtractAsWritten`). It differs in the two places listed under Findings.

JavaScript's `typeof func` and `func.toString()` are host reflection. They become the input datatype `Input = NotFunction | Function(source)`.

## Model

| member | source | states |
|---|---|---|
| Typifier.Typify | index.js:6-59 | `required` holds exactly when no default text, or an empty one, is given. No text gives type `any` with default `undefined`. A present text gives exactly what the first-match classifier `Literal` gives, so the overwriting chain of `if`s agrees with a priority order. |
| Typifier.Literal | index.js:10-12 | A default text that is present is never required, whatever literal form it has. |
| Typifier.LiteralFormsDisjoint | index.js:20-55 | The boolean words, `null` and `undefined` are told apart case-insensitively. None of them can be the exact words `Infinity` or `NaN`, so the later checks of the chain cannot overwrite one another's result. |
| Typifier.NumberRoundTrip | index.js:13-19 | A run of decimal digits gives type `number` with that text as its numeric default. The same digits followed by `n` give type `number` with a big integer built from the digits. |
| Typifier.BigIntFirstNOnly | index.js:16-18 | Only the first `n` is removed, so the text handed to `BigInt` for `1n2n` is `12n`. `BigInt` rejects that text (see Left out). |
| Typifier.BooleanWords | index.js:20-23 | `true` or `false` in any letter case gives type `boolean`. The value is true only for exactly `true`. |
| Typifier.BooleanCaseExample | index.js:20-23 | `True` gives `boolean` with `false`; `true` gives `true`; `false` gives `false`. |
| Typifier.NullAndUndefinedStayAny | index.js:50-55 | `null` and `undefined` in any case set that default but keep type `any`, and the result is not required. |
| Typifier.SpecialNumbers | index.js:42-49 | Exactly `Infinity` and `NaN` give type `number` with those values. `nan` is not recognised and stays `any`/`undefined`. |
| Typifier.StripQuotes | index.js:26 | The result is no longer than the text and neither begins nor ends with a quote character. |
| Typifier.StripQuotesOfWrapped | index.js:26 | Removing the quote runs from runs + body + runs gives back the body, when the body does not begin or end with a quote. |
| Typifier.StringRoundTrip | index.js:24-27 | A text starting with a quote gives type `string`. The default is the body between the leading and trailing quote runs, with interior quotes and backslashes kept. |
| Typifier.ContainerDefaults | index.js:28-35 | A leading `{` gives `object` with an empty-object default. A leading `[` gives `array` with an empty-array default. This holds whatever follows the first character. |
| Typifier.LastIndexOfChar | index.js:38 | The index returned holds the character, and no later position does. |
| Typifier.RegexDefault | index.js:36-41 | The flags contain no `/` and are a proper suffix of the text. The body is a prefix of the text after the leading `/`. |
| Typifier.RegexRoundTrip | index.js:38-40 | `/body/flags` with slash-free flags splits back into exactly that body and those flags. |
| Typifier.RegexWithoutClosingSlash | index.js:38-40 | Without a second `/`, the whole rest of the text serves as both the body and the flags. |
| Typifier.RegexLiteral | index.js:36-41 | `/body/flags` gives type `object` with the regular expression built from that body and those flags. |
| JsText.SplitAroundTrimmed | index.js:95-99 | Splitting on a comma or `=` together with the white space around it, then trimming the pieces, gives the same pieces as a plain split on the character followed by trimming. |
| JsText.SplitAroundCount | index.js:111 | The regular-expression split gives one piece more than the number of separator characters. |
| JsText.ReplaceWithoutDollar | index.js:105 | Without a `$` in the replacement, `replace` with a string pattern is a literal replacement of the first occurrence. |
| JsText.ReplaceLiterally | index.js:105 | Without a `$`, `replace` puts the replacement at the first occurrence of the pattern and keeps the text around it. |
| JsText.TrimIdempotent | index.js:99-100 | Trimming a second time changes nothing. |
| JsText.SplitOfTrimmed | index.js:99-100 | Trimming the text before splitting does not change the trimmed pieces. |
| Extractor.CollapseSeam | index.js:72 | A white-space run never reaches across a character that is not white space. When `b` starts with such a character, collapsing `a + b` collapses `a` and `b` apart. |
| Extractor.CollapseSpaceRuns | index.js:72 | The result is no longer than the input and is empty exactly when the input is. It has no run of two white-space characters. It holds no characters other than the input's characters and single spaces. |
| Extractor.Normalize | index.js:70-72 | The normalised text has no line break and no run of two white-space characters, and it is no longer than the source. |
| Extractor.NormalizeKeepsContent | index.js:70-72 | Normalising keeps every character that is not white space, in order. |
| Extractor.NormalizeIdempotent | index.js:70-72 | Normalising a normalised text changes nothing. |
| Extractor.ExtractIgnoresLayout | index.js:70-72 | The descriptors are the same for a source and for its normalised form. |
| Extractor.ParamText | index.js:74-82 | A parameter text that is found is non-empty and contains no `)`. |
| Extractor.ArrowParam | index.js:74-82 | A word, optional white space, then `=>` gives the word as the parameter text. |
| Extractor.ParenthesisedParams | index.js:74-82 | With no `(` or `=` before the first `(`, the parameter text is everything up to the next `)`. |
| Extractor.EmptyParens | index.js:74-82 | An empty `()` after a text without `(` or `=` gives no parameter text. |
| Extractor.EmptyParensExtract | index.js:70-82 | A source `h()t` with no `(` or `=` in `h` gives no descriptors, whatever white space and line breaks it holds. |
| Extractor.PrepareParams | index.js:83-84 | The prepared parameter text contains no parenthesis. Every other character occurs in it exactly as often as in the trimmed text. |
| Extractor.ParenDropped | index.js:83-84 | A `(` or `)` inside a text whose ends are not white space is dropped and nothing else changes: `a(b` is prepared as `ab` is. |
| Extractor.PrepareParamsOfPlain | index.js:83-84 | A text without parentheses and without white space at its ends is kept as it is. |
| Extractor.BraceSpans | index.js:91 | Every pattern found has non-empty text between its braces. |
| Extractor.PatternGroup | index.js:91 | A pattern's first group is a final part of the text between its braces, and it is non-empty when that text is. When that text is not all white space, the group is that text without its leading white space. Otherwise the group is its last white-space character alone. |
| Extractor.PatternPropsOfTrimmed | index.js:95-101 | White space around a pattern's key text does not change its properties. |
| Extractor.PatternGroupProps | index.js:91-103 | Taking a pattern's first group keeps the properties of the text between its braces, whenever that text is not all white space, as in `{ a, b }`. |
| Extractor.BraceSpansFound | index.js:91-93 | Some pattern is found exactly when the text has a `{` followed by one or more non-`}` characters and a `}`. An empty `{}` is never a pattern. |
| Extractor.SingleKeyPattern | index.js:91-103 | `{key}` with a simple key is one pattern whose group is that key. Its one property is named `key`, has type `any`, default `undefined` and is required. |
| Extractor.ClauseParts | index.js:99 | A clause yields at least one piece, and every piece is trimmed. |
| Extractor.PropOf | index.js:99-101 | A property is the key's reference reading (`PlainProp`). The first `=`-piece, trimmed, is its name. The typified second piece gives its type, default and `required`. |
| Extractor.PatternProps | index.js:95-103 | There is one property per comma-separated key clause. |
| Extractor.PatternPropsInOrder | index.js:95-103 | The properties follow the keys left to right. Each is the key's reference reading: the first `=`-piece is the name, and the typified second piece gives the rest. |
| Extractor.ApplySpans | index.js:94-107 | The remembered placeholders are the earlier ones plus one per pattern. Entries for other names are unchanged. |
| Extractor.ApplySpansRemembers | index.js:104-106 | A pattern that no later pattern shares a placeholder with is remembered under its placeholder with its own properties. |
| Extractor.GroupsIgnoreText | index.js:104-106 | What is remembered does not depend on the text being rewritten. |
| Extractor.PrepassRemembers | index.js:90-107 | The pre-pass remembers each pattern under its placeholder with its own properties, unless a later pattern has the same placeholder. |
| Extractor.Prepass | index.js:90-109 | Without a pattern the parameter text is kept and nothing is remembered. Otherwise exactly the patterns' placeholders are remembered. |
| Extractor.OneClause | index.js:111-117 | A trimmed clause without `,` or `=` is one clause whose name is the clause itself and which has no default text. |
| Extractor.Clauses | index.js:111 | There is one clause more than the prepared text has commas. |
| Extractor.ClauseReading | index.js:115-116 | The regular-expression split and the trims give the same name and typification as the reference reading. White space around a clause does not change its reading. |
| Extractor.Describe | index.js:114-136 | Both kinds satisfy `WellFormed`. A clause is destructured exactly when its name is a remembered placeholder. It then carries that pattern's properties and keeps the typified default only when it is truthy. Otherwise the descriptor takes the clause's name, and the type, default and `required` flag typified from its default text. |
| Extractor.DescribeReads | index.js:114-136 | In terms of the reference reading: a clause whose name is remembered gives the pattern's descriptor. Its name is the joined key names and its type `object`. It keeps the default only when it is truthy. It is required when some key is required and no default is kept. Any other clause gives its plain reading `Plain`. |
| Extractor.ObjectDefaultKept | index.js:119-133 | A remembered pattern with a `= {…}` default, as in `{foo = false, bar = ''} = {}`, keeps the empty-object default. It is not required, whatever its keys require. |
| Extractor.Extract | index.js:66-139 | A value that is not a function gives `[]`. A source without a parameter text gives `[]`. Every descriptor is `WellFormed`: `properties` is present exactly when destructured. A destructured descriptor has type `object` and its name is the key names joined. It keeps its default only when that is truthy, and it is required exactly when some property is required and no default is kept. |
| Extractor.DescribeEach | index.js:113-134 | There is one descriptor per clause, and the i-th one describes the i-th clause. |
| JsText.SplitAroundPair | index.js:111 | `a, b` splits into `a` and `b`. |
| Extractor.PlainParameterList | index.js:111-136 | Without a destructuring pattern there is one descriptor per comma-separated clause, in order. Each is the clause's plain reference reading. |
| AsWritten.ApplySpansAsWritten | index.js:94-107 | The published pre-pass remembers the same placeholders, with the same properties, as the corrected one. |
| PrepassText.SpellSpans | index.js:91 | Take a text of `{…}` patterns, each after a text without `{` and holding a non-empty, brace-free text, followed by a text with no match, such as one holding an empty `{}`. Its matches are exactly those patterns, in order. |
| PrepassText.EmptyBracesNoMatch | index.js:91 | A text whose every `{` is followed at once by `}` holds no pattern. |
| PrepassText.PlaceholderWithoutBrace | index.js:95-104 | A placeholder holds no `{` when its pattern holds none. |
| PrepassText.RewriteInPlace | index.js:94-107 | In such a text the pre-pass replaces every pattern in place by its placeholder and keeps the text around the patterns. |
| PrepassText.PrepassInPlace | index.js:90-109 | The pre-pass of such a text rewrites it in place. It remembers each placeholder that no later pattern repeats, with its pattern's properties. |
| PrepassText.OnePatternPrepass | index.js:90-107 | A single pattern after a text without `{` gives way to its placeholder. That placeholder is the only name remembered, with the pattern's properties. |
| PrepassText.PatternBeforeTail | index.js:90-107 | The same holds when the pattern is followed by any text with no match of its own. |
| PrepassText.DefaultedPatternPrepass | index.js:90-107 | In `x, {g} = {}, y` with no `{` in `x`, `g` or `y`, the pattern gives way to its placeholder. The empty-object default is kept and adds no match, and only the placeholder is remembered. |
| PrepassText.TwoKeyPattern | index.js:66-139 | Take `(x, {k1, k2}) => 0` with simple names. It gives a plain, required `x` of type `any`. Then comes a destructured parameter named `k1k2`, of type `object`, required and without a default. Its properties are the two keys, each required and of type `any`. |
| PrepassText.DefaultedTwoKeyPattern | index.js:66-139 | A source that normalises to `(x, {k1, k2} = {}, y) => 0` gives three descriptors. `x` and `y` are plain and required. Between them is the destructured `k1k2` of type `object`. It keeps the empty-object default and so is not required, although both of its keys are. |
| PrepassText.PaddedKeysPrepass | index.js:91-107 | `{ k1, k2 }`, padded inside its braces, gives way to `k1k2` lower-cased and remembers the two keys as required properties of type `any`, just as `{k1, k2}` does. |
| PrepassText.CallInDefault | index.js:74-84 | In `(a = f(v), b) => 0` the parameter text ends at the `)` that closes the call, so `b` is lost. Preparing then drops the call's `(`, which leaves the single clause `a = fv`. |
| AsWritten.ApplySpansAgree | index.js:105 | When no placeholder contains `$`, the published pre-pass and the corrected pre-pass give the same text and the same placeholders. |
| AsWritten.DescribeAll | index.js:114-136 | The published assembly throws exactly when some clause's name is inherited from `Object.prototype` and is not a placeholder. Otherwise it returns `Describe` of every clause, in order. |
| AsWritten.ExtractAsWritten | index.js:66-139 | A value that is not a function gives `[]`. Whatever the published code returns is `WellFormed`. |
| AsWritten.AsWrittenAgrees | index.js:105-123 | With no `$` in a placeholder and no inherited name among the clauses, the published code returns exactly what `Extract` gives. |
| AsWritten.SingleParameter | index.js:114-136 | `(name) => 0` with a simple name gives one plain, required parameter `name` of type `any`. The published code gives the same unless the name is inherited, and then it throws. |
| AsWritten.InheritedNameThrows | index.js:119-120 | `(constructor) => 0` throws in the published code. `Extract` gives one plain parameter `constructor`. |
| AsWritten.DollarPlaceholderExpanded | index.js:104-106 | For `({$$}) => 0`, the published code returns one plain parameter `$`. `Extract` returns the destructured parameter `$$` with its one required key `$$`. |

## Left out

- `typeof func` and `func.toString()` (index.js:67-70) are host reflection. The input is given as `NotFunction` or `Function(source)`.
- `Number(text)`, `BigInt(text)` and `new RegExp(body, flags)` (index.js:15, 17, 40) are foreign constructors. Defaults keep their text; only truthiness is computed from it (`NumberText`).
- Errors those constructors raise are not modelled: a `SyntaxError` from `BigInt("1.5")` or from an invalid regular expression.
- Floating-point underflow (for example `1e-400` reading as zero) is not modelled.
- Typifier.Typify: an `n`-suffixed numeric default is `BigInt(digits)` even when `BigInt` would reject the text and throw.
- Typifier.BigIntFirstNOnly: the model gives `BigInt("12n")` for `1n2n`, where the code throws a `SyntaxError` because the text handed to `BigInt` still ends in `n`. The lemma records which text reaches `BigInt`, not a value the code returns.
- `toLowerCase` is modelled for ASCII letters only. This is exact for the words it is compared against (`true`, `false`, `null`, `undefined`) and for the placeholders of ASCII keys.
- With the `m` flag, `^` and `$` also match next to a line terminator. The model anchors them at the text's ends only. Carriage returns and line feeds are removed before any such pattern runs, but U+2028 and U+2029 are not: index.js:72 only collapses runs of two or more white-space characters, so a single one survives. This affects the parameter-list pattern at index.js:74, where `^` can also match after such a character (for `function f(){` U+2028 `g(x)}` the code finds the parameter text `x` after it, and `ParamText` finds none), and the quote and regular-expression patterns at index.js:26 and 39 inside a default text.
- Typifier.RegexDefault: the flags are read as literal text inside the removal pattern `^/|/flags$`. This differs from the published code only for flag texts holding pattern characters, which `new RegExp` rejects anyway.
- The tests expect `name` to be `undefined` for a destructured parameter. The code sets it to the joined key names (index.js:120), and the model follows the code.
- The comma split is not top-level: the code splits on every comma after replacing each pattern's first occurrence (index.js:111), so a comma left in an unreplaced pattern still splits. The model follows the code.
- A parameter named after an `Array.prototype` member is not modelled. After a `__proto__` placeholder those names would be inherited too; the lookup is modelled on a plain object only.
- Extractor.ApplySpans: the rewritten text is stated only for patterns laid out plainly (`PrepassText.PrepassInPlace`). That means no `{` before or inside a pattern, and no match after the last one. The text after the last pattern may hold anything without a match, such as an `= {}` default. A `{` before a pattern is not covered, not even an empty `{}` default between two patterns. There the first occurrence of a pattern can lie elsewhere, for example inside an earlier pattern's text. The model computes it, but no lemma says where it lies.
- Extractor.Prepass: the same limit on the rewritten text as for `ApplySpans`.
- The order of properties in `{name, ...argData}` is not modelled. A descriptor is a record, so the JavaScript key order has no counterpart.
- `typedefs.js` holds type documentation only. It shapes the `Descriptor` and `Prop` datatypes.

## Findings

| source | as written | input that shows it | evidently intended | confidence | as-written member | corrected member |
|---|---|---|---|---|---|---|
| index.js:119-120 | `destructuredArgs?.[name]` on a plain object also finds inherited members such as `constructor`. These are truthy, so `.map` is called on a function and throws a `TypeError`. | `(constructor) => 0` | Only remembered placeholders are looked up, so one plain parameter `constructor` comes out. | not executed | AsWritten.InheritedNameThrows | Extractor.Extract |
| index.js:104-105 | `getBaseArgs.replace(args[0], replacer)` reads the placeholder as a replacement pattern, so `$$` becomes `$`. The clause then no longer names the remembered pattern. | `({$$}) => 0` | The placeholder is inserted literally, giving a destructured parameter `$$` with its key `$$`. | not executed | AsWritten.DollarPlaceholderExpanded | Extractor.Extract |
