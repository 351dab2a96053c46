/** The values the extractor produces: type tags, materialised defaults and the
    argument descriptors (the typedefs ArgumentParameters, FunctionArgument and
    DestructuredFunctionArgument). */
module Values {

  import opened Options
  import NumberText

  /** The `type` strings. `typeof Infinity` and `typeof NaN` are both "number". */
  datatype TypeTag = Any | Number | Boolean | String | Object | Array

  /** A materialised default value. A number, a big integer and a regular
      expression keep the text they are built from. */
  datatype DefaultValue =
    | Undefined
    | Null
    | Num(text: string)
    | BigInt(digits: string)
    | Bool(b: bool)
    | Str(chars: string)
    | EmptyObject
    | EmptyArray
    | Regex(body: string, flags: string)
    | Infinity
    | NaN

  /** JavaScript truthiness; `!argData.default` is its negation. Objects,
      arrays and regular expressions are truthy; `undefined`, `null`, `false`,
      the empty string, zero, `0n` and NaN are not. */
  predicate Truthy(v: DefaultValue) {
    match v
    case Undefined => false
    case Null => false
    case Num(text) => !NumberText.NumberIsZeroOrNaN(text)
    case BigInt(digits) => !NumberText.BigIntIsZero(digits)
    case Bool(b) => b
    case Str(chars) => chars != []
    case EmptyObject => true
    case EmptyArray => true
    case Regex(_, _) => true
    case Infinity => true
    case NaN => false
  }

  /** What `typification` returns. */
  datatype Typed = Typed(tag: TypeTag, default: DefaultValue, required: bool)

  /** One property of a destructuring pattern: its name and its typification,
      and never a `destructured` flag or `properties` of its own. */
  datatype Prop = Prop(name: string, tag: TypeTag, default: DefaultValue, required: bool)

  /** One argument. `default` is `None` where the source deletes the attribute,
      `properties` is `None` where the source never sets it. */
  datatype Descriptor = Descriptor(
    name: string,
    tag: TypeTag,
    default: Option<DefaultValue>,
    required: bool,
    destructured: bool,
    properties: Option<seq<Prop>>)

  /** The extractor's argument: either not a function (`typeof func !==
      'function'`) or a function, seen through the text `func.toString()`
      returns. */
  datatype Input = NotFunction | Function(source: string)
}
