/** The JavaScript values a request body can carry in its `categories`
    field, with the two things the handler does with them: test them for
    truthiness (the guard) and turn them into text (template interpolation
    in the legacy prompt). */
module JsValues {
  import opened Strings

  /** A value produced by the JSON body parser, or `Undefined` for a missing
      field. Numbers are modelled as integers. An object's own properties
      are not represented, so an object always prints as "[object Object]",
      which JavaScript does only while it has no own `toString` key. */
  datatype JsValue =
    | Undefined
    | Null
    | Bool(b: bool)
    | Number(n: int)
    | Str(s: string)
    | Array(elems: seq<JsValue>)
    | Object

  /** JavaScript truthiness: `undefined`, `null`, `false`, `0` and `""` are
      falsy; every array and every object is truthy, empty or not. */
  function Truthy(v: JsValue): (t: bool)
    ensures v.Array? || v.Object? ==> t
    ensures v.Undefined? || v.Null? ==> !t
  {
    match v
    case Undefined => false
    case Null => false
    case Bool(b) => b
    case Number(n) => n != 0
    case Str(s) => s != ""
    case Array(_) => true
    case Object => true
  }

  /** `String(v)`, which is what `${v}` in a template literal produces. An
      array prints its elements joined by commas, with `null` and
      `undefined` elements printed as nothing. */
  function Text(v: JsValue): (r: string)
    ensures r == [] ==> v == Str([]) || v.Array?
    decreases v
  {
    match v
    case Undefined => "undefined"
    case Null => "null"
    case Bool(b) => if b then "true" else "false"
    case Number(n) => IntText(n)
    case Str(s) => s
    case Array(es) =>
      Join(seq(|es|, i requires 0 <= i < |es| => if es[i].Undefined? || es[i].Null? then "" else Text(es[i])), ",")
    case Object => "[object Object]"
  }

  /** A string prints as itself, and an array prints as its elements' texts
      separated by ",": splitting its text at "," gives them back, one per
      element, when no element's text contains a comma. */
  lemma ArrayTextSplits(es: seq<JsValue>)
    requires |es| >= 1
    requires forall i :: 0 <= i < |es| ==> ',' !in Text(es[i])
    ensures forall s :: Text(Str(s)) == s
    ensures Split(Text(Array(es)), ',') ==
      seq(|es|, i requires 0 <= i < |es| => if es[i].Undefined? || es[i].Null? then "" else Text(es[i]))
  {
    var parts := seq(|es|, i requires 0 <= i < |es| => if es[i].Undefined? || es[i].Null? then "" else Text(es[i]));
    assert Text(Array(es)) == Join(parts, ",");
    SplitJoin(parts, ',');
  }
}
