/** The value `JSON.parse` returns, and how a template literal renders a
    property read from it. The parser itself is not modelled: the route
    takes it as a parameter. */
module JsonValue {
  import opened Common
  import JsStrings

  /** A parsed JSON document. A number is carried as the text JavaScript's
      `Number.prototype.toString` gives for it. */
  datatype Json =
    | JNull
    | JBool(b: bool)
    | JNumber(text: string)
    | JString(s: string)
    | JArray(items: seq<Json>)
    | JObject(fields: map<string, Json>)

  /** Whether `String(v)` returns. A parsed object converts through its
      `toString` member, or failing that its `valueOf` member; the inherited
      ones give "[object Object]", but an own "toString" field is never
      callable (JSON holds no functions) and the inherited `valueOf` returns
      the object itself, so the conversion throws. An array converts by
      joining its elements, so it throws when one of them does. */
  predicate Stringifiable(v: Json)
    decreases v
  {
    match v
    case JObject(fields) => "toString" !in fields
    case JArray(items) => forall i :: 0 <= i < |items| ==> Stringifiable(items[i])
    case _ => true
  }

  /** The TypeError message of a conversion that finds no callable
      `toString` or `valueOf`. */
  const ToPrimitiveMessage: string := "Cannot convert object to primitive value"

  /** `String(v)`, the conversion a template literal applies, with `None`
      where it throws: arrays are joined with "," (a null element gives the
      empty text) and an object without its own "toString" field renders as
      "[object Object]". */
  function ToText(v: Json): (r: Option<string>)
    ensures r.Some? <==> Stringifiable(v)
    ensures v.JString? ==> r == Some(v.s)
    ensures v.JNumber? ==> r == Some(v.text)
    ensures v == JArray([]) ==> r == Some("")
    ensures v.JArray? && |v.items| == 1 && !v.items[0].JNull? ==> r == ToText(v.items[0])
    decreases v
  {
    match v
    case JNull => Some("null")
    case JBool(b) => Some(if b then "true" else "false")
    case JNumber(t) => Some(t)
    case JString(s) => Some(s)
    case JArray(items) =>
      if exists i :: 0 <= i < |items| && ToText(items[i]).None? then None
      else
        Some(JsStrings.Join(seq(|items|, i requires 0 <= i < |items| =>
          if items[i].JNull? then "" else ToText(items[i]).value), ","))
    case JObject(fields) => if "toString" in fields then None else Some("[object Object]")
  }

  /** The one property the route reads from the parsed plan. No JSON value
      inherits a property of this name (strings, arrays and plain objects
      have none), so an absent own field reads as undefined. */
  const CostKey: string := "total_estimated_cost"

  /** The TypeError message of reading the estimated total of null. */
  const NullReadMessage: string := "Cannot read properties of null (reading 'total_estimated_cost')"

  /** Reading the estimated total of `plan` and rendering it cannot throw:
      the plan is not null, and the field, when present, converts to text. */
  predicate Readable(plan: Json) {
    !plan.JNull? && (plan.JObject? && CostKey in plan.fields ==> Stringifiable(plan.fields[CostKey]))
  }

  /** The text a template literal gives for `plan.total_estimated_cost`, or
      the message of the TypeError it throws: a read on null throws, a field
      that cannot be converted throws, a missing field renders as
      "undefined" and a string field renders as itself. */
  function PropertyText(plan: Json): (r: Result<string, string>)
    ensures r.Success? <==> Readable(plan)
    ensures plan.JNull? ==> r == Failure(NullReadMessage)
    ensures !plan.JNull? && !Readable(plan) ==> r == Failure(ToPrimitiveMessage)
    ensures plan.JObject? && CostKey in plan.fields && plan.fields[CostKey].JString? ==>
              r == Success(plan.fields[CostKey].s)
    ensures !plan.JNull? && !(plan.JObject? && CostKey in plan.fields) ==> r == Success("undefined")
  {
    match plan
    case JNull => Failure(NullReadMessage)
    case JObject(fields) =>
      if CostKey !in fields then Success("undefined")
      else if ToText(fields[CostKey]).None? then Failure(ToPrimitiveMessage)
      else Success(ToText(fields[CostKey]).value)
    case _ => Success("undefined")
  }

  /** A nested array renders as the flat comma-separated list of its
      scalars, as JavaScript's join recurses. */
  lemma NestedArrayText()
    ensures ToText(JArray([JArray([JNumber("1"), JNumber("2")]), JNull, JString("x")])) == Some("1,2,,x")
  {
    var xs := [JNumber("1"), JNumber("2")];
    PairText(xs, "1", "2");
    assert "1" + "," + "2" == "1,2";
    var ys := [JArray(xs), JNull, JString("x")];
    assert ToText(ys[0]) == Some("1,2") && ToText(ys[1]).Some? && ToText(ys[2]) == Some("x");
    assert forall i :: 0 <= i < |ys| ==> ToText(ys[i]).Some?;
    var outer := seq(|ys|, i requires 0 <= i < |ys| => if ys[i].JNull? then "" else ToText(ys[i]).value);
    assert outer == ["1,2", "", "x"];
    assert JsStrings.Join(["", "x"], ",") == "" + "," + JsStrings.Join(["x"], ",");
    assert JsStrings.Join(outer, ",") == "1,2" + "," + ",x";
    assert "1,2" + "," + ",x" == "1,2,,x";
  }

  /** Two numbers render joined by ",". */
  lemma PairText(xs: seq<Json>, a: string, b: string)
    requires xs == [JNumber(a), JNumber(b)]
    ensures ToText(JArray(xs)) == Some(a + "," + b)
  {
    assert forall i :: 0 <= i < |xs| ==> ToText(xs[i]).Some?;
    var texts := seq(|xs|, i requires 0 <= i < |xs| => if xs[i].JNull? then "" else ToText(xs[i]).value);
    assert texts == [a, b];
    assert JsStrings.Join([a, b], ",") == a + "," + JsStrings.Join([b], ",");
  }

  /** An object with its own "toString" field cannot be converted to text,
      nor can an array that holds one, however deep; an object without that
      field renders as "[object Object]" even when it has its own "valueOf". */
  lemma ToStringFieldThrows(fields: map<string, Json>, other: map<string, Json>)
    requires "toString" in fields && "toString" !in other
    ensures ToText(JObject(fields)) == None
    ensures ToText(JArray([JNull, JArray([JObject(fields)])])) == None
    ensures ToText(JObject(other)) == Some("[object Object]")
  {
    var inner := JArray([JObject(fields)]);
    assert !Stringifiable(inner.items[0]);
    assert !Stringifiable(JArray([JNull, inner]).items[1]);
  }
}
