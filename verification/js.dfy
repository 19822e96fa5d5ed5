/** The JavaScript values that reach the bug tracker's pure code (fields of
    a parsed JSON body, filter objects, component props) and the language
    rules the code applies to them: truthiness, `String(v)`, `===` and
    `parseInt(v)`. */
module Js {
  import opened Wrappers
  import Numbers
  import Strings

  /** `Number.MAX_SAFE_INTEGER`. */
  const MaxSafeInteger: int := 9007199254740991

  /** Numbers are modelled as safe integers, whose `String` form is plain
      decimal notation. */
  type SafeInt = n: int | -MaxSafeInteger <= n <= MaxSafeInteger

  /** `Arr` is an array and `Obj` any other object. Every object or array
      that reaches the code is a freshly parsed value, so no two of them
      are the same reference. An `Obj` has no own `toString` key, so
      `String` of it is `[object Object]`. */
  datatype JsValue =
    | Undefined
    | Null
    | Bool(b: bool)
    | Num(n: SafeInt)
    | Str(s: string)
    | Arr(elems: seq<JsValue>)
    | Obj

  /** A value `===` compares by content rather than by reference. */
  predicate IsPrimitive(v: JsValue) {
    !v.Arr? && !v.Obj?
  }

  /** What `if (v)`, `!v` and `v || d` test. */
  predicate Truthy(v: JsValue) {
    match v
    case Undefined => false
    case Null => false
    case Bool(b) => b
    case Num(n) => n != 0
    case Str(s) => s != ""
    case Arr(_) => true
    case Obj => true
  }

  /** The falsy values, listed one by one. */
  lemma FalsyValues(v: JsValue)
    ensures !Truthy(v) <==> v in {Undefined, Null, Bool(false), Num(0), Str("")}
  {
  }

  /** `v || d`. */
  function Or(v: JsValue, d: JsValue): (r: JsValue)
    ensures Truthy(v) ==> r == v
    ensures !Truthy(v) ==> r == d
  {
    if Truthy(v) then v else d
  }

  /** `v || d` is one of its operands, and is truthy exactly when one of
      them is; a truthy default makes it truthy whatever `v` is. */
  lemma OrLaws(v: JsValue, d: JsValue)
    ensures Or(v, d) == v || Or(v, d) == d
    ensures Truthy(Or(v, d)) <==> Truthy(v) || Truthy(d)
    ensures Or(Or(v, d), d) == Or(v, d)
  {
  }

  /** `String(v)`. An array prints its elements joined with `,`, where an
      `undefined` or `null` element prints as nothing. A number prints in
      a form `parseInt` reads back. */
  function ToString(v: JsValue): (s: string)
    ensures v.Num? ==> Numbers.ParseInt(s) == Some(v.n)
    ensures v.Str? ==> s == v.s
    decreases v
  {
    match v
    case Undefined => "undefined"
    case Null => "null"
    case Bool(b) => if b then "true" else "false"
    case Num(n) =>
      Numbers.DecimalRoundTrip(n);
      Numbers.IntToDecimal(n)
    case Str(s) => s
    case Arr(elems) =>
      Strings.Join(seq(|elems|, i requires 0 <= i < |elems| =>
                         if elems[i].Undefined? || elems[i].Null? then "" else ToString(elems[i])), ",")
    case Obj => "[object Object]"
  }

  /** An array of one element that is not `undefined` or `null` prints as
      that element. */
  lemma SingletonArrayString(e: JsValue)
    requires !e.Undefined? && !e.Null?
    ensures ToString(Arr([e])) == ToString(e)
  {
  }

  /** `a === b`. Distinct objects are never identical. */
  predicate StrictEquals(a: JsValue, b: JsValue) {
    a == b && IsPrimitive(a)
  }

  /** `===` is symmetric and transitive, and reflexive exactly on the
      values it compares by content. */
  lemma StrictEqualsLaws(a: JsValue, b: JsValue, c: JsValue)
    ensures StrictEquals(a, b) ==> StrictEquals(b, a)
    ensures StrictEquals(a, b) && StrictEquals(b, c) ==> StrictEquals(a, c)
    ensures StrictEquals(a, a) <==> IsPrimitive(a)
  {
  }

  /** `parseInt(v)` without a radix; `None` is `NaN`. */
  function ParseIntOf(v: JsValue): Option<int> {
    Numbers.ParseInt(ToString(v))
  }

  /** `parseInt` of a (safe integer) number is that number. */
  lemma ParseIntOfNumber(n: SafeInt)
    ensures ParseIntOf(Num(n)) == Some(n)
  {
    Numbers.DecimalRoundTrip(n);
  }

  /** `parseInt` of `undefined`, `null`, a boolean or a plain object is
      `NaN`: none of their string forms starts with a digit. */
  lemma ParseIntOfNonNumeric(v: JsValue)
    requires !v.Num? && !v.Str? && !v.Arr?
    ensures ParseIntOf(v) == None
  {
    Numbers.ParseIntNoDigit(ToString(v));
  }

  /** `parseInt` of a one-element array parses its element: `parseInt([3])`
      is 3. */
  lemma ParseIntOfSingletonArray(e: JsValue)
    requires !e.Undefined? && !e.Null?
    ensures ParseIntOf(Arr([e])) == ParseIntOf(e)
  {
    SingletonArrayString(e);
  }
}
