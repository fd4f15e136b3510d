/** The JavaScript values the extension reads and writes: widget values, the
    node's `workspace_codename`, and the node definitions the host passes to
    `beforeRegisterNodeDef`. Only the parts of JavaScript's semantics that the
    extension relies on are modelled: nullishness, truthiness and property reads. */
module JsValues {

  datatype Option<+T> = None | Some(value: T)

  /** A JavaScript value. Numbers are reals, so NaN is not representable. */
  datatype JsValue =
    | Undefined
    | Null
    | Bool(b: bool)
    | Num(n: real)
    | Str(s: string)
    | Arr(items: seq<JsValue>)
    | Obj(fields: map<string, JsValue>)

  /** `v === undefined || v === null`, which is also what `v == undefined` tests. */
  predicate IsNullish(v: JsValue) {
    v.Undefined? || v.Null?
  }

  /** ECMAScript ToBoolean: `undefined`, `null`, `false`, `0` and `""` are falsy. */
  predicate IsTruthy(v: JsValue) {
    match v
    case Undefined => false
    case Null => false
    case Bool(b) => b
    case Num(n) => n != 0.0
    case Str(s) => s != ""
    case Arr(_) => true
    case Obj(_) => true
  }

  /** Decimal digits of `n`, the property key JavaScript uses for `v[n]` on a plain object. */
  function Decimal(n: nat): (r: string)
    ensures |r| >= 1
    decreases n
  {
    var digit := ('0' as int + n % 10) as char;
    if n < 10 then [digit] else Decimal(n / 10) + [digit]
  }

  /** `v.key` for a named (non-index) key on a value that is not nullish (a read
      from `undefined` or `null` throws, and the extension guards against it).
      Only an object's own fields are modelled: the keys the extension reads are
      not properties of strings, arrays, numbers or booleans. */
  function Property(v: JsValue, key: string): (r: JsValue)
    requires !IsNullish(v)
    ensures r != Undefined ==> v.Obj? && key in v.fields
    ensures v.Obj? && key in v.fields ==> r == v.fields[key]
  {
    if v.Obj? && key in v.fields then v.fields[key] else Undefined
  }

  /** `v[i]` for an index `i` on a value that is not nullish: an array element, a
      one-character string, or the field named by the decimal index on an object. */
  function Element(v: JsValue, i: nat): (r: JsValue)
    requires !IsNullish(v)
    ensures v.Arr? ==> (r != Undefined ==> i < |v.items|) && (i < |v.items| ==> r == v.items[i])
    ensures v.Str? ==> (r != Undefined <==> i < |v.s|)
    ensures v.Str? && i < |v.s| ==> r == Str([v.s[i]])
    ensures v.Obj? ==> r == Property(v, Decimal(i))
    ensures v.Bool? || v.Num? ==> r == Undefined
  {
    match v
    case Arr(items) => if i < |items| then items[i] else Undefined
    case Str(s) => if i < |s| then Str([s[i]]) else Undefined
    case Obj(fields) => var key := Decimal(i); if key in fields then fields[key] else Undefined
    case _ => Undefined
  }
}
