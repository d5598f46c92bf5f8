/** JavaScript values as the two watch faces observe them: what JSON.parse
    can produce, plus `undefined` for a property that is not there. */
module JsValues {

  datatype Option<T> = None | Some(value: T)

  datatype JsValue =
    | Undefined
    | Null
    | Bool(b: bool)
    | Num(n: real)
    | Str(s: string)
    | Arr(items: seq<JsValue>)
    | Obj(fields: map<string, JsValue>)

  /** JavaScript truthiness: undefined, null, false, 0 and "" are falsy. */
  predicate Truthy(v: JsValue) {
    match v
    case Undefined => false
    case Null => false
    case Bool(b) => b
    case Num(n) => n != 0.0
    case Str(s) => s != []
    case Arr(_) => true
    case Obj(_) => true
  }

  /** `v[name]` for a name that is neither an array index nor a built-in
      property (every name the watch faces read is of that kind).
      None stands for the TypeError thrown when `v` is null or undefined. */
  function Get(v: JsValue, name: string): (r: Option<JsValue>)
    ensures r.None? <==> v.Undefined? || v.Null?
    ensures r.Some? && r.value != Undefined ==> v.Obj? && name in v.fields && r.value == v.fields[name]
    ensures v.Obj? && name in v.fields ==> r == Some(v.fields[name])
    ensures v.Obj? && name !in v.fields ==> r == Some(Undefined)
  {
    match v
    case Undefined => None
    case Null => None
    case Obj(fields) => Some(if name in fields then fields[name] else Undefined)
    case _ => Some(Undefined)
  }

  /** `a || b` */
  function Or(a: JsValue, b: JsValue): JsValue {
    if Truthy(a) then a else b
  }
}
