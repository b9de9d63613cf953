/**
 * JavaScript values as the table layer sees them: the contents of row
 * fields, of filter values and of settings documents, together with the two
 * tests the source applies to them (lodash `isEmpty` and JavaScript
 * truthiness).
 */
module Values {

  datatype Option<+T> = None | Some(value: T) {
    /** `x ?? default` */
    function GetOr(default: T): T {
      if Some? then value else default
    }
  }

  /**
   * A JavaScript value. Numbers are reals (NaN and the infinities are not
   * modelled); a `Date` is its time value in milliseconds; `Ref` is a
   * Firestore DocumentReference, known by its path.
   */
  datatype Value =
    | Undefined
    | Null
    | Bool(b: bool)
    | Number(n: real)
    | Str(s: string)
    | Date(millis: int)
    | Arr(items: seq<Value>)
    | Obj(fields: map<string, Value>)
    | Ref(path: string)

  /**
   * lodash `isEmpty`: nullish values are empty; strings and arrays are empty
   * when they have length 0; plain objects when they have no own enumerable
   * key. Booleans, numbers and dates have no own enumerable keys, so lodash
   * calls every one of them empty, `0` and `true` alike. A DocumentReference
   * instance carries own properties and is not empty.
   */
  predicate IsEmpty(v: Value) {
    match v
    case Undefined => true
    case Null => true
    case Bool(_) => true
    case Number(_) => true
    case Date(_) => true
    case Str(s) => |s| == 0
    case Arr(items) => |items| == 0
    case Obj(fields) => |fields| == 0
    case Ref(_) => false
  }

  /** JavaScript truthiness (`if (v)`, `v ? a : b`, `Boolean(v)`). */
  predicate Truthy(v: Value) {
    match v
    case Undefined => false
    case Null => false
    case Bool(b) => b
    case Number(n) => n != 0.0
    case Str(s) => s != ""
    case _ => true
  }

  /** `v === null || v === undefined`, the test behind `??` and `?.`. */
  predicate IsNullish(v: Value) {
    v.Undefined? || v.Null?
  }
}
