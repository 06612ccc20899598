/**
 * The PHP values the environment store handles, the errors its operations
 * raise, and the PHP runtime functions it calls but does not define.
 */
module PhpValues {

  datatype Option<T> = None | Some(value: T) {
    function GetOr(default: T): T {
      match this
      case Some(v) => v
      case None => default
    }
  }

  /** The exceptions the store raises. */
  datatype Error =
    | TypeError         // a value of the wrong type crosses a typed boundary under strict_types
    | ValueError        // `putenv` refuses a setting that is empty or starts with `=`
    | JsonException     // `json_encode(..., JSON_THROW_ON_ERROR)` fails
    | RuntimeException  // a file to load is missing or unreadable

  datatype Result<T> = Ok(value: T) | Err(error: Error)

  /** Success or the exception that ended an operation returning `void`. */
  datatype Outcome = Pass | Fail(error: Error)

  /** A PHP array key: arrays normalise decimal-integer string keys to ints. */
  datatype Key = IntKey(i: int) | StrKey(s: string)

  /**
   * A PHP value. Floats are kept abstract: `Float(literal)` is the double that
   * PHP's `(float)` conversion gives for `literal`. Arrays keep their entry order.
   */
  datatype Value =
    | Null
    | Bool(b: bool)
    | Int(i: int)
    | Float(literal: string)
    | Str(s: string)
    | Arr(entries: seq<(Key, Value)>)
    | Obj(className: string, props: seq<(Key, Value)>)

  /**
   * The PHP library functions the store relies on, left uninterpreted:
   *  - jsonDecode: `json_decode($s, true, 512)`, `None` when `json_last_error()` reports an error;
   *  - jsonEncode: `json_encode($v, JSON_THROW_ON_ERROR)`, `None` when it throws;
   *  - serialize, unserialize: PHP's object serialization;
   *  - floatToString: the string PHP writes for the float `Float(literal)`;
   *  - doubleToInt: `(int)` of a numeric string that PHP reads as a double (one
   *    written with an exponent, or an integer outside the 64-bit range).
   */
  datatype Runtime = Runtime(
    jsonDecode: string -> Option<Value>,
    jsonEncode: Value -> Option<string>,
    serialize: Value -> string,
    unserialize: string -> Value,
    floatToString: string -> string,
    doubleToInt: string -> int)

  /** PHP truthiness of the `array|bool` values `jsonParse` returns. */
  predicate Truthy(v: Value)
    requires v.Arr? || v.Bool?
  {
    if v.Bool? then v.b else v.entries != []
  }
}
