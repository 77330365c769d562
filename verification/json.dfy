/** Request bodies and stored documents as the JavaScript code sees them after
    `express.json()`: untyped JSON values, plus `undefined` for a missing key. */
module Json {
  import opened JsText

  datatype Value =
    | Undefined
    | Null
    | Bool(b: bool)
    | Num(n: real)
    | Str(s: string)
    | Arr(items: seq<Value>)
    | Obj(fields: map<string, Value>)

  /** JavaScript truthiness: `undefined`, `null`, `false`, `0` and `""` are falsy. */
  predicate Truthy(v: Value) {
    match v
    case Undefined => false
    case Null => false
    case Bool(b) => b
    case Num(n) => n != 0.0
    case Str(s) => s != []
    case Arr(_) => true
    case Obj(_) => true
  }

  /** `v || fallback`. */
  function OrElse(v: Value, fallback: Value): Value {
    if Truthy(v) then v else fallback
  }

  /** `typeof v === "object"` for a value that is also truthy: a plain object
      or an array (`null` is an object too, but it is falsy). */
  predicate IsObjectLike(v: Value) {
    v.Obj? || v.Arr?
  }

  /** `v[key]` for a property name: present only on plain objects here (the
      application never reads a named property of an array). */
  function Get(v: Value, key: string): Value {
    if v.Obj? && key in v.fields then v.fields[key] else Undefined
  }

  /** `v[n]` for an array and a numeric index: only a whole number inside the
      array names an element, anything else reads as `undefined`. */
  function Index(v: Value, n: real): (r: Value)
    ensures r != Undefined ==> v.Arr? && n.Floor as real == n && 0 <= n.Floor < |v.items|
  {
    if v.Arr? && n.Floor as real == n && 0 <= n.Floor < |v.items| then v.items[n.Floor] else Undefined
  }

  /** `isNonEmptyString(v)`: a string that is not all whitespace. */
  predicate IsNonEmptyString(v: Value) {
    v.Str? && !IsBlank(v.s)
  }

  /** The same predicate in the source's own terms: a string whose trim has
      positive length. */
  lemma IsNonEmptyStringIff(v: Value)
    ensures IsNonEmptyString(v) <==> v.Str? && |Trim(v.s)| > 0
  {
    if v.Str? {
      TrimEmptyIff(v.s);
    }
  }

  lemma NonEmptyStringIsTruthy(v: Value)
    requires IsNonEmptyString(v)
    ensures Truthy(v)
  {
  }

  /** The outcome of JavaScript's `Number(x)`, which the model takes as given:
      a finite number, or NaN/Infinity. */
  datatype NumberValue = Finite(value: real) | NotFinite {

    /** `Number.isFinite(d) && d > 0`. */
    predicate IsPositive() {
      Finite? && value > 0.0
    }
  }
}

/** Response of a route handler: a success status with a body, or an error
    status with the `message` the route sends. */
module Http {

  const OK: nat := 200
  const CREATED: nat := 201
  const BAD_REQUEST: nat := 400
  const UNAUTHORIZED: nat := 401
  const FORBIDDEN: nat := 403
  const NOT_FOUND: nat := 404
  const CONFLICT: nat := 409
  const SERVER_ERROR: nat := 500

  datatype Response<T> = Ok(status: nat, body: T) | Error(status: nat, message: string)

  /** A route's response together with the collection `S` after the request. */
  datatype Handled<T, S> = Handled(response: Response<T>, store: S)

  /** Any failure the route's `catch` turns into a generic 500. */
  function ServerError<T>(): Response<T> {
    Error(SERVER_ERROR, "Server error")
  }
}

/** `mongoose.isValidObjectId`, for the string ids that reach the routes. */
module ObjectIds {

  predicate IsHexDigit(c: char) {
    ('0' <= c <= '9') || ('a' <= c <= 'f') || ('A' <= c <= 'F')
  }

  /** A 24-digit hexadecimal string, or any 12-character string (read as
      twelve raw bytes), is accepted as an ObjectId. */
  predicate IsValidObjectId(id: string) {
    |id| == 12 || (|id| == 24 && forall i :: 0 <= i < |id| ==> IsHexDigit(id[i]))
  }
}
