/** The JavaScript runtime values and exceptions that the fragment core inspects. */
module Js {

  newtype byte = x: int | 0 <= x < 256

  /** A string the runtime never returns empty: a UUID from crypto.randomUUID()
      or the ISO-8601 text of new Date().toISOString(). */
  type NonEmptyString = s: string | s != "" witness "0"

  /** The values the Fragment constructor and setData can be handed.
      Numbers are reals; NaN and the infinities are not modelled. */
  datatype Value =
    | Undefined
    | Null
    | Bool(b: bool)
    | Num(n: real)
    | Str(s: string)
    | Date(iso: string)        // a Date object whose toISOString() is `iso`
    | Buffer(bytes: seq<byte>) // a Node.js Buffer

  /** JavaScript truthiness: undefined, null, false, 0 and "" are falsy; objects are truthy. */
  predicate Truthy(v: Value) {
    match v
    case Undefined => false
    case Null => false
    case Bool(b) => b
    case Num(n) => n != 0.0
    case Str(s) => s != ""
    case Date(_) => true
    case Buffer(_) => true
  }

  /** What a `throw` in the core, or in the runtime under it, carries. */
  datatype Thrown =
    | Error(message: string)    // new Error(message)
    | Raised(text: string)      // throw 'text': a bare string, not an Error
    | TypeError                 // raised by the runtime (a method called on null, Buffer.from(undefined))
    | SyntaxError               // raised by JSON.parse on malformed text
    | CodecError                // raised by the image codec on bytes it cannot decode
    | StoreError                // raised by the store when asked to delete a missing record
    | Rewrapped(cause: Thrown)  // new Error(cause): an Error whose message is String(cause)
}
