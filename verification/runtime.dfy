/**
 The JavaScript and Express vocabulary shared by the route handlers and the
 middleware: request-body values, thrown errors that escape a handler,
 opaque storage errors, and the responses a handler writes.
 */
module Runtime {

  datatype Option<+T> = None | Some(value: T)

  /** A field of a parsed JSON request body as a handler sees it after
      destructuring: absent (`undefined`), JSON `null`, a string, or an
      integral JSON number. */
  datatype JsValue = Undefined | Null | Str(s: string) | Num(n: int)

  /** `v == null` in JavaScript: loose equality with `null` holds for
      `null` and `undefined` and for nothing else. */
  predicate IsNullish(v: JsValue) {
    v.Undefined? || v.Null?
  }

  /** An exception that leaves a handler without being caught by it. */
  datatype Fault =
    | TypeError          // a property read on `undefined`/`null`, or a call of `undefined`
    | ReferenceError(identifier: string)
    | HeadersAlreadySent // a second `res.json` on a response already written

  /** What the storage client throws; the handlers echo it without looking inside. */
  datatype StorageError = RecordNotFound | UniqueViolation | InvalidArgument

  /** `res.status(status).json(body)` */
  datatype Response<+B> = Response(status: nat, body: B)

  /** The end of one handler run: a response was written, or an exception escaped. */
  datatype Reply<+B> = Sent(response: Response<B>) | Escaped(fault: Fault)
}
