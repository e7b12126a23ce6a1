/** Values shared by every part of the model: optional values and the JSON
    replies the route handlers send. */
module Common {

  /** A value that may be absent: SQL NULL, a missing row, an unset session. */
  datatype Option<+T> = None | Some(value: T)

  /** A property of a JavaScript object read from JSON or a request body:
      `undefined` (absent), `null`, or a value of the property's type. */
  datatype JsField<T> = Undefined | Null | Given(value: T)

  /** An HTTP reply: the status code, the human-readable `message` (or `error`)
      text of its JSON body, and the record the body carries, if any. */
  datatype Reply<+T> = Reply(status: nat, message: string, data: Option<T>)
}
