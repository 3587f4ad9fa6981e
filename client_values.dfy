/** Values the browser code handles: the requests it sends through the
    axios instance of client/src/utils/api.js (whose base URL ends in
    `/api`), what it receives back, what a component stores from
    `response.data`, and what rendering a list from it gives. */
module ClientValues {
  import opened Seqs
  import opened Http
  import Routes

  /** A request: its verb, the path below the server root as segments
      (starting with "api"), and the JSON or form fields of its body. */
  datatype Request = Request(verb: Routes.Verb, path: seq<string>, fields: map<string, string>)

  /** A JSON error body of the server: its one text field's key and text. */
  datatype ErrorData = ErrorData(key: string, text: string)

  /** The key the user and comment controllers and the error handler use. */
  const MessageKey := "message"

  /** The key the pdf and sharing controllers use. */
  const ErrorKey := "error"

  /** How a request ended, seen from its caller: the response data, or the
      rejection, with the error body when a response arrived. */
  datatype Outcome<T> = Succeeded(value: T) | Rejected(data: Option<ErrorData>)

  /** A server reply as the client receives it, for a controller that puts
      its error text under `key`. */
  function Received<T>(reply: Reply<T>, key: string): (o: Outcome<T>)
    ensures reply.Ok? <==> o.Succeeded?
    ensures reply.Ok? ==> o.value == reply.value
    ensures reply.Err? ==> o.data == Some(ErrorData(key, reply.message))
  {
    match reply
    case Ok(_, value) => Succeeded(value)
    case Err(_, message) => Rejected(Some(ErrorData(key, message)))
  }

  /** `error.response?.data?.message || fallback` */
  function ToastText(data: Option<ErrorData>, fallback: string): (t: string)
    ensures data.Some? && data.value.key == MessageKey && data.value.text != "" ==> t == data.value.text
    ensures !(data.Some? && data.value.key == MessageKey && data.value.text != "") ==> t == fallback
  {
    match data
    case Some(ErrorData(key, text)) => if key == MessageKey && text != "" then text else fallback
    case None => fallback
  }

  /** A JSON value the client keeps as "the list": a bare array, or an
      object that carries the array under a key next to a `count`. */
  datatype JsonList<T> = Array(elems: seq<T>) | Wrapped(elems: seq<T>, count: nat)

  /** Rendering a list: the entries shown, or the JavaScript error thrown
      (`TypeError` for a method call on a value that has no such method). */
  datatype Render<T> = Shown(items: seq<T>) | RenderThrew(name: string)

  const TypeError := "TypeError"
}
