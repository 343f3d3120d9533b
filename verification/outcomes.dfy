/** Result types shared by every handler of the model.

    A handler of the REST backend either answers with its data or
    stops early with an HTTP error status and a message; an operation the
    database refuses (a save-time schema check, the unique index, a negative
    skip) throws, and the error is passed on to the global error handler
    instead. `Failure` names each of those early exits.
 */
module Outcomes {

  /** A value that may be absent: `null` or `undefined` in JavaScript. */
  datatype Option<+T> = None | Some(value: T) {

    /** The value, or `fallback` when absent. */
    function GetOr(fallback: T): T {
      match this
      case Some(v) => v
      case None => fallback
    }
  }

  /** A field of an update body: left out of the body (`undefined`), or given. */
  datatype Patch<+T> = Keep | Set(value: T) {

    /** The new value of a field updated with `given !== undefined ? given : current`. */
    function Apply(current: T): T {
      match this
      case Set(v) => v
      case Keep => current
    }
  }

  /** JavaScript truthiness of an optional string: present and non-empty. */
  predicate Truthy(s: Option<string>) {
    s.Some? && s.value != ""
  }

  /** The JavaScript expression `given || fallback` on an optional string. */
  function OrElse(given: Option<string>, fallback: string): (r: string)
    ensures Truthy(given) ==> r == given.value
    ensures !Truthy(given) ==> r == fallback
  {
    if Truthy(given) then given.value else fallback
  }

  /** Why a handler stopped early. */
  datatype Failure =
    | NotFound                   // 404: the addressed document (or a parent folder) does not exist
    | Invalid                    // 400: the request body failed the validation schema
    | NameTaken                  // 400: a tag with this name already exists
    | HasAssets(assets: nat)     // 400: the folder still holds this many assets
    | HasSubfolders(count: nat)  // 400: the folder still has this many subfolders
    | Rejected                   // the database refused the operation; the error goes to the error handler

  /** The outcome of a handler. */
  datatype Result<+T> = Ok(value: T) | Err(failure: Failure)

  /** The HTTP status a failure answers with; `Rejected` is turned into a
      status by the global error handler, which is not part of this model. */
  function Status(f: Failure): (code: Option<nat>)
    ensures f.NotFound? <==> code == Some(404)
    ensures f.Rejected? <==> code.None?
    ensures !f.NotFound? && !f.Rejected? ==> code == Some(400)
  {
    match f
    case NotFound => Some(404)
    case Rejected => None
    case _ => Some(400)
  }
}
