/** Optional values. `None` stands for a JavaScript value that is `undefined`,
    such as a multipart field the client did not send. */
module Wrappers {

  datatype Option<+T> = None | Some(value: T) {

    /** The carried value, or `default` when there is none. */
    function GetOr(default: T): T {
      match this
      case Some(v) => v
      case None => default
    }
  }
}
