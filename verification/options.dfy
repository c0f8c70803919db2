/** A value that may be absent: a JavaScript property that is `undefined`,
    a lookup that found nothing, or an effect the host could not perform. */
module Options {

  datatype Option<T> = None | Some(value: T) {

    /** The value, or `default` when absent (a destructuring default `{ x = d }`). */
    function GetOr(default: T): T {
      match this
      case Some(v) => v
      case None => default
    }
  }
}
