/** An optional value: stands for a TypeScript property that may be
    `undefined` or a value that may be `null`. */
module Options {

  datatype Option<T> = None | Some(value: T) {

    /** The carried value, or `default` when there is none. */
    function GetOr(default: T): T {
      match this
      case Some(v) => v
      case None => default
    }
  }
}
