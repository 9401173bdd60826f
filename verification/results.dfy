// Success, failure and optional values shared by every module.
module Results {
  datatype Option<+T> = None | Some(value: T)

  datatype Result<+T, +E> = Ok(value: T) | Err(error: E)

  type Byte = x: int | 0 <= x < 256

  datatype Ordering = Less | Equal | Greater {
    function Reverse(): Ordering {
      match this
      case Less => Greater
      case Equal => Equal
      case Greater => Less
    }

    // The short-circuit chain of `then_with`.
    function Then(next: Ordering): Ordering {
      if this == Equal then next else this
    }
  }
}
