/** The two shapes of a step's result shared by the rest of the model. */
module Outcomes {

  /** An optional value: a path that may be absent, a file a failing stage may have left behind. */
  datatype Option<+T> = None | Some(value: T)

  /** How a step that may raise ends, and the state it leaves. Unlike an error type, `Err`
      carries no error: it carries the state the raised exception leaves behind, since files
      are not rolled back when Python raises. */
  datatype Outcome<+T> = Ok(value: T) | Err(state: T) {

    /** The state after the step, whether or not it raised. */
    function After(): T {
      match this
      case Ok(v) => v
      case Err(s) => s
    }
  }
}
