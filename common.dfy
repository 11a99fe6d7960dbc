/** Small value types shared by every module of the model. */
module Common {

  /** A value that may be absent: Go's nil pointer, nil interface or zero reflect.Value. */
  datatype Option<+T> = None | Some(value: T)

  /**
   * An opaque handle: the `interface{}` a caller registers with the router, or a
   * `reflect.Value` naming a function or method. The model never looks inside it.
   */
  datatype Handle = Handle(id: nat)
}
