/** An optional value: the model's stand-in for a nullable reference or for a
    call that throws. */
module Options {

  datatype Option<+T> = None | Some(value: T)
}
