/** An optional value: the model's stand-in for a Python attribute that may hold `None`. */
module Optional {

  datatype Option<+T> = None | Some(value: T)
}
