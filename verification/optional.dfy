/** An optional value: the model's stand-in for a NULL pointer or an absent result. */
module Optional {

  datatype Option<+T> = None | Some(value: T)
}
