/** An optional value, shared by the server and the client models. */
module Optional {

  datatype Option<+T> = None | Some(value: T)
}
