/** An optional value: here, a batched collaborator call that may or may not be issued. */
module Options {

  datatype Option<T> = None | Some(value: T)
}
