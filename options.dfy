/** The optional value used by the specification functions for streams that stop short. */
module Options {

  datatype Option<T> = None | Some(value: T)
}
