/** The Option type, for get_best_move's result (None before any candidate). */
module Options {
  datatype Option<T> = None | Some(value: T)
}
