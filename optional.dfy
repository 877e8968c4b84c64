/** A value that may be missing, such as a 60-day average that the data loader could not compute. */
module Optional {
  datatype Option<T> = None | Some(value: T)
}
