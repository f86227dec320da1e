/** The matcher's "value or None" results (`primary`, a record that may not score). */
module Optional {

  datatype Option<+T> = None | Some(value: T)
}
