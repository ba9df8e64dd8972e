// An optional value: a missing JSON property, a key not found, an undo with
// nothing to undo.

module Optional {
  datatype Option<+T> = None | Some(value: T)
}
