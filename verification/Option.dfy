/** Absent and present values: null references, missing lookups and exhausted searches. */
module Options {
  datatype Option<+T> = None | Some(value: T)
}
