/** A value that may be missing: JSON null or an absent field on the client,
    "nothing found" in a search. */
module Options {
  datatype Option<+T> = None | Some(value: T)
}
