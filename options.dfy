/** The usual optional-value wrapper, used for attributes that may be absent
    and for parsers that may fail. */
module Options {
  datatype Option<+T> = None | Some(value: T)
}
