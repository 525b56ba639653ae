/** A value that may be absent: a tag the classifier accepted or not, and a
    request field that may be missing (Python's `None`). */
module Optional {

  datatype Option<+T> = None | Some(value: T) {

    /** Python's `d.get(key, default)` once the lookup is done: the value
        when present, `default` otherwise. */
    function ValueOr(default: T): T
    {
      if Some? then value else default
    }
  }
}
