/** The optional value used for "no resident" and for results that the
    source leaves undefined (a `None` return, a division by zero). */
module Options {

  datatype Option<+T> = None | Some(value: T)

}
