/** The optional value used for "absent" results: a JavaScript `null` in the
    modelled program becomes `None`. */
module Options {

  datatype Option<+T> = None | Some(value: T)
}
