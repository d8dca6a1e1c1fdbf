/** An optional value: `None` where the page has nothing (no error, no scroll target, no record). */
module Options {

  datatype Option<+T> = None | Some(value: T)
}
