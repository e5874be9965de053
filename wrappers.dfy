/** The optional value used wherever the scrapers may or may not produce something:
    a contact for a line, the `href` attribute of a link, the value of `int()`. */
module Wrappers {

  datatype Option<+T> = None | Some(value: T)
}
