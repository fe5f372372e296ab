/** The optional value shared by the other modules: a JavaScript value that
    may be `undefined` is modelled as an `Option`. */
module Wrappers {

  datatype Option<+T> = None | Some(value: T)
}
