/** The optional value returned by the generators: `None` stands for
    "no valid value exists", never for a generated null. */
module Wrappers {

  datatype Option<+T> = None | Some(value: T)
}
