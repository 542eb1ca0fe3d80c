/** The optional-value datatype used for the nullable values of the model:
    the tensor that preprocessing may fail to produce, the result path that
    is null when preprocessing failed, and the probability field that the
    "no label" entry leaves empty. */
module Wrappers {

  datatype Option<+T> = None | Some(value: T)

}
