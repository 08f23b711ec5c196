/** The optional value used throughout the model: `None` stands for a missing
    cell (pandas' NaN / NaT) or for a failed call that the source reports by
    returning Python's `None`. */
module Wrappers {

  datatype Option<+T> = None | Some(value: T)
}
