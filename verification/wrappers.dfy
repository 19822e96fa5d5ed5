/** The optional-value type used throughout the model: `None` stands for a
    JavaScript `undefined` lookup result or a `NaN` parse. */
module Wrappers {

  datatype Option<+T> = None | Some(value: T)
}
