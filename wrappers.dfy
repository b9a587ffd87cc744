/** The optional value used wherever the chart code yields `null`, `undefined` or `NaN` for a missing result. */
module Wrappers {

  datatype Option<+T> = None | Some(value: T)
}
