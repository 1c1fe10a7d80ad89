/** The optional value used for a missing keypoint, a missing custom curve and an empty selection. */
module Wrappers {
  datatype Option<+T> = None | Some(value: T)
}
