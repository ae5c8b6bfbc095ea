/** The optional-value datatype used throughout the model: `None` stands for
    Python's `None` returned by a function that failed or found nothing. */
module Wrappers {
  datatype Option<+T> = None | Some(value: T)
}
