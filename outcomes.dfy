/** Option and Result: how the model reports Python's `None` values and
    the `ValueError`s its parsers raise, instead of forbidding those inputs. */
module Outcomes {

  datatype Option<+T> = None | Some(value: T)

  datatype Result<+T, +E> = Ok(value: T) | Err(error: E)
}
