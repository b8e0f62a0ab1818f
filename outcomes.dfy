/** Failure-carrying values shared by every module of the model.
    A Ruby method that raises is modelled as returning `Err` with the
    class of the exception it raises. */
module Outcomes {

  datatype Option<+T> = None | Some(value: T)

  datatype Result<+T, +E> = Ok(value: T) | Err(error: E)

  /** The Ruby exception classes the modelled code can raise. */
  datatype Failure =
    | ZeroDivisionError    // integer `/` or `%` by zero
    | IndexError           // Numo index outside the array
    | AxisError            // a reduction axis outside the array's rank: a label here,
                           // Numo raises one of its own NArray error classes
    | TypeError            // `nil` used where a number is needed
    | NoMethodError        // a method called on `nil`
    | ArgumentError        // a negative count passed to `sample` or `max_by`
    | RuntimeError         // an explicit `raise 'message'`
    | RangeError           // a Numo Range index with an end outside the array
}
