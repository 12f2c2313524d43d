/** The optional-value type used throughout the model: `None` stands for
    JavaScript's `null` (an unset hint number) and for a `NaN` from a failed
    integer parse. */
module Optional {

  datatype Option<+T> = None | Some(value: T)
}
