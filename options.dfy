/** The optional value used where the JavaScript code produces `NaN` or `undefined`. */
module Options {
  datatype Option<+T> = None | Some(value: T)
}
