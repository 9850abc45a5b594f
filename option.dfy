/** The optional value used wherever the JavaScript code yields `undefined` or `NaN`. */
module Optional {
  datatype Option<+T> = None | Some(value: T)
}
