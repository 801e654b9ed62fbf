/** The optional value used where the JavaScript code yields `undefined` or `null`. */
module Options {

  datatype Option<+T> = None | Some(value: T)

}
