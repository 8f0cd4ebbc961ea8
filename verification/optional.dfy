/** The optional value used wherever the JavaScript code yields `undefined`
    (a missing attribute, `split(...)[1]` past the end, a thrown `new URL`). */
module Optional {

  datatype Option<+T> = None | Some(value: T)

}
