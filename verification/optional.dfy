/** An optional value: the model of a TypeScript field declared with `?`
    (present with a value, or `undefined`). */
module Optional {

  datatype Option<+T> = None | Some(value: T)
}
