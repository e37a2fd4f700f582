/** An optional value: a JSON body field or request header that may be absent. */
module Optional {

  datatype Option<+T> = None | Some(value: T)

}
