/** An optional value: used for a field that may be absent and for a page
    that may lack an annotation list. */
module Optional {
  datatype Option<+T> = None | Some(value: T)
}
