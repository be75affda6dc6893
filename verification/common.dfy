/** Small shared datatypes. */
module Common {

  /** A value that may be absent: a JSON field that was not sent, a lookup that found nothing. */
  datatype Option<+T> = None | Some(value: T)
}
