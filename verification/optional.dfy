/**
 A value that may be absent: a SQL `NULL` column, or a missing key.
 */
module Optional {

  datatype Option<T> = None | Some(value: T)
}
