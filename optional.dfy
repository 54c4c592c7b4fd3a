/** A Java reference that may be null, for the string arguments of FileUtilities. */
module Optional {

  datatype Option<T> = None | Some(value: T)
}
