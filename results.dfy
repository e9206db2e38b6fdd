/** Small result types shared by the driver model. */
module Results {

  datatype Option<T> = None | Some(value: T)

  /** What a driver call ends with in the source: it returns `False`, it returns
      a value, or an `IndexError` escapes from it (indexing the first byte of an
      empty response). */
  datatype Answer<T> = ReturnsFalse | Returns(value: T) | RaisesIndexError
}
