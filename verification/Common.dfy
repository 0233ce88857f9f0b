/** What several components share. */
module Common {

  datatype Option<T> = None | Some(value: T)

  type byte = x: int | 0 <= x < 256

  /** The null pointer, as an address. */
  const NULL := 0
}
