/** Types that several modules share. */
module Types {
  datatype Option<T> = None | Some(value: T)

  type Byte = x: int | 0 <= x < 256

  type Bytes = seq<Byte>

  function Distance(x: int, y: int): int {
    if x < y then y - x else x - y
  }
}
