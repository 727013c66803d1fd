/**
  Types that several components share.
*/
module Common {
  datatype Option<T> = None | Some(value: T)

  type uint8 = x: int | 0 <= x < 256
  type uint16 = x: int | 0 <= x < 0x1_0000
}
