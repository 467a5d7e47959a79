/**
 Bytes, Go's fixed-width integers and the conversions between them.  Integers are
 mathematical here, so every conversion and every wrap-around is written out.
 */
module Bytes {

  type byte = x: int | 0 <= x < 0x100

  const TWO_31 := 0x8000_0000
  const TWO_32 := 0x1_0000_0000
  const TWO_63 := 0x8000_0000_0000_0000
  const TWO_64 := 0x1_0000_0000_0000_0000

  type uint32 = x: int | 0 <= x < 0x1_0000_0000
  type uint64 = x: int | 0 <= x < 0x1_0000_0000_0000_0000
  type int32 = x: int | -0x8000_0000 <= x < 0x8000_0000
  type int64 = x: int | -0x8000_0000_0000_0000 <= x < 0x8000_0000_0000_0000

  function ToUint32(x: int): uint32 { x % TWO_32 }

  function ToUint64(x: int): uint64 { x % TWO_64 }

  function ToInt32(x: int): int32 {
    var u := x % TWO_32;
    if u < TWO_31 then u else u - TWO_32
  }

  function ToInt64(x: int): int64 {
    var u := x % TWO_64;
    if u < TWO_63 then u else u - TWO_64
  }

  datatype Option<+T> = None | Some(value: T)
}
