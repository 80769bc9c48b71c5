/** Fixed-width unsigned arithmetic of the C sources, written out on unbounded integers. */
module Machine {
  const TWO_32 := 0x1_0000_0000
  const TWO_64 := 0x1_0000_0000_0000_0000

  type uint16 = x: int | 0 <= x < 0x1_0000

  type uint32 = x: int | 0 <= x < 0x1_0000_0000

  type uint64 = x: int | 0 <= x < 0x1_0000_0000_0000_0000

  function Add32(a: uint32, b: uint32): uint32 { (a + b) % TWO_32 }

  function Sub32(a: uint32, b: uint32): uint32 { (a - b) % TWO_32 }

  function Mul32(a: uint32, b: uint32): uint32 { (a * b) % TWO_32 }

  function Sub64(a: uint64, b: uint64): uint64 { (a - b) % TWO_64 }

  /** The conversion of an unsigned result to int. */
  function AsInt32(x: uint32): (r: int)
    ensures -0x8000_0000 <= r < 0x8000_0000 && r % TWO_32 == x
  {
    if x < 0x8000_0000 then x else x - TWO_32
  }
}
