/** Fixed-width integer types and small wrappers shared by the transport
    (the aliases of src/network/common.hpp and the widths the messages use). */
module Common {

  /** One byte of a message body. */
  type byte = bv8

  newtype uint16 = x: int | 0 <= x < 0x1_0000
  newtype uint32 = x: int | 0 <= x < 0x1_0000_0000

  /** Identifier the server gives to an accepted client. */
  type ClientId = uint32

  /** A TCP port number. */
  type Port = uint16

  /** Largest value of a 64-bit `size_t`. */
  const SizeMax: nat := 0xFFFF_FFFF_FFFF_FFFF

  /** The value that a `size_t` keeps when it is stored into a `uint16_t`. */
  function Truncate16(n: nat): (r: uint16)
    ensures r as int == n % 0x1_0000
    ensures n < 0x1_0000 ==> r as int == n
  {
    (n % 0x1_0000) as uint16
  }

  /** `x++` on a `uint32_t`: wraps around to 0 after the largest value. */
  function Increment32(x: uint32): (r: uint32)
    ensures r as int == (x as int + 1) % 0x1_0000_0000
  {
    if x == 0xFFFF_FFFF then 0 else x + 1
  }

  datatype Option<+T> = None | Some(value: T)

  function Min(a: nat, b: nat): nat
  {
    if a <= b then a else b
  }
}
