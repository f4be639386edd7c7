/** Fixed-width unsigned integers of the C sources, as subsets of the
    unbounded integers. Wrap-around is never implicit: where C arithmetic
    wraps, the model says so with `Wrap32`. */
module CTypes {

  newtype uint8 = x: int | 0 <= x < 0x100
  newtype uint16 = x: int | 0 <= x < 0x1_0000
  newtype uint32 = x: int | 0 <= x < 0x1_0000_0000

  const UINT32_MODULUS: int := 0x1_0000_0000

  /** C's conversion of an integer result to `uint32_t` (reduction modulo 2^32). */
  function Wrap32(x: int): (r: uint32)
    ensures 0 <= x < UINT32_MODULUS ==> r as int == x
    ensures (r as int - x) % UINT32_MODULUS == 0
  {
    (x % UINT32_MODULUS) as uint32
  }

  datatype Option<T> = None | Some(value: T)
}
