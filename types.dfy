/** Machine types shared by the colorizer and the input-to-state mutator. */
module Types {

  /** One unsigned byte (uint8_t). */
  newtype byte = b: int | 0 <= b < 256

  /** 2^64: the modulus of size_t and uint64_t arithmetic. */
  const TWO_64: int := 0x1_0000_0000_0000_0000

  /** 2^32: the width of each half of an alignment key. */
  const TWO_32: int := 0x1_0000_0000

  /** size_t and uint64_t values. */
  type uint64 = x: int | 0 <= x < TWO_64

  datatype Option<T> = None | Some(value: T)

  /** n zero bytes. */
  function Zeros(n: nat): seq<byte>
  {
    seq(n, _ => 0)
  }
}
