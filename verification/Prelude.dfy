/** Small shared vocabulary: optional results, bytes and the machine-integer bounds. */
module Prelude {

  datatype Option<+T> = None | Some(value: T)

  /** One octet. Kept as an integer subset so that shifts and masks read as / and %. */
  type byte = x: int | 0 <= x < 256

  type bytes = seq<byte>

  const TWO_31: int := 0x8000_0000
  const TWO_32: int := 0x1_0000_0000
  const TWO_63: int := 0x8000_0000_0000_0000
  const TWO_64: int := 0x1_0000_0000_0000_0000

  /** `high | low` for operands whose set bits cannot overlap: `low` fits below the bit `unit`,
      `high` is a multiple of it. The precondition is the proof that or-ing is adding. */
  function Or(high: nat, low: nat, ghost unit: nat): nat
    requires 0 < unit && low < unit && high % unit == 0
  {
    high + low
  }
}
