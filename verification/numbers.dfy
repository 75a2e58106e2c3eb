/** Machine integers of the program, and the Option type its fallible arithmetic returns.
    The widths are those of the Rust source: every counter is a `u64`, products and
    quotients are formed in `u128`. */
module Numbers {

  const TWO_64: int := 0x1_0000_0000_0000_0000
  const TWO_128: int := 0x1_0000_0000_0000_0000_0000_0000_0000_0000
  const U64_MAX: int := TWO_64 - 1

  type u8 = x: int | 0 <= x < 0x100
  type u16 = x: int | 0 <= x < 0x1_0000
  type u64 = x: int | 0 <= x < TWO_64
  type u128 = x: int | 0 <= x < TWO_128

  datatype Option<+T> = None | Some(value: T) {
    predicate IsFailure() {
      None?
    }

    function PropagateFailure<U>(): Option<U>
      requires None?
    {
      None
    }

    function Extract(): T
      requires Some?
    {
      value
    }
  }

  function Min(x: int, y: int): int {
    if x <= y then x else y
  }

  /** Truncated subtraction on the naturals: Rust's `saturating_sub`. */
  function Monus(x: nat, y: nat): nat {
    if x <= y then 0 else x - y
  }

  function SaturatingSub(x: u64, y: u64): u64 {
    Monus(x, y)
  }

  function SaturatingAdd(x: u64, y: u64): u64 {
    if x + y <= U64_MAX then x + y else U64_MAX
  }

  function CheckedAdd(x: u64, y: u64): Option<u64> {
    if x + y <= U64_MAX then Some(x + y) else None
  }

  function CheckedSub(x: u64, y: u64): Option<u64> {
    if y <= x then Some(x - y) else None
  }

  /** An integer result is representable as a `u64`. */
  predicate FitsU64(x: int) {
    0 <= x <= U64_MAX
  }
}
