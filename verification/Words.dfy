/** Machine words as ranges of the integers, and the two result types shared by the project. */
module Words {

  type u8 = x: int | 0 <= x < 0x100
  type u16 = x: int | 0 <= x < 0x1_0000
  type u32 = x: int | 0 <= x < 0x1_0000_0000
  type u64 = x: int | 0 <= x < 0x1_0000_0000_0000_0000
  type i8 = x: int | -0x80 <= x < 0x80
  type i64 = x: int | -0x8000_0000_0000_0000 <= x < 0x8000_0000_0000_0000

  const I64_MIN: i64 := -0x8000_0000_0000_0000
  const I64_MAX: i64 := 0x7FFF_FFFF_FFFF_FFFF
  const U64_MAX: u64 := 0xFFFF_FFFF_FFFF_FFFF

  datatype Option<+T> = None | Some(value: T)

  datatype Result<+T, +E> = Ok(value: T) | Err(error: E)

  function Min(a: int, b: int): int { if a < b then a else b }

  function Max(a: int, b: int): int { if a > b then a else b }

  function Abs(a: int): int { if a < 0 then -a else a }

  /** Integer division rounding toward zero, as the source's `/` does on signed words. */
  function TruncDiv(a: int, b: int): int
    requires b != 0
  {
    if (a >= 0) == (b > 0) then Abs(a) / Abs(b) else -(Abs(a) / Abs(b))
  }

  function Signum(a: int): int { if a > 0 then 1 else if a < 0 then -1 else 0 }

  /** The source's `clamp(lo, hi)`. */
  function Clamp(a: int, lo: int, hi: int): int { if a < lo then lo else if a > hi then hi else a }

  /** The number that bytes spell, most significant first. */
  function FromBigEndian(bytes: seq<u8>): nat {
    if bytes == [] then 0 else 256 * FromBigEndian(bytes[..|bytes| - 1]) + bytes[|bytes| - 1]
  }

  ghost function Elements<T(!new)>(s: seq<T>): set<T> { set x | x in s }
}
