/** Small types and machine-integer helpers shared by the models. */
module Common {

  datatype Option<+T> = None | Some(value: T)

  datatype Result<+T> = Ok(value: T) | Err

  const TWO16 := 0x1_0000
  const TWO32 := 0x1_0000_0000
  const TWO63 := 0x8000_0000_0000_0000
  const TWO64 := 0x1_0000_0000_0000_0000

  type byte = x: int | 0 <= x < 256
  type uint16 = x: int | 0 <= x < 0x1_0000
  type uint32 = x: int | 0 <= x < 0x1_0000_0000
  type uint64 = x: int | 0 <= x < 0x1_0000_0000_0000_0000
  type int64 = x: int | -0x8000_0000_0000_0000 <= x < 0x8000_0000_0000_0000

  const MAX_INT64: int64 := 0x7FFF_FFFF_FFFF_FFFF
  const MIN_INT64: int64 := -0x8000_0000_0000_0000

  /** Go strings and byte slices. */
  type bytes = seq<byte>

  /** The two's complement reinterpretation uint64(x). */
  function ToU64(x: int64): (u: uint64) {
    if x < 0 then x + TWO64 else x
  }

  /** The two's complement reinterpretation int64(u). */
  function ToI64(u: uint64): (x: int64) {
    if u < TWO63 then u else u - TWO64
  }

  /** A signed 64-bit result of exact arithmetic, wrapped as Go wraps it. */
  function Wrap64(x: int): (r: int64) {
    ToI64(x % TWO64)
  }

  /** time.Time.Sub, in nanoseconds: it saturates. */
  function Sub(a: int, b: int): (d: int64) {
    if a - b < MIN_INT64 then MIN_INT64 else if a - b > MAX_INT64 then MAX_INT64 else a - b
  }

  /** clampUint16 of both stores. */
  function ClampUint16(v: int64): (r: uint16) { if v <= 0 then 0 else if v > 0xFFFF then 0xFFFF else v }

  function Min(a: int, b: int): int { if a < b then a else b }

  function Max(a: int, b: int): int { if a > b then a else b }

  function Take<T>(s: seq<T>, n: int): (r: seq<T>) { if n <= 0 then [] else if n >= |s| then s else s[..n] }
}
