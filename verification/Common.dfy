/** Result types and the byte strings shared by every component. */
module Common {
  datatype Option<+T> = None | Some(value: T)

  datatype Result<+T> = Ok(value: T) | Err(reason: string)

  /** One byte of a Python `bytes` value. */
  type Byte = b: int | 0 <= b < 256

  type Bytes = seq<Byte>

  /** A 32-byte content hash. */
  type Digest = d: Bytes | |d| == 32 witness seq(32, i => 0)

  function Zeros32(): Digest { seq(32, i => 0) }

  const ZERO32: Digest := Zeros32()

  function Min(x: int, y: int): int { if x <= y then x else y }

  function Max(x: int, y: int): int { if x <= y then y else x }
}
