/** Bytes and numbers, as files, programs and transfers hold them. */
module Binary {
  type Byte = b: int | 0 <= b < 0x100
  type Bytes = seq<Byte>

  /** The largest integer a JavaScript number holds exactly. */
  const MAX_SAFE_INTEGER: nat := 9007199254740991
}
