/** Constants and types that the storage modules share. */
module Storage {

  type byte = x: int | 0 <= x < 256

  const BLCKSZ: nat := 8192
  const MAX_ALIGNMENT: nat := 16
}
