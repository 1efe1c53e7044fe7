/** Bytes and pages. */
module Memory {
  const PGSIZE := 4096

  type Byte = x: int | 0 <= x < 256
}
