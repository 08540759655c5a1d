/** OCaml's int on a 64-bit host: 63 bits, signed. */
module OCamlInt {
  const MAX_INT := 0x3FFF_FFFF_FFFF_FFFF
  const MIN_INT := -0x4000_0000_0000_0000

  predicate IsInt(x: int) {
    MIN_INT <= x <= MAX_INT
  }
}
