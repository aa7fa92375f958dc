/** The widths of the machine that the program runs on. */
module Machine {
  const U16: nat := 0x1_0000
  const U32: nat := 0x1_0000_0000
  const U64: nat := 0x1_0000_0000_0000_0000

  // Unsigned 64-bit fetch_add(1) and fetch_sub(1), wrap-around included.
  function Inc(x: nat): nat { (x + 1) % U64 }
  function Dec(x: nat): nat { (x + U64 - 1) % U64 }

  type Byte = b: nat | b < 256
}
