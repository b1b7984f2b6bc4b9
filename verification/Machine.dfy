/** The fixed-width unsigned integers of the C sources, as ranges of int. */
module Machine {
  type byte = x: int | 0 <= x < 256
  type u16 = x: int | 0 <= x < 0x1_0000
  type u32 = x: int | 0 <= x < 0x1_0000_0000
  type pos = x: int | 1 <= x witness 1
}
