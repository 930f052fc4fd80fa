/** Machine words shared by the byte codec and the float32 bit patterns. */
module Words {
  /** A 32-bit word, as an unsigned integer. */
  newtype Word = w: int | 0 <= w < 0x1_0000_0000
}
