/** The 32-bit unsigned words of the machine. */
module Words {
  const WORD_LIMIT := 0x1_0000_0000

  type Word = w: nat | w < WORD_LIMIT
}
