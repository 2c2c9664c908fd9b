/** Sizes of machine words and pages, and the C conversions between word sizes. */
module Words {

  const UINT: nat := 0x1_0000_0000
  const WORD: nat := 0x1_0000_0000_0000_0000
  const PAGE_SIZE: nat := 4096

  /** The low 32 bits as an int. */
  function ToInt(x: int): int {
    var w := x % UINT;
    if w < UINT / 2 then w else w - UINT
  }

  /** The low 64 bits as a long. */
  function ToLong(x: int): int {
    var w := x % WORD;
    if w < WORD / 2 then w else w - WORD
  }
}
