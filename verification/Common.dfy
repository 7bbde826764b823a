/** Types and constants that several files use. */
module Common {

  datatype Option<+T> = None | Some(value: T)

  /** uint8_t */
  type Byte = b: int | 0 <= b < 256

  /** A size_t has 32 bits. */
  const WORDS := 0x1_0000_0000

  // kernel/include/paging.h
  const PAGE_SIZE := 4096
  const TOTAL_PAGES := 32768
  const FIRST_USER_PAGE := 800  // USER_PAGES_ADDR / PAGE_SIZE

  // Control characters
  const NUL := 0
  const BACKSPACE := 8
  const NEWLINE := 10
  const RETURN := 13
  const ESC := 27
}
