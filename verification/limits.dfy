/** The fixed limits of the shell, as declared in include/shell.h. */
module Limits {

  /** Size of the line buffer (MAX_LEN); strings built in it hold at most MaxLen - 1 characters. */
  const MaxLen: nat := 512

  /** Most tokens one command may carry (MAXARGS). */
  const MaxArgs: nat := 10

  /** Size of one token buffer (ARGLEN); a token holds at most ArgLen - 1 characters. */
  const ArgLen: nat := 30

  /** Number of slots of the history ring (HISTORY_SIZE). */
  const HistorySize: nat := 50

  function Min(a: int, b: int): int
  {
    if a <= b then a else b
  }
}
