/** Key codes read by the to-do application (src/config.rs). Each is the
    integer that the terminal's getch returns for the key. */
module Keys {
  const TAB: int := 9
  const ESC: int := 27
  /** `G`: jump to the last entry. */
  const BG: int := 71
  const APPEND: int := 97
  /** `b`: declared but bound to no transition. */
  const EDIT: int := 98
  const DELETE: int := 100
  const EXIT: int := 101
  /** `g`: first half of the `g g` chord. */
  const SG: int := 103
  const DOWN: int := 106
  const UP: int := 107
  const QUIT: int := 113
  const SELECT: int := 115
  const GO_TO_TODOS: int := 116
  /** Backspace as the terminal reports it. */
  const REMOVE: int := 127
}
