/** The two termbox-go types the term package re-exports (term/term.go:10-11):
    `Attribute`, a colour and style word, and `Cell`, a character with
    foreground and background attributes.  termbox-go is not part of this
    model: the word is a non-negative integer here, its width left open. */
module Termbox {

  newtype Attribute = x: int | 0 <= x

  datatype Cell = Cell(ch: char, fg: Attribute, bg: Attribute)

  /** Go's zero `Cell`: the NUL rune on attribute 0, 0. */
  const ZeroCell: Cell := Cell(0 as char, 0, 0)
}
