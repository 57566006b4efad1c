/** Encoding of VGA text-mode attributes and cells (src/kernel.cpp, make_color and vga_entry). */
module VgaCell {
  /** A C `uint8_t`: character codes and attribute bytes. */
  type byte = bv8
  /** A C `uint16_t`: one cell of the text buffer. */
  type word = bv16

  /** The two palette entries the console uses by name. */
  const Blue: byte := 1
  const White: byte := 15

  /** The blank glyph written by initialisation. */
  const Space: byte := 0x20

  /** Foreground colour held in the low nibble of an attribute byte. */
  function Foreground(attr: byte): byte { (attr & 0x0F) }

  /** Background colour held in the high nibble of an attribute byte. */
  function Background(attr: byte): byte { attr >> 4 }

  /**
   * Packs a foreground and a background colour into one attribute byte.
   * The C expression is evaluated in `int` and truncated back to `uint8_t`,
   * which is exactly 8-bit arithmetic: bits of `bg` above the low nibble are lost.
   */
  function MakeColor(fg: byte, bg: byte): (attr: byte)
    ensures Foreground(attr) == Foreground(fg)
    ensures Background(attr) == ((fg >> 4) | Foreground(bg))
    ensures fg < 16 && bg < 16 ==> Foreground(attr) == fg && Background(attr) == bg
  {
    fg | (bg << 4)
  }

  /** The character byte of a cell (its low byte). */
  function CellChar(w: word): byte { ((w & 0xFF) as byte) }

  /** The attribute byte of a cell (its high byte). */
  function CellAttr(w: word): byte { (w >> 8) as byte }

  /** Packs a character and an attribute into one cell; decoding recovers both. */
  function Entry(c: byte, attr: byte): (w: word)
    ensures CellChar(w) == c && CellAttr(w) == attr
  {
    (c as word) | ((attr as word) << 8)
  }

  /** Every cell word is the entry of its own character and attribute, so Entry is a bijection. */
  lemma EntryOfDecoded(w: word)
    ensures Entry(CellChar(w), CellAttr(w)) == w
  {
  }

  /** Distinct (character, attribute) pairs give distinct cells. */
  lemma EntryInjective(c: byte, a: byte, d: byte, b: byte)
    requires Entry(c, a) == Entry(d, b)
    ensures c == d && a == b
  {
  }

  /** The console's default attribute is white on blue, the byte 0x1F. */
  lemma DefaultColor()
    ensures MakeColor(White, Blue) == 0x1F
  {
  }
}
