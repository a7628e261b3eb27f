/** The VGA text-mode header: screen size, the sixteen colours, and the
    packing of a colour pair into an attribute byte and of a character and
    attribute into a 16-bit screen cell. */
module Vga {

  /** `VGA_WIDTH` and `VGA_HEIGHT`: the text screen is 80 columns by 25 rows. */
  const Width: int := 80
  const Height: int := 25

  /** The number of cells in the text buffer. */
  function CellCount(): (n: int)
    ensures n == 2000
  {
    Width * Height
  }

  /** `enum vga_color`. */
  datatype Color =
    | Black | Blue | Green | Cyan | Red | Magenta | Brown | LightGrey
    | DarkGrey | LightBlue | LightGreen | LightCyan | LightRed
    | LightMagenta | LightBrown | White

  /** The numeric value of each enumerator; every one fits in a nibble, so
      any pair of colours fits in one attribute byte. */
  function ColorValue(c: Color): (v: bv8)
    ensures v < 16
  {
    match c
    case Black => 0
    case Blue => 1
    case Green => 2
    case Cyan => 3
    case Red => 4
    case Magenta => 5
    case Brown => 6
    case LightGrey => 7
    case DarkGrey => 8
    case LightBlue => 9
    case LightGreen => 10
    case LightCyan => 11
    case LightRed => 12
    case LightMagenta => 13
    case LightBrown => 14
    case White => 15
  }

  /** The enumerator of a nibble value: the inverse of `ColorValue`. */
  function ColorOf(v: bv8): (c: Color)
    requires v < 16
  {
    if v == 0 then Black else if v == 1 then Blue else if v == 2 then Green
    else if v == 3 then Cyan else if v == 4 then Red else if v == 5 then Magenta
    else if v == 6 then Brown else if v == 7 then LightGrey
    else if v == 8 then DarkGrey else if v == 9 then LightBlue
    else if v == 10 then LightGreen else if v == 11 then LightCyan
    else if v == 12 then LightRed else if v == 13 then LightMagenta
    else if v == 14 then LightBrown else White
  }

  /** The sixteen enumerators have sixteen distinct values. */
  lemma ColorValueRoundTrip(c: Color)
    ensures ColorOf(ColorValue(c)) == c
  {
  }

  /** `vga_entry_color(fg, bg)`: `fg | bg << 4`, truncated to `uint8_t`;
      the foreground is the low nibble and the background the high one. */
  function EntryColor(fg: Color, bg: Color): (attr: bv8)
    ensures attr & 0xF == ColorValue(fg)
    ensures attr >> 4 == ColorValue(bg)
  {
    ColorValue(fg) | (ColorValue(bg) << 4)
  }

  /** Decoding an attribute byte recovers the colour pair that built it. */
  lemma EntryColorRoundTrip(fg: Color, bg: Color)
    ensures ColorOf(EntryColor(fg, bg) & 0xF) == fg
    ensures ColorOf(EntryColor(fg, bg) >> 4) == bg
  {
    ColorValueRoundTrip(fg);
    ColorValueRoundTrip(bg);
  }

  /** `vga_entry(uc, color)`: `(uint16_t) uc | (uint16_t) color << 8`; the
      character is the low byte and the attribute the high byte. */
  function Entry(uc: bv8, color: bv8): (cell: bv16)
    ensures cell & 0xFF == uc as bv16
    ensures cell >> 8 == color as bv16
  {
    (uc as bv16) | ((color as bv16) << 8)
  }

  /** The character of a screen cell (its low byte). */
  function CellChar(cell: bv16): bv8 {
    (cell & 0xFF) as bv8
  }

  /** The attribute of a screen cell (its high byte). */
  function CellColor(cell: bv16): bv8 {
    (cell >> 8) as bv8
  }

  /** Decoding a cell recovers both the character and the attribute. */
  lemma EntryRoundTrip(uc: bv8, color: bv8)
    ensures CellChar(Entry(uc, color)) == uc
    ensures CellColor(Entry(uc, color)) == color
  {
  }

  /** Distinct (character, attribute) pairs give distinct cells. */
  lemma EntryInjective(uc1: bv8, color1: bv8, uc2: bv8, color2: bv8)
    requires Entry(uc1, color1) == Entry(uc2, color2)
    ensures uc1 == uc2 && color1 == color2
  {
    EntryRoundTrip(uc1, color1);
    EntryRoundTrip(uc2, color2);
  }
}
