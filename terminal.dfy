/** The kernel's text console: a cursor (row, column), a current attribute
    byte and the 80x25 VGA text buffer, updated one character at a time,
    plus the two number formatters the kernel prints with. */
module Terminal {

  import opened Bytes
  import opened Vga
  import opened NumberSpec
  import opened StringSpec
  import StringLib
  import opened Arith

  const Newline: byte := 0x0A
  const Return: byte := 0x0D
  const Tab: byte := 0x09

  /** A character the console moves the cursor for instead of storing. */
  predicate IsControl(c: byte) {
    c == Newline || c == Return || c == Tab
  }

  /** What the console holds between two calls: the cursor, the attribute
      for new characters, and the 2000 cells, row by row. */
  datatype Screen = Screen(row: nat, column: nat, color: bv8, cells: seq<bv16>)

  /** The cursor is on the screen and the buffer has one cell per position. */
  predicate Valid(st: Screen) {
    st.row < Height && st.column < Width && |st.cells| == CellCount()
  }

  /** The cell the cursor is on, counted row by row from the top left. */
  function Position(st: Screen): nat {
    st.row * Width + st.column
  }

  /** The row after `row`; past the last row the cursor goes back to the
      first one (there is no scrolling). */
  function NextRow(row: nat): nat {
    if row + 1 == Height then 0 else row + 1
  }

  /** `terminal_putchar` as a step on the screen. A newline moves to the start
      of the next row, a carriage return to the start of the current row, a
      tab to the next multiple of 8 (or the next row once that is off the
      screen); every other character is stored with the current attribute at
      the cursor, which then advances by one cell, wrapping from the bottom
      right corner to the top left. */
  function Put(st: Screen, c: byte): (r: Screen)
    requires Valid(st)
    ensures Valid(r) && r.color == st.color
  {
    if c == Newline then
      st.(column := 0, row := NextRow(st.row))
    else if c == Return then
      st.(column := 0)
    else if c == Tab then
      var stop := (st.column / 8 + 1) * 8;
      if stop >= Width then st.(column := 0, row := NextRow(st.row))
      else st.(column := stop)
    else
      var cells := st.cells[Position(st) := Entry(c as bv8, st.color)];
      if st.column + 1 == Width then st.(cells := cells, column := 0, row := NextRow(st.row))
      else st.(cells := cells, column := st.column + 1)
  }

  /** What one character does to the cursor and the cells. */
  lemma PutEffect(st: Screen, c: byte)
    requires Valid(st)
    ensures IsControl(c) ==> Put(st, c).cells == st.cells
    ensures c == Newline ==> Put(st, c).column == 0 && Put(st, c).row == (st.row + 1) % Height
    ensures c == Return ==> Put(st, c).row == st.row && Put(st, c).column == 0
    ensures c == Tab ==> Put(st, c).column % 8 == 0
    ensures c == Tab && st.column < Width - 8 ==>
              Put(st, c).row == st.row && st.column < Put(st, c).column <= st.column + 8
    ensures c == Tab && st.column >= Width - 8 ==>
              Put(st, c).column == 0 && Put(st, c).row == (st.row + 1) % Height
    ensures !IsControl(c) ==>
              Put(st, c).cells == st.cells[Position(st) := Entry(c as bv8, st.color)]
              && Position(Put(st, c)) == (Position(st) + 1) % CellCount()
  {
  }

  /** `terminal_write`: the characters put one after the other. */
  function WriteAll(st: Screen, data: seq<byte>): (r: Screen)
    requires Valid(st)
    ensures Valid(r) && r.color == st.color
    decreases |data|
  {
    if data == [] then st else Put(WriteAll(st, data[..|data| - 1]), data[|data| - 1])
  }

  /** Writing two pieces one after the other is writing them joined. */
  lemma {:induction false} WriteAllAppend(st: Screen, x: seq<byte>, y: seq<byte>)
    requires Valid(st)
    ensures WriteAll(st, x + y) == WriteAll(WriteAll(st, x), y)
    decreases |y|
  {
    if y == [] {
      assert x + y == x;
    } else {
      var y0 := y[..|y| - 1];
      assert (x + y)[..|x + y| - 1] == x + y0;
      assert (x + y)[|x + y| - 1] == y[|y| - 1];
      WriteAllAppend(st, x, y0);
    }
  }

  /** Writing characters none of which is a control character moves the
      cursor on by one cell per character, wrapping from the last cell to the
      first. */
  lemma {:induction false} WritePrintablePosition(st: Screen, data: seq<byte>)
    requires Valid(st)
    requires forall i :: 0 <= i < |data| ==> !IsControl(data[i])
    ensures Position(WriteAll(st, data)) == (Position(st) + |data|) % CellCount()
    decreases |data|
  {
    if data != [] {
      var n := |data| - 1;
      var prev := WriteAll(st, data[..n]);
      WritePrintablePosition(st, data[..n]);
      assert WriteAll(st, data) == Put(prev, data[n]);
      PutAdvances(prev, data[n]);
      var a, b := Position(st), Position(prev);
      assert b == (a + n) % CellCount();
      ScreenModStep(a + n);
      assert (b + 1) % CellCount() == (a + |data|) % CellCount();
    }
  }

  /** A printable character moves the cursor to the next cell. */
  lemma PutAdvances(st: Screen, c: byte)
    requires Valid(st) && !IsControl(c)
    ensures Position(Put(st, c)) == (Position(st) + 1) % CellCount()
  {
    PutEffect(st, c);
  }

  /** Writing at most a screenful of characters, none of them a control
      character, stores them in consecutive cells from the cursor on,
      wrapping from the last cell to the first. */
  lemma {:induction false} WritePrintable(st: Screen, data: seq<byte>)
    requires Valid(st)
    requires |data| <= CellCount()
    requires forall i :: 0 <= i < |data| ==> !IsControl(data[i])
    ensures forall k :: 0 <= k < |data| ==>
              WriteAll(st, data).cells[(Position(st) + k) % CellCount()] == Entry(data[k] as bv8, st.color)
    decreases |data|
  {
    if data != [] {
      var n := |data| - 1;
      var p := Position(st);
      var prev := WriteAll(st, data[..n]);
      WritePrintable(st, data[..n]);
      WritePrintablePosition(st, data[..n]);
      assert forall k :: 0 <= k < n ==> data[..n][k] == data[k];
      WritePrintableStep(st, data, prev);
      assert WriteAll(st, data) == Put(prev, data[n]);
    }
  }

  /** The last character of `data` goes to the cell after the others. */
  lemma WritePrintableStep(st: Screen, data: seq<byte>, prev: Screen)
    requires Valid(st) && Valid(prev) && prev.color == st.color
    requires 1 <= |data| <= CellCount() && !IsControl(data[|data| - 1])
    requires Position(prev) == (Position(st) + |data| - 1) % CellCount()
    requires forall k :: 0 <= k < |data| - 1 ==>
               prev.cells[(Position(st) + k) % CellCount()] == Entry(data[k] as bv8, st.color)
    ensures forall k :: 0 <= k < |data| ==>
              Put(prev, data[|data| - 1]).cells[(Position(st) + k) % CellCount()] == Entry(data[k] as bv8, st.color)
  {
    PutEffect(prev, data[|data| - 1]);
    StoreNext(prev.cells, Position(st), data, st.color);
  }

  /** Storing the next character after `data[..n]`, already stored from
      cell `p` on, stores all of `data` from cell `p` on. */
  lemma StoreNext(cells: seq<bv16>, p: nat, data: seq<byte>, color: bv8)
    requires |cells| == CellCount() && 1 <= |data| <= CellCount()
    requires forall k :: 0 <= k < |data| - 1 ==>
               cells[(p + k) % CellCount()] == Entry(data[k] as bv8, color)
    ensures forall k :: 0 <= k < |data| ==>
              cells[(p + |data| - 1) % CellCount() := Entry(data[|data| - 1] as bv8, color)][(p + k) % CellCount()]
              == Entry(data[k] as bv8, color)
  {
    var n := |data| - 1;
    var updated := cells[(p + n) % CellCount() := Entry(data[n] as bv8, color)];
    forall k | 0 <= k < |data|
      ensures updated[(p + k) % CellCount()] == Entry(data[k] as bv8, color)
    {
      if k < n {
        ScreenModDistinct(p, k, n);
      }
    }
  }

  lemma ScreenModStep(a: nat)
    ensures (a % CellCount() + 1) % CellCount() == (a + 1) % CellCount()
  {
  }

  lemma ScreenModDistinct(a: nat, k: nat, n: nat)
    requires k < n < CellCount()
    ensures (a + k) % CellCount() != (a + n) % CellCount()
  {
  }

  /** `(column + 8) & ~(8 - 1)` on a `size_t` column of the screen clears
      the three low bits of `column + 8`: it is `column + 8` less its
      remainder by 8, the next multiple of 8 above the column. */
  lemma TabStop(c: bv32)
    requires c < 80
    ensures ((c + 8) & !(8 - 1)) as int == (c as int + 8) - (c as int + 8) % 8
  {
    TabMask(c);
    assert (c % 8) as int == c as int % 8;
  }

  lemma TabMask(c: bv32)
    requires c < 80
    ensures (c + 8) & !7 == c + 8 - c % 8
  {
  }

  /** The screen `terminal_initialize` leaves: cursor at the top left,
      light grey on black, every cell a blank in that attribute. */
  function Cleared(): (r: Screen)
    ensures Valid(r) && Position(r) == 0
    ensures r.color & 0xF == ColorValue(LightGrey) && r.color >> 4 == ColorValue(Black)
    ensures forall k :: 0 <= k < |r.cells| ==>
              CellChar(r.cells[k]) == 0x20 && CellColor(r.cells[k]) == r.color
  {
    var color := EntryColor(LightGrey, Black);
    EntryRoundTrip(0x20, color);
    Screen(0, 0, color, seq(CellCount(), _ => Entry(0x20, color)))
  }

  /** The console's globals: the cursor, the current attribute and the
      memory-mapped text buffer. The `size_t` cursor stays below 80 and 25,
      so it is kept as a natural number. */
  class Console {
    var row: nat
    var column: nat
    var color: bv8
    const buffer: array<bv16>

    ghost predicate Valid()
      reads this
    {
      buffer.Length == CellCount() && row < Height && column < Width
    }

    function Snapshot(): Screen
      reads this, buffer
    {
      Screen(row, column, color, buffer[..])
    }

    /** The globals' static initial values; the buffer keeps whatever the
        hardware shows. */
    constructor (vga: array<bv16>)
      requires vga.Length == CellCount()
      ensures Valid()
      ensures row == 0 && column == 0 && color == 0 && buffer == vga
    {
      row := 0;
      column := 0;
      color := 0;
      buffer := vga;
    }

    /** `terminal_initialize`: home the cursor, select light grey on black
        and blank every cell, row by row. */
    method Initialize()
      requires buffer.Length == CellCount()
      modifies this, buffer
      ensures Valid()
      ensures Snapshot() == Cleared()
    {
      row := 0;
      column := 0;
      color := EntryColor(LightGrey, Black);
      var y := 0;
      while y < Height
        invariant 0 <= y <= Height
        invariant row == 0 && column == 0 && color == EntryColor(LightGrey, Black)
        invariant forall k :: 0 <= k < y * Width ==> buffer[k] == Entry(0x20, color)
      {
        var x := 0;
        while x < Width
          invariant 0 <= x <= Width
          invariant row == 0 && column == 0 && color == EntryColor(LightGrey, Black)
          invariant forall k :: 0 <= k < y * Width + x ==> buffer[k] == Entry(0x20, color)
        {
          var index := y * Width + x;
          buffer[index] := Entry(0x20, color);
          x := x + 1;
        }
        y := y + 1;
      }
      assert buffer[..] == Cleared().cells;
    }

    /** `terminal_setcolor`: later characters use the new attribute. */
    method SetColor(c: bv8)
      modifies this
      ensures color == c && row == old(row) && column == old(column)
    {
      color := c;
    }

    /** `terminal_putchar`. */
    method PutChar(c: byte)
      requires Valid()
      modifies this, buffer
      ensures Valid()
      ensures Snapshot() == Put(old(Snapshot()), c)
    {
      ghost var st := Snapshot();
      if c == Newline {
        column := 0;
        AdvanceRow();
        assert Snapshot() == st.(column := 0, row := NextRow(st.row));
        return;
      }
      if c == Return {
        column := 0;
        assert Snapshot() == st.(column := 0);
        return;
      }
      if c == Tab {
        // the mask of `TabStop`, on the natural-number cursor
        column := (column + 8) - (column + 8) % 8;
        if column >= Width {
          column := 0;
          AdvanceRow();
          assert Snapshot() == st.(column := 0, row := NextRow(st.row));
        } else {
          assert Snapshot() == st.(column := (st.column / 8 + 1) * 8);
        }
        return;
      }
      var index := row * Width + column;
      buffer[index] := Entry(c as bv8, color);
      ghost var cells := st.cells[Position(st) := Entry(c as bv8, st.color)];
      assert buffer[..] == cells;
      column := column + 1;
      if column == Width {
        column := 0;
        AdvanceRow();
        assert Snapshot() == st.(cells := cells, column := 0, row := NextRow(st.row));
      } else {
        assert Snapshot() == st.(cells := cells, column := st.column + 1);
      }
    }

    /** `if (++terminal_row == VGA_HEIGHT) terminal_row = 0;`, which
        `terminal_putchar` does on each line break. */
    method AdvanceRow()
      requires row < Height
      modifies this
      ensures row == NextRow(old(row)) && row < Height
      ensures column == old(column) && color == old(color)
    {
      row := row + 1;
      if row == Height {
        row := 0;
      }
    }

    /** `terminal_write`: put `size` characters of `data` in order. */
    method Write(data: seq<byte>, size: nat)
      requires Valid()
      requires size <= |data|
      modifies this, buffer
      ensures Valid()
      ensures Snapshot() == WriteAll(old(Snapshot()), data[..size])
    {
      var i := 0;
      while i < size
        invariant 0 <= i <= size
        invariant Valid()
        invariant Snapshot() == WriteAll(old(Snapshot()), data[..i])
      {
        ghost var before := Snapshot();
        var c := data[i];
        PutChar(c);
        assert Snapshot() == Put(before, c);
        assert data[..i + 1][..i] == data[..i] && data[..i + 1][i] == c;
        assert WriteAll(old(Snapshot()), data[..i + 1]) == Put(WriteAll(old(Snapshot()), data[..i]), c);
        i := i + 1;
      }
    }
  }

  /** `uint_to_hex_string`: "0x", the eight upper-case hexadecimal digits
      of the value, NUL. */
  method UintToHexString(value: nat, buffer: array<byte>)
    requires value < UintModulus
    requires 11 <= buffer.Length
    modifies buffer
    ensures buffer[..11] == HexString(value, true)
    ensures forall k :: 11 <= k < buffer.Length ==> buffer[k] == old(buffer[k])
  {
    buffer[0] := Zero;
    buffer[1] := 0x78;
    var i := 7;
    while i >= 0
      invariant -1 <= i <= 7
      invariant buffer[0] == Zero && buffer[1] == 0x78
      invariant forall k :: 0 <= k < 7 - i ==> buffer[2 + k] == HexDigits(value, true)[k]
      invariant forall k :: 9 - i <= k < buffer.Length ==> buffer[k] == old(buffer[k])
    {
      buffer[2 + (7 - i)] := HexChar(Nibble(value, i), true);
      i := i - 1;
    }
    buffer[10] := 0;
    assert buffer[2..10] == HexDigits(value, true);
  }

  /** A 32-bit value has at most ten decimal digits, so the digits and the
      NUL fit the twelve-byte buffer `kprintf_dec` passes, and the digits
      fit the twelve-byte `temp` array. */
  lemma DecimalWidth(v: nat)
    requires v < UintModulus
    ensures |Digits(v, 10)| <= 10
  {
    assert Pow(10, 10) == 10000000000 by {
      assert Pow(10, 0) == 1;
      assert Pow(10, 1) == 10;
      assert Pow(10, 2) == 100;
      assert Pow(10, 3) == 1000;
      assert Pow(10, 4) == 10000;
      assert Pow(10, 5) == 100000;
      assert Pow(10, 6) == 1000000;
      assert Pow(10, 7) == 10000000;
      assert Pow(10, 8) == 100000000;
      assert Pow(10, 9) == 1000000000;
    }
    DigitsLength(v, 10, 10);
  }

  /** `uint_to_dec_string`: "0" for zero; otherwise the digits are produced
      least significant first into a scratch array and copied back in
      reverse. Either way the buffer holds the decimal digits of the value,
      without leading zeros, then a NUL. */
  method UintToDecString(value: nat, buffer: array<byte>)
    requires value < UintModulus
    requires 11 <= buffer.Length
    modifies buffer
    ensures |Digits(value, 10)| <= 10 && buffer[..|Digits(value, 10)| + 1] == Digits(value, 10) + [0]
    ensures forall k :: |Digits(value, 10)| + 1 <= k < buffer.Length ==> buffer[k] == old(buffer[k])
  {
    DecimalWidth(value);
    if value == 0 {
      buffer[0] := Zero;
      buffer[1] := 0;
      return;
    }
    ghost var ds := Digits(value, 10);
    var temp := new byte[12];
    var i := DecimalDigitsReversed(temp, value);
    CopyReversed(temp, i, buffer);
    ReverseReverse(ds);
    ghost var front := buffer[..i];
    assert front == ds;
    buffer[i] := 0;
    assert buffer[..i + 1] == front + [0];
  }

  /** The copy-back loop of `uint_to_dec_string`: the first `i` bytes of
      `temp`, reversed, go to the front of `buffer`. */
  method CopyReversed(temp: array<byte>, i: nat, buffer: array<byte>)
    requires temp != buffer && i <= temp.Length && i <= buffer.Length
    modifies buffer
    ensures buffer[..i] == Reverse(temp[..i])
    ensures forall k :: i <= k < buffer.Length ==> buffer[k] == old(buffer[k])
  {
    var j := 0;
    while j < i
      invariant 0 <= j <= i
      invariant forall k :: 0 <= k < j ==> buffer[k] == temp[i - 1 - k]
      invariant forall k :: i <= k < buffer.Length ==> buffer[k] == old(buffer[k])
    {
      buffer[j] := temp[i - 1 - j];
      j := j + 1;
    }
    ReverseByIndex(temp[..i], buffer[..i]);
  }

  /** The `while (value > 0)` loop of `uint_to_dec_string`: store
      `'0' + value % 10` and divide by 10 until nothing is left, which leaves
      the decimal digits in the scratch array least significant first. */
  method DecimalDigitsReversed(temp: array<byte>, value: nat) returns (i: nat)
    requires 0 < value < UintModulus
    requires temp.Length == 12
    modifies temp
    ensures i == |Digits(value, 10)| <= 10
    ensures temp[..i] == Reverse(Digits(value, 10))
  {
    DecimalWidth(value);
    i := 0;
    var v: nat := value;
    ghost var written: seq<byte> := [];
    ghost var rest := Digits(value, 10);
    while v > 0
      invariant i == |written| <= |Digits(value, 10)|
      invariant forall k :: 0 <= k < i ==> temp[k] == written[k]
      invariant rest == (if v == 0 then [] else Digits(v, 10))
      invariant Digits(value, 10) == rest + Reverse(written)
      decreases v
    {
      var tmp := v;
      ghost var d;
      d, rest := StringLib.WriteDigitStep(value, 10, tmp, written);
      temp[i] := Zero + tmp % 10;
      written := written + [d];
      i := i + 1;
      v := v / 10;
    }
    assert temp[..i] == written;
    assert Digits(value, 10) == Reverse(written);
    ReverseReverse(written);
  }

  /** Reading the decimal text back gives the value, and only zero is
      written with a leading '0'. */
  lemma DecimalRoundTrip(value: nat)
    requires value < UintModulus
    ensures ValueOf(Digits(value, 10), 10) == value
    ensures value != 0 ==> Digits(value, 10)[0] != Zero
  {
    DigitsRoundTrip(value, 10);
    DigitsWellFormed(value, 10);
  }
}
