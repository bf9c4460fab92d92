/**
 * The VGA text screen as a value: 25 rows of 80 character cells, the
 * writer's column and its colour byte, and what each writer operation does
 * to them. Both versions of the in-place writer are proved against these
 * functions, and the properties of the writer are proved about them.
 */
module VgaText {

  newtype byte = x: int | 0 <= x < 256

  const BUFFER_HEIGHT: nat := 25
  const BUFFER_WIDTH: nat := 80
  /** The row the writer writes into: the bottom one. */
  const LAST_ROW: nat := BUFFER_HEIGHT - 1

  const NEWLINE: byte := 0x0a
  const SPACE: byte := 0x20
  /** What `write_string` prints for a byte it cannot show (a small square). */
  const REPLACEMENT: byte := 0xfe

  /** The sixteen VGA colours. */
  datatype Color =
    | Black | Blue | Green | Cyan | Red | Magenta | Brown | LightGray
    | DarkGray | LightBlue | LightGreen | LightCyan | LightRed | Pink | Yellow | White
  {
    /** The colour's number. */
    function Value(): (v: byte)
      ensures v < 16
    {
      match this
      case Black => 0
      case Blue => 1
      case Green => 2
      case Cyan => 3
      case Red => 4
      case Magenta => 5
      case Brown => 6
      case LightGray => 7
      case DarkGray => 8
      case LightBlue => 9
      case LightGreen => 10
      case LightCyan => 11
      case LightRed => 12
      case Pink => 13
      case Yellow => 14
      case White => 15
    }
  }

  /** The colour whose number is `v`. */
  function ColorOf(v: byte): (c: Color)
    requires v < 16
    ensures c.Value() == v
  {
    if v == 0 then Black else if v == 1 then Blue else if v == 2 then Green
    else if v == 3 then Cyan else if v == 4 then Red else if v == 5 then Magenta
    else if v == 6 then Brown else if v == 7 then LightGray else if v == 8 then DarkGray
    else if v == 9 then LightBlue else if v == 10 then LightGreen else if v == 11 then LightCyan
    else if v == 12 then LightRed else if v == 13 then Pink else if v == 14 then Yellow
    else White
  }

  /** A colour byte: background in the high nibble, foreground in the low one. */
  datatype ColorCode = ColorCode(code: byte)

  function Foreground(c: ColorCode): Color
  {
    ColorOf(c.code % 16)
  }

  function Background(c: ColorCode): Color
  {
    ColorOf(c.code / 16)
  }

  /** `high << 4 | low` on bytes, for two nibbles. */
  function PackNibbles(high: byte, low: byte): (b: byte)
    requires high < 16 && low < 16
    ensures b as int == high as int * 16 + low as int
    ensures b / 16 == high && b % 16 == low
  {
    (((high as bv8) << 4) | (low as bv8)) as byte
  }

  lemma ColorOfValue(c: Color)
    ensures ColorOf(c.Value()) == c
  {
  }

  /** The colour byte of `foreground` on `background`: background shifted left by four, or-ed with foreground. */
  function NewColorCode(foreground: Color, background: Color): (c: ColorCode)
    ensures c.code as int == background.Value() as int * 16 + foreground.Value() as int
    ensures Foreground(c) == foreground && Background(c) == background
  {
    ColorOfValue(foreground);
    ColorOfValue(background);
    ColorCode(PackNibbles(background.Value(), foreground.Value()))
  }

  /** A character cell: the byte shown and its colour. */
  datatype ScreenChar = ScreenChar(asciiCharacter: byte, colorCode: ColorCode)

  function Blank(color: ColorCode): ScreenChar
  {
    ScreenChar(SPACE, color)
  }

  function BlankRow(color: ColorCode): seq<ScreenChar>
  {
    seq(BUFFER_WIDTH, _ => Blank(color))
  }

  /** 25 rows of 80 cells. */
  predicate IsGrid(cells: seq<seq<ScreenChar>>)
  {
    |cells| == BUFFER_HEIGHT && forall r :: 0 <= r < |cells| ==> |cells[r]| == BUFFER_WIDTH
  }

  /** The writer's screen, column and colour. */
  datatype Screen = Screen(cells: seq<seq<ScreenChar>>, column: nat, color: ColorCode)
  {
    /** The grid has its fixed size and the column never passes the right edge. */
    predicate Valid()
    {
      IsGrid(cells) && column <= BUFFER_WIDTH
    }
  }

  /** Row `row` blanked in the given colour; every other row kept. */
  function ClearRow(cells: seq<seq<ScreenChar>>, row: nat, color: ColorCode): (r: seq<seq<ScreenChar>>)
    requires IsGrid(cells) && row < BUFFER_HEIGHT
    ensures IsGrid(r)
    ensures forall c :: 0 <= c < BUFFER_WIDTH ==> r[row][c] == Blank(color)
    ensures forall i :: 0 <= i < BUFFER_HEIGHT && i != row ==> r[i] == cells[i]
  {
    cells[row := BlankRow(color)]
  }

  /** The earlier clearing of a row: the bottom row is blanked whatever `row` says. */
  function BareBonesClearRow(cells: seq<seq<ScreenChar>>, row: nat, color: ColorCode): (r: seq<seq<ScreenChar>>)
    requires IsGrid(cells)
    ensures IsGrid(r)
    ensures forall c :: 0 <= c < BUFFER_WIDTH ==> r[LAST_ROW][c] == Blank(color)
    ensures forall i :: 0 <= i < LAST_ROW ==> r[i] == cells[i]
  {
    cells[LAST_ROW := BlankRow(color)]
  }

  /** Every row copied onto the row above it; the bottom row stays as it was. */
  function ShiftedUp(cells: seq<seq<ScreenChar>>): (r: seq<seq<ScreenChar>>)
    requires IsGrid(cells)
    ensures IsGrid(r)
  {
    cells[1..] + [cells[LAST_ROW]]
  }

  /** `new_line`: scroll up by one row, blank the bottom row, return to column 0. */
  function NewLine(s: Screen): (r: Screen)
    requires s.Valid()
    ensures r.Valid() && r.color == s.color
    ensures forall i :: 1 <= i < BUFFER_HEIGHT ==> r.cells[i - 1] == s.cells[i]
    ensures r.cells[LAST_ROW] == BlankRow(s.color)
    ensures r.column == 0
  {
    Screen(ClearRow(ShiftedUp(s.cells), LAST_ROW, s.color), 0, s.color)
  }

  /**
   * `write_byte`: a newline scrolls; any other byte first scrolls if the
   * bottom row is full, then is stored at the column, which moves right.
   */
  function WriteByte(s: Screen, b: byte): (r: Screen)
    requires s.Valid()
    ensures r.Valid() && r.color == s.color
  {
    if b == NEWLINE then NewLine(s)
    else
      var t := if s.column >= BUFFER_WIDTH then NewLine(s) else s;
      Screen(t.cells[LAST_ROW := t.cells[LAST_ROW][t.column := ScreenChar(b, t.color)]], t.column + 1, t.color)
  }

  /** Bytes `write_string` passes on unchanged: printable ASCII and the newline. */
  predicate Printable(b: byte)
  {
    0x20 <= b <= 0x7e || b == NEWLINE
  }

  /** The byte `write_string` hands to `write_byte` for `b`. */
  function Sanitize(b: byte): (c: byte)
    ensures c == b || c == REPLACEMENT
    ensures c == b <==> Printable(b) || b == REPLACEMENT
  {
    if Printable(b) then b else REPLACEMENT
  }

  /** `write_string`: one `write_byte` per input byte, unprintable bytes replaced. */
  function WriteString(s: Screen, bytes: seq<byte>): (r: Screen)
    requires s.Valid()
    ensures r.Valid() && r.color == s.color
    decreases |bytes|
  {
    if bytes == [] then s
    else WriteByte(WriteString(s, bytes[..|bytes| - 1]), Sanitize(bytes[|bytes| - 1]))
  }

  // ---------------------------------------------------------------------------
  // Properties
  // ---------------------------------------------------------------------------

  /** Yellow on black is the byte 0x0E. */
  lemma YellowOnBlack()
    ensures NewColorCode(Yellow, Black) == ColorCode(0x0e)
  {
  }

  /**
   * The earlier clearing ignores its row: asked to clear row 0 of a screen
   * full of 'A', it leaves row 0 as it was.
   */
  lemma BareBonesClearRowIgnoresRow(color: ColorCode)
    ensures var cells := seq(BUFFER_HEIGHT, _ => seq(BUFFER_WIDTH, _ => ScreenChar(0x41, color)));
            IsGrid(cells) && BareBonesClearRow(cells, 0, color)[0] == cells[0]
            && BareBonesClearRow(cells, 0, color)[0] != BlankRow(color)
  {
    var cells := seq(BUFFER_HEIGHT, _ => seq(BUFFER_WIDTH, _ => ScreenChar(0x41, color)));
    assert cells[0][0] != BlankRow(color)[0];
  }

  /** On the bottom row, the only row `new_line` clears, the two clearings agree. */
  lemma ClearRowsAgreeOnLastRow(cells: seq<seq<ScreenChar>>, color: ColorCode)
    requires IsGrid(cells)
    ensures BareBonesClearRow(cells, LAST_ROW, color) == ClearRow(cells, LAST_ROW, color)
  {
  }

  /** A byte written inside the row lands at the column, which moves right; no other cell changes. */
  lemma WriteByteInRow(s: Screen, b: byte)
    requires s.Valid() && b != NEWLINE && s.column < BUFFER_WIDTH
    ensures WriteByte(s, b).cells[LAST_ROW][s.column] == ScreenChar(b, s.color)
    ensures WriteByte(s, b).column == s.column + 1
    ensures forall r, c :: 0 <= r < BUFFER_HEIGHT && 0 <= c < BUFFER_WIDTH && (r, c) != (LAST_ROW, s.column)
              ==> WriteByte(s, b).cells[r][c] == s.cells[r][c]
  {
  }

  /** A byte written past the right edge scrolls first and lands in column 0. */
  lemma WriteByteAtEdge(s: Screen, b: byte)
    requires s.Valid() && b != NEWLINE && s.column == BUFFER_WIDTH
    ensures WriteByte(s, b).column == 1
    ensures WriteByte(s, b).cells[LAST_ROW][0] == ScreenChar(b, s.color)
    ensures forall c :: 1 <= c < BUFFER_WIDTH ==> WriteByte(s, b).cells[LAST_ROW][c] == Blank(s.color)
    ensures forall r :: 1 <= r < BUFFER_HEIGHT ==> WriteByte(s, b).cells[r - 1] == s.cells[r]
  {
  }

  /** A newline byte is exactly a `new_line`. */
  lemma WriteNewline(s: Screen)
    requires s.Valid()
    ensures WriteByte(s, NEWLINE) == NewLine(s)
  {
  }

  /**
   * `write_string` hands printable bytes and newlines through and replaces
   * every other byte by 0xFE, one `write_byte` per input byte.
   */
  lemma WriteStringStep(s: Screen, bytes: seq<byte>, b: byte)
    requires s.Valid()
    ensures Printable(b) ==> WriteString(s, bytes + [b]) == WriteByte(WriteString(s, bytes), b)
    ensures !Printable(b) ==> WriteString(s, bytes + [b]) == WriteByte(WriteString(s, bytes), REPLACEMENT)
  {
    assert (bytes + [b])[..|bytes|] == bytes;
  }

  /**
   * Printable bytes that fit in the rest of the bottom row are laid out left
   * to right from the column; nothing else on the screen changes.
   */
  lemma {:induction false} WriteStringOnOneRow(s: Screen, bytes: seq<byte>)
    requires s.Valid() && s.column + |bytes| <= BUFFER_WIDTH
    requires forall i :: 0 <= i < |bytes| ==> 0x20 <= bytes[i] <= 0x7e
    ensures WriteString(s, bytes).column == s.column + |bytes|
    ensures forall i :: 0 <= i < |bytes| ==> WriteString(s, bytes).cells[LAST_ROW][s.column + i] == ScreenChar(bytes[i], s.color)
    ensures forall c :: 0 <= c < BUFFER_WIDTH && !(s.column <= c < s.column + |bytes|)
              ==> WriteString(s, bytes).cells[LAST_ROW][c] == s.cells[LAST_ROW][c]
    ensures forall r :: 0 <= r < LAST_ROW ==> WriteString(s, bytes).cells[r] == s.cells[r]
    decreases |bytes|
  {
    if bytes != [] {
      var init := bytes[..|bytes| - 1];
      WriteStringOnOneRow(s, init);
      var t := WriteString(s, init);
      var last := bytes[|bytes| - 1];
      assert Sanitize(last) == last;
      assert WriteString(s, bytes) == WriteByte(t, last);
      WriteByteInRow(t, last);
    }
  }

  /** The bytes of "Hello, ". */
  const HELLO: seq<byte> := [0x48, 0x65, 0x6c, 0x6c, 0x6f, 0x2c, 0x20]

  /**
   * A fresh yellow-on-black writer that writes 'H' and then "ello, " shows
   * "Hello, " in colour 0x0E in columns 0 to 6 of the bottom row, and stands
   * at column 7.
   */
  lemma HelloOnFreshWriter(cells: seq<seq<ScreenChar>>)
    requires IsGrid(cells)
    ensures var s := WriteString(WriteByte(Screen(cells, 0, NewColorCode(Yellow, Black)), 0x48), HELLO[1..]);
            s.column == 7 && forall i :: 0 <= i < 7 ==> s.cells[LAST_ROW][i] == ScreenChar(HELLO[i], ColorCode(0x0e))
  {
    var s0 := Screen(cells, 0, NewColorCode(Yellow, Black));
    var s1 := WriteByte(s0, 0x48);
    WriteByteInRow(s0, 0x48);
    WriteStringOnOneRow(s1, HELLO[1..]);
  }
}
