/**
 * The first, bare-bones version of the VGA text writer. It behaves as the
 * kernel's writer does, except that its row clearing always clears the
 * bottom row, whatever row it is given; since the writer only ever clears the
 * bottom row, every writer operation still has the same effect.
 */
module BareBonesVgaBuffer {
  import opened Common
  import opened VgaText

  /** `fmt::Error`: the error a formatting write may report. */
  datatype FmtError = FmtError

  class Writer {
    var columnPosition: nat
    var colorCode: ColorCode
    /** The character buffer; reads and writes of its cells are plain array accesses. */
    const buffer: array2<ScreenChar>

    /** The buffer has the screen's size and the column never passes the right edge. */
    ghost predicate Valid()
      reads this
    {
      buffer.Length0 == BUFFER_HEIGHT && buffer.Length1 == BUFFER_WIDTH && columnPosition <= BUFFER_WIDTH
    }

    /** The buffer's cells, row by row. */
    ghost function Cells(): (g: seq<seq<ScreenChar>>)
      reads buffer
      requires buffer.Length0 == BUFFER_HEIGHT && buffer.Length1 == BUFFER_WIDTH
      ensures IsGrid(g)
      ensures forall r, c :: 0 <= r < BUFFER_HEIGHT && 0 <= c < BUFFER_WIDTH ==> g[r][c] == buffer[r, c]
    {
      seq(BUFFER_HEIGHT, r requires 0 <= r < BUFFER_HEIGHT reads buffer =>
        seq(BUFFER_WIDTH, c requires 0 <= c < BUFFER_WIDTH reads buffer => buffer[r, c]))
    }

    /** The writer as a value: screen, column and colour. */
    ghost function State(): (s: Screen)
      reads this, buffer
      requires Valid()
      ensures s.Valid()
    {
      Screen(Cells(), columnPosition, colorCode)
    }

    /** A writer at column 0, yellow on black, over the given buffer. */
    constructor (buffer: array2<ScreenChar>)
      requires buffer.Length0 == BUFFER_HEIGHT && buffer.Length1 == BUFFER_WIDTH
      ensures Valid() && this.buffer == buffer
      ensures columnPosition == 0 && colorCode == NewColorCode(Yellow, Black) && colorCode.code == 0x0e
    {
      columnPosition := 0;
      colorCode := NewColorCode(Yellow, Black);
      this.buffer := buffer;
    }

    /** Writes one byte: a newline scrolls, any other byte goes into the bottom row. */
    method WriteByte(b: byte)
      requires Valid()
      modifies this, buffer
      ensures Valid() && State() == VgaText.WriteByte(old(State()), b)
    {
      if b == NEWLINE {
        NewLine();
      } else {
        if columnPosition >= BUFFER_WIDTH {
          NewLine();
        }
        PutByte(b);
      }
    }

    /** Stores `b` at the column of the bottom row and moves the column right. */
    method PutByte(b: byte)
      requires Valid() && columnPosition < BUFFER_WIDTH
      modifies this, buffer
      ensures Valid()
      ensures State() == Screen(old(State()).cells[LAST_ROW := old(State()).cells[LAST_ROW][old(columnPosition) := ScreenChar(b, colorCode)]],
                                old(columnPosition) + 1, old(colorCode))
    {
      ghost var before := State();
      var row := BUFFER_HEIGHT - 1;
      var col := columnPosition;
      var colorCode := this.colorCode;
      buffer[row, col] := ScreenChar(b, colorCode);
      columnPosition := columnPosition + 1;
      ghost var want := before.cells[LAST_ROW := before.cells[LAST_ROW][col := ScreenChar(b, colorCode)]];
      forall r | 0 <= r < BUFFER_HEIGHT ensures Cells()[r] == want[r] {
      }
    }

    /** Scrolls the screen up by one row, blanks the bottom row and returns to column 0. */
    method NewLine()
      requires Valid()
      modifies this, buffer
      ensures Valid() && State() == VgaText.NewLine(old(State()))
    {
      for row := 1 to BUFFER_HEIGHT
        modifies buffer
        invariant forall r, c :: 0 <= r < row - 1 && 0 <= c < BUFFER_WIDTH ==> buffer[r, c] == old(buffer[r + 1, c])
        invariant forall r, c :: row - 1 <= r < BUFFER_HEIGHT && 0 <= c < BUFFER_WIDTH ==> buffer[r, c] == old(buffer[r, c])
      {
        for col := 0 to BUFFER_WIDTH
          modifies buffer
          invariant forall r, c :: 0 <= r < row - 1 && 0 <= c < BUFFER_WIDTH ==> buffer[r, c] == old(buffer[r + 1, c])
          invariant forall c :: 0 <= c < col ==> buffer[row - 1, c] == old(buffer[row, c])
          invariant forall r, c :: row - 1 <= r < BUFFER_HEIGHT && 0 <= c < BUFFER_WIDTH && (r != row - 1 || col <= c)
                      ==> buffer[r, c] == old(buffer[r, c])
        {
          var ch := buffer[row, col];
          buffer[row - 1, col] := ch;
        }
      }
      ghost var shifted := ShiftedUp(old(Cells()));
      forall r | 0 <= r < BUFFER_HEIGHT ensures Cells()[r] == shifted[r] {
      }
      assert Cells() == shifted;
      ClearRow(BUFFER_HEIGHT - 1);
      ClearRowsAgreeOnLastRow(shifted, colorCode);
      columnPosition := 0;
    }

    /** Fills the bottom row with blanks in the writer's colour; `row` is not used. */
    method ClearRow(row: nat)
      requires Valid()
      modifies buffer
      ensures Valid() && Cells() == BareBonesClearRow(old(Cells()), row, colorCode)
    {
      var blank := ScreenChar(SPACE, colorCode);
      for col := 0 to BUFFER_WIDTH
        invariant forall c :: 0 <= c < col ==> buffer[LAST_ROW, c] == blank
        invariant forall r, c :: 0 <= r < BUFFER_HEIGHT && 0 <= c < BUFFER_WIDTH && (r != LAST_ROW || col <= c)
                    ==> buffer[r, c] == old(buffer[r, c])
      {
        buffer[BUFFER_HEIGHT - 1, col] := blank;
      }
      ghost var want := BareBonesClearRow(old(Cells()), row, colorCode);
      forall r | 0 <= r < BUFFER_HEIGHT ensures Cells()[r] == want[r] {
      }
    }

    /** Writes each byte of `s`, replacing bytes it cannot show by 0xFE. */
    method WriteString(s: seq<byte>)
      requires Valid()
      modifies this, buffer
      ensures Valid() && State() == VgaText.WriteString(old(State()), s)
    {
      for i := 0 to |s|
        invariant Valid() && State() == VgaText.WriteString(old(State()), s[..i])
      {
        var b := s[i];
        if Printable(b) {
          WriteByte(b);
        } else {
          WriteByte(REPLACEMENT);
        }
        assert s[..i + 1][..i] == s[..i];
      }
      assert s[..|s|] == s;
    }

    /** The formatting sink: writes the string and always reports success. */
    method WriteStr(s: seq<byte>) returns (result: Result<(), FmtError>)
      requires Valid()
      modifies this, buffer
      ensures Valid() && State() == VgaText.WriteString(old(State()), s)
      ensures result == Ok(())
    {
      WriteString(s);
      result := Ok(());
    }
  }

  /**
   * The first two writes of `print_something` on a fresh writer: 'H', then
   * "ello, ". The bottom row then starts with "Hello, " in colour 0x0E and the
   * writer stands at column 7.
   */
  method PrintSomething(buffer: array2<ScreenChar>) returns (writer: Writer)
    requires buffer.Length0 == BUFFER_HEIGHT && buffer.Length1 == BUFFER_WIDTH
    modifies buffer
    ensures writer.buffer == buffer && writer.Valid()
    ensures writer.columnPosition == 7 && writer.colorCode == ColorCode(0x0e)
    ensures forall i :: 0 <= i < 7 ==> buffer[LAST_ROW, i] == ScreenChar(HELLO[i], ColorCode(0x0e))
  {
    writer := new Writer(buffer);
    ghost var start := writer.State();
    writer.WriteByte(0x48);
    writer.WriteString(HELLO[1..]);
    HelloOnFreshWriter(start.cells);
    YellowOnBlack();
  }
}
