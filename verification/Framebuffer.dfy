/**
 * The frame buffer: 128 columns of 4 rows, stored column by column. Three rows belong to the menu or the logo,
 * the fourth is the status line.
 */
module Framebuffer {
  import opened Bytes
  import opened Options

  const COLUMNS: nat := 128
  const ROWS: nat := 4
  const SIZE: nat := COLUMNS * ROWS
  const GLYPHS: nat := 21
  const SPACE: Byte := 0x20

  /** Glyphs for the characters 0x20 to 0x7e, 5 columns each, and 128 columns of 3 rows. */
  type Font = f: seq<Byte> | |f| == 5 * 95 witness Zeros(475)
  type Logo = l: seq<Byte> | |l| == COLUMNS * 3 witness Zeros(384)

  /** A string without its terminator. */
  type Text = t: seq<Byte> | forall i :: 0 <= i < |t| ==> t[i] != 0 witness []

  type Buffer = b: seq<Byte> | |b| == SIZE witness Zeros(512)
  type Row = r: seq<Byte> | |r| == COLUMNS witness Zeros(128)

  /** The byte of every column in a row of the buffer. */
  function RowOf(b: Buffer, row: nat): Row
    requires row < ROWS
  {
    seq(COLUMNS, c requires 0 <= c < COLUMNS => b[c * 4 + row])
  }

  /** The buffer after the first columns of a row have been replaced. */
  function Draw(b: Buffer, row: nat, r: seq<Byte>): Buffer
    requires row < ROWS && |r| <= COLUMNS
  {
    seq(SIZE, j requires 0 <= j < SIZE => if j % 4 == row && j / 4 < |r| then r[j / 4] else b[j])
  }

  lemma DrawNext(b: Buffer, row: nat, r: seq<Byte>, v: Byte)
    requires row < ROWS && |r| < COLUMNS
    ensures Draw(b, row, r + [v]) == Draw(b, row, r)[|r| * 4 + row := v]
  {
    var x, y := Draw(b, row, r + [v]), Draw(b, row, r)[|r| * 4 + row := v];
    forall j | 0 <= j < SIZE ensures x[j] == y[j] {
      assert j % 4 == row && j / 4 == |r| <==> j == |r| * 4 + row;
    }
  }

  lemma DrawIsolatesRows(b: Buffer, row: nat, r: Row, other: nat)
    requires row < ROWS && other < ROWS
    ensures RowOf(Draw(b, row, r), other) == if other == row then r else RowOf(b, other)
  {
    var drawn := Draw(b, row, r);
    forall c | 0 <= c < COLUMNS ensures RowOf(drawn, other)[c] == if other == row then r[c] else RowOf(b, other)[c] {
      assert (c * 4 + other) % 4 == other && (c * 4 + other) / 4 == c;
    }
  }

  /** A buffer is nothing but its rows. */
  lemma RowsDetermineTheBuffer(a: Buffer, b: Buffer)
    requires forall row :: 0 <= row < ROWS ==> RowOf(a, row) == RowOf(b, row)
    ensures a == b
  {
    forall j | 0 <= j < SIZE ensures a[j] == b[j] {
      assert RowOf(a, j % 4)[j / 4] == a[j] && RowOf(b, j % 4)[j / 4] == b[j];
    }
  }

  lemma DrawsCommute(b: Buffer, row1: nat, r1: Row, row2: nat, r2: Row)
    requires row1 < ROWS && row2 < ROWS && row1 != row2
    ensures Draw(Draw(b, row1, r1), row2, r2) == Draw(Draw(b, row2, r2), row1, r1)
  {
    forall row | 0 <= row < ROWS
      ensures RowOf(Draw(Draw(b, row1, r1), row2, r2), row) == RowOf(Draw(Draw(b, row2, r2), row1, r1), row)
    {
      DrawIsolatesRows(b, row1, r1, row);
      DrawIsolatesRows(b, row2, r2, row);
      DrawIsolatesRows(Draw(b, row1, r1), row2, r2, row);
      DrawIsolatesRows(Draw(b, row2, r2), row1, r1, row);
    }
    RowsDetermineTheBuffer(Draw(Draw(b, row1, r1), row2, r2), Draw(Draw(b, row2, r2), row1, r1));
  }

  // Text

  /** The character in a cell: the text is truncated or padded, and what the font does not cover becomes a space. */
  function Cell(line: Option<Text>, cell: nat): Byte {
    if line.None? || cell >= |line.value| || line.value[cell] < 0x20 || line.value[cell] > 0x7f then SPACE
    else line.value[cell]
  }

  /** The font covers every cell; 0x7f is let through but has no glyph. */
  predicate Printable(line: Option<Text>) {
    line.Some? ==> forall k :: 0 <= k < |line.value| && k < GLYPHS ==> line.value[k] != 0x7f
  }

  /** Two empty columns, and then for every cell its glyph and an empty column. */
  function Rendering(font: Font, line: Option<Text>): Row
    requires Printable(line)
  {
    seq(COLUMNS, c requires 0 <= c < COLUMNS =>
      if c < 2 || (c - 2) % 6 == 5 then 0
      else
        assert Cell(line, (c - 2) / 6) != 0x7f;
        font[5 * (Cell(line, (c - 2) / 6) - 0x20) + (c - 2) % 6])
  }

  /** The same, one cell after the other. */
  function FirstCells(font: Font, line: Option<Text>, cells: nat): (r: seq<Byte>)
    requires cells <= GLYPHS && forall k :: 0 <= k < cells ==> Cell(line, k) != 0x7f
    ensures |r| == 2 + 6 * cells
  {
    if cells == 0 then [0, 0]
    else
      assert Cell(line, cells - 1) != 0x7f;
      FirstCells(font, line, cells - 1) + Glyph(font, Cell(line, cells - 1)) + [0]
  }

  function Glyph(font: Font, character: Byte): (g: seq<Byte>)
    requires 0x20 <= character < 0x7f
    ensures |g| == 5
  {
    font[5 * (character - 0x20)..5 * (character - 0x20) + 5]
  }

  lemma CellColumns(font: Font, line: Option<Text>, cell: nat)
    requires cell < GLYPHS && Printable(line)
    ensures var at := 2 + 6 * cell;
            Rendering(font, line)[at..at + 6] == Glyph(font, Cell(line, cell)) + [0]
  {
    var at := 2 + 6 * cell;
    forall i | 0 <= i < 6
      ensures Rendering(font, line)[at + i] == (Glyph(font, Cell(line, cell)) + [0])[i]
    {
      assert (at + i - 2) / 6 == cell && (at + i - 2) % 6 == i;
    }
  }

  lemma {:induction false} CellsRender(font: Font, line: Option<Text>, cells: nat)
    requires cells <= GLYPHS && Printable(line)
    ensures FirstCells(font, line, cells) == Rendering(font, line)[..2 + 6 * cells]
  {
    if cells > 0 {
      CellsRender(font, line, cells - 1);
      CellColumns(font, line, cells - 1);
      var at, whole := 2 + 6 * (cells - 1), Rendering(font, line);
      hide *;
      assert whole[..at + 6] == whole[..at] + whole[at..at + 6];
    }
  }

  function Spaces(n: nat): Text {
    seq(n, _ => SPACE)
  }

  /** No text is the same as spaces, and a text is the same as its first 21 characters with spaces after them. */
  lemma TruncatedAndPadded(font: Font, text: Text, n: nat)
    requires Printable(Some(text))
    ensures Printable(None) && Printable(Some(Spaces(n))) && Rendering(font, Some(Spaces(n))) == Rendering(font, None)
    ensures var t: Text := if |text| > GLYPHS then text[..GLYPHS] else text + Spaces(n);
            Printable(Some(t)) && Rendering(font, Some(t)) == Rendering(font, Some(text))
  {
    var t: Text := if |text| > GLYPHS then text[..GLYPHS] else text + Spaces(n);
    forall cell | 0 <= cell < GLYPHS
      ensures Cell(Some(t), cell) == Cell(Some(text), cell) && Cell(Some(Spaces(n)), cell) == Cell(None, cell)
    {
    }
  }

  /** Column `i` of the glyph of a character in cell `k` is its own font byte; between glyphs, and in the first two
      columns, the row is empty. */
  lemma CharacterShows(font: Font, text: Text, k: nat, i: nat)
    requires Printable(Some(text)) && k < 21 && i < 5
    ensures var row := Rendering(font, Some(text));
      && row[0] == row[1] == row[2 + 6 * k + 5] == 0
      && (k < |text| && 0x20 <= text[k] < 0x7f ==> row[2 + 6 * k + i] == font[5 * (text[k] - 0x20) + i])
      && (k >= |text| || text[k] < 0x20 || text[k] > 0x7f ==> row[2 + 6 * k + i] == font[i])
  {
    assert (2 + 6 * k + i - 2) / 6 == k && (2 + 6 * k + i - 2) % 6 == i;
    assert (2 + 6 * k + 5 - 2) % 6 == 5;
  }

  lemma RowByte(b: Buffer, row: nat, c: nat)
    requires row < 4 && c < 128
    ensures b[4 * c + row] == RowOf(b, row)[c]
  {
  }

  /** Where the bytes of a text are: four bytes for each column, from left to right. */
  lemma TextBytes(font: Font, logo: Logo, s: State, line: Option<Text>, row: nat, c: nat)
    requires row < 4 && Printable(line) && c < 128
    ensures Step(font, logo, s, SetRow(row, line)).buffer[4 * c + row] == Rendering(font, line)[c]
  {
    hide Step, RowOf, Rendering;
    StepOfARow(font, logo, s, SetRow(row, line), row);
    RowByte(Step(font, logo, s, SetRow(row, line)).buffer, row, c);
  }

  /** And those of the logo, which has three bytes for each column. */
  lemma LogoBytes(font: Font, logo: Logo, s: State, c: nat, y: nat)
    requires c < 128 && y < 3
    ensures Step(font, logo, s, DrawLogo).buffer[4 * c + y] == logo[3 * c + y]
  {
    hide Step, RowOf;
    StepOfARow(font, logo, s, DrawLogo, y);
    RowByte(Step(font, logo, s, DrawLogo).buffer, y, c);
  }

  // Runs

  datatype Op = SetRow(row: nat, line: Option<Text>) | DrawLogo | Blit

  /** `panel` is what was last sent to the display. */
  datatype State = State(buffer: Buffer, dirty: bool, panel: Buffer)

  predicate Allowed(op: Op) {
    op.SetRow? ==> op.row < ROWS && Printable(op.line)
  }

  predicate Paints(op: Op, row: nat) {
    (op.SetRow? && op.row == row) || (op.DrawLogo? && row < 3)
  }

  function LogoRow(logo: Logo, row: nat): Row
    requires row < 3
  {
    seq(COLUMNS, x requires 0 <= x < COLUMNS => logo[x * 3 + row])
  }

  /** What an operation that paints a row puts there. */
  function Painted(font: Font, logo: Logo, op: Op, row: nat): Row
    requires Allowed(op) && Paints(op, row)
  {
    if op.SetRow? then Rendering(font, op.line) else LogoRow(logo, row)
  }

  function DrawnLogo(b: Buffer, logo: Logo): Buffer {
    Draw(Draw(Draw(b, 0, LogoRow(logo, 0)), 1, LogoRow(logo, 1)), 2, LogoRow(logo, 2))
  }

  function Step(font: Font, logo: Logo, s: State, op: Op): State
    requires Allowed(op)
  {
    match op
    case SetRow(row, line) => s.(buffer := Draw(s.buffer, row, Rendering(font, line)), dirty := true)
    case DrawLogo => s.(buffer := DrawnLogo(s.buffer, logo), dirty := true)
    case Blit => if s.dirty then s.(panel := s.buffer, dirty := false) else s
  }

  function Run(font: Font, logo: Logo, s: State, ops: seq<Op>): State
    requires forall op :: op in ops ==> Allowed(op)
  {
    if ops == [] then s else Step(font, logo, Run(font, logo, s, ops[..|ops| - 1]), ops[|ops| - 1])
  }

  lemma StepOfARow(font: Font, logo: Logo, s: State, op: Op, row: nat)
    requires Allowed(op) && row < ROWS
    ensures RowOf(Step(font, logo, s, op).buffer, row)
            == if Paints(op, row) then Painted(font, logo, op, row) else RowOf(s.buffer, row)
  {
    if op.SetRow? {
      DrawIsolatesRows(s.buffer, op.row, Rendering(font, op.line), row);
    } else if op.DrawLogo? {
      var b1 := Draw(s.buffer, 0, LogoRow(logo, 0));
      var b2 := Draw(b1, 1, LogoRow(logo, 1));
      DrawIsolatesRows(s.buffer, 0, LogoRow(logo, 0), row);
      DrawIsolatesRows(b1, 1, LogoRow(logo, 1), row);
      DrawIsolatesRows(b2, 2, LogoRow(logo, 2), row);
    }
  }

  /** Whatever is drawn elsewhere, a row keeps showing what was last drawn in it. */
  lemma {:induction false} RowShowsItsLastDrawing(font: Font, logo: Logo, s: State, ops: seq<Op>, row: nat, k: nat)
    requires row < ROWS && (forall op :: op in ops ==> Allowed(op))
    requires k < |ops| && Paints(ops[k], row) && forall op :: op in ops[k + 1..] ==> !Paints(op, row)
    ensures RowOf(Run(font, logo, s, ops).buffer, row) == Painted(font, logo, ops[k], row)
  {
    hide Step, RowOf, Painted, Paints;
    var n := |ops| - 1;
    StepOfARow(font, logo, Run(font, logo, s, ops[..n]), ops[n], row);
    if k < n {
      assert ops[n] in ops[k + 1..] && ops[..n][k + 1..] == ops[k + 1..][..n - k - 1];
      RowShowsItsLastDrawing(font, logo, s, ops[..n], row, k);
    }
  }

  /** The menu and the logo never disturb the status line. */
  lemma {:induction false} StatusLineStays(font: Font, logo: Logo, s: State, ops: seq<Op>)
    requires forall op :: op in ops ==> Allowed(op) && (op.SetRow? ==> op.row < 3)
    ensures RowOf(Run(font, logo, s, ops).buffer, 3) == RowOf(s.buffer, 3)
  {
    if ops != [] {
      var n := |ops| - 1;
      hide Step, RowOf, Painted;
      StatusLineStays(font, logo, s, ops[..n]);
      StepOfARow(font, logo, Run(font, logo, s, ops[..n]), ops[n], 3);
    }
  }

  /** Once anything has been drawn, sending the buffer brings the display up to date. */
  lemma {:induction false} BlitIsUpToDate(font: Font, logo: Logo, s: State, ops: seq<Op>)
    requires forall op :: op in ops ==> Allowed(op)
    requires exists op :: op in ops && op != Blit
    ensures var t := Run(font, logo, s, ops); t.dirty || t.panel == t.buffer
    ensures var t := Step(font, logo, Run(font, logo, s, ops), Blit);
      t.panel == t.buffer == Run(font, logo, s, ops).buffer
  {
    var n := |ops| - 1;
    if ops[n] == Blit {
      var op :| op in ops && op != Blit;
      assert op in ops[..n];
      BlitIsUpToDate(font, logo, s, ops[..n]);
    }
  }

  lemma FirstTwo(b: Buffer, row: nat)
    requires row < ROWS
    ensures Draw(b, row, [0, 0]) == b[row := 0][row + 4 := 0]
  {
    assert Draw(b, row, []) == b;
    DrawNext(b, row, [], 0);
    DrawNext(b, row, [0], 0);
    assert [] + [0 as Byte] == [0] && [0 as Byte] + [0] == [0, 0];
  }

  /** The buffer while the logo is drawn, with the number of columns that are finished in each row. */
  function LogoUpTo(b: Buffer, logo: Logo, n0: nat, n1: nat, n2: nat): Buffer
    requires n0 <= COLUMNS && n1 <= COLUMNS && n2 <= COLUMNS
  {
    Draw(Draw(Draw(b, 0, LogoRow(logo, 0)[..n0]), 1, LogoRow(logo, 1)[..n1]), 2, LogoRow(logo, 2)[..n2])
  }

  lemma NothingDrawn(b: Buffer, logo: Logo)
    ensures LogoUpTo(b, logo, 0, 0, 0) == b
  {
    forall row | 0 <= row < 3 ensures Draw(b, row, []) == b {}
  }

  /** How many columns of a row are finished when `y` rows of column `x` are. */
  function Finished(row: nat, x: nat, y: nat): nat {
    if row < y then x + 1 else x
  }

  lemma NextLogoByte(b: Buffer, logo: Logo, x: nat, y: nat)
    requires x < COLUMNS && y < 3
    ensures LogoUpTo(b, logo, Finished(0, x, y + 1), Finished(1, x, y + 1), Finished(2, x, y + 1))
            == LogoUpTo(b, logo, Finished(0, x, y), Finished(1, x, y), Finished(2, x, y))[x * 4 + y := logo[x * 3 + y]]
  {
    var l := LogoUpTo(b, logo, Finished(0, x, y + 1), Finished(1, x, y + 1), Finished(2, x, y + 1));
    var r := LogoUpTo(b, logo, Finished(0, x, y), Finished(1, x, y), Finished(2, x, y))[x * 4 + y := logo[x * 3 + y]];
    forall j | 0 <= j < SIZE ensures l[j] == r[j] {
      assert j % 4 == y && j / 4 == x <==> j == x * 4 + y;
    }
  }

  class Display {
    const font: Font
    const logo: Logo
    const buffer: array<Byte>
    var dirty: bool
    // Stands for the device.
    ghost var panel: Buffer

    ghost predicate Valid()
      reads this, buffer
    {
      buffer.Length == SIZE
    }

    ghost function GetState(): State
      requires Valid()
      reads this, buffer
    {
      State(buffer[..], dirty, panel)
    }

    constructor (font: Font, logo: Logo, ghost panel: Buffer)
      ensures Valid() && GetState() == State(Zeros(SIZE), false, panel) && fresh(buffer)
      ensures this.font == font && this.logo == logo
    {
      this.font, this.logo, this.panel := font, logo, panel;
      buffer := new Byte[SIZE](_ => 0);
      dirty := false;
    }

    /** `Display::set_row`: stops and returns false if it would read a glyph that the font does not have. */
    method SetRow(row: nat, line: Option<Text>) returns (inside: bool)
      requires Valid() && row < ROWS
      modifies this`dirty, buffer
      ensures Valid() && (inside <==> Printable(line))
      ensures inside ==> GetState() == Step(font, logo, old(GetState()), Op.SetRow(row, line))
    {
      hide Draw, Glyph, Rendering, RowOf;
      dirty := true;
      ghost var was := buffer[..];
      buffer[row] := 0;
      buffer[row + 4] := 0;
      FirstTwo(was, row);
      var rest := line;
      for cell := 0 to GLYPHS
        invariant Valid() && GetState() == old(GetState()).(buffer := buffer[..], dirty := true)
        invariant forall k :: 0 <= k < cell ==> Cell(line, k) != 0x7f
        invariant rest == if line.Some? && cell <= |line.value| then Some(line.value[cell..]) else None
        invariant buffer[..] == Draw(was, row, FirstCells(font, line, cell))
      {
        var pixel := cell * 6 + 2;
        var character := SPACE;
        if rest.Some? {
          if rest.value != [] {
            character := rest.value[0];
            rest := Some(rest.value[1..]);
          } else {
            rest := None;
          }
        }
        if character < 0x20 || character > 0x7f {
          character := SPACE;
        }
        assert character == Cell(line, cell);
        if 5 * (character - 0x20) + 5 > |font| {
          return false;
        }
        DrawGlyph(row, pixel, character, was, FirstCells(font, line, cell));
      }
      forall k | line.Some? && 0 <= k < |line.value| && k < GLYPHS ensures line.value[k] != 0x7f {
        assert Cell(line, k) != 0x7f;
      }
      CellsRender(font, line, GLYPHS);
      assert Rendering(font, line)[..COLUMNS] == Rendering(font, line);
      return true;
    }

    method DrawGlyph(row: nat, pixel: nat, character: Byte, ghost was: Buffer, ghost done: seq<Byte>)
      requires Valid() && row < ROWS && 0x20 <= character < 0x7f
      requires pixel == |done| && pixel + 6 <= COLUMNS && buffer[..] == Draw(was, row, done)
      modifies buffer
      ensures buffer[..] == Draw(was, row, done + Glyph(font, character) + [0])
    {
      hide Draw;
      var glyph := Glyph(font, character);
      assert done + glyph[..0] == done;
      for i := 0 to 5
        invariant Valid() && buffer[..] == Draw(was, row, done + glyph[..i])
      {
        DrawNext(was, row, done + glyph[..i], glyph[i]);
        assert done + glyph[..i + 1] == done + glyph[..i] + [glyph[i]];
        buffer[(pixel + i) * 4 + row] := glyph[i];
      }
      assert glyph[..5] == glyph;
      DrawNext(was, row, done + glyph, 0);
      buffer[(pixel + 5) * 4 + row] := 0;
    }

    method DrawLogo()
      requires Valid()
      modifies this`dirty, buffer
      ensures Valid() && GetState() == Step(font, logo, old(GetState()), Op.DrawLogo)
    {
      hide Draw, RowOf;
      dirty := true;
      var at := 0;
      ghost var was := buffer[..];
      NothingDrawn(was, logo);
      for x := 0 to COLUMNS
        invariant Valid() && GetState() == old(GetState()).(buffer := buffer[..], dirty := true)
        invariant at == x * 3 && buffer[..] == LogoUpTo(was, logo, x, x, x)
      {
        for y := 0 to 3
          invariant Valid() && GetState() == old(GetState()).(buffer := buffer[..], dirty := true)
          invariant at == x * 3 + y
          invariant buffer[..] == LogoUpTo(was, logo, Finished(0, x, y), Finished(1, x, y), Finished(2, x, y))
        {
          NextLogoByte(was, logo, x, y);
          buffer[x * 4 + y] := logo[at];
          at := at + 1;
        }
      }
      forall row | 0 <= row < 3 ensures LogoRow(logo, row)[..COLUMNS] == LogoRow(logo, row) {}
    }

    method Blit()
      requires Valid()
      modifies this`dirty, this`panel
      ensures Valid() && GetState() == Step(font, logo, old(GetState()), Op.Blit)
    {
      if dirty {
        dirty := false;
        panel := buffer[..];
      }
    }
  }
}
