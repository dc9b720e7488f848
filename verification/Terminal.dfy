/** The text terminal of src/kernel/video/vga.c.

    `History` is an unbounded list of wrapped lines; the screen is proved to show its last 25
    lines, in the back buffer and in the hardware buffer alike. */
module Terminal {
  import Numbers
  import opened Machine

  const WIDTH := 80
  const HEIGHT := 25
  const CELLS := 2000
  const DEFAULT_COLOR: bv8 := 0x07
  const NUL: char := '\0'
  const BACKSPACE: char := '\U{8}'

  /** A character cell; the source packs the two bytes into one 16-bit word. */
  datatype Cell = Cell(glyph: char, color: bv8)

  /** A wrapped line: what was written, the colour of the cells not written, and whether a
      newline (rather than the right margin) ended it. */
  datatype Line = Line(cells: seq<Cell>, fill: bv8, broken: bool)

  ghost predicate NoNewline(cells: seq<Cell>) {
    forall k :: 0 <= k < |cells| ==> cells[k].glyph != '\n'
  }

  /** A line is complete when it is full, or when a newline ended it before. */
  ghost predicate Complete(line: Line) {
    NoNewline(line.cells) && |line.cells| <= WIDTH && (line.broken <==> |line.cells| < WIDTH)
  }

  ghost predicate Open(line: Line) {
    NoNewline(line.cells) && |line.cells| < WIDTH && !line.broken
  }

  /** All lines since the screen was cleared, in the given colour; the last is still open. */
  datatype History = History(lines: seq<Line>, cleared: bv8) {
    ghost predicate Wrapped() {
      && lines != []
      && (forall i :: 0 <= i < |lines| - 1 ==> Complete(lines[i]))
      && Open(lines[|lines| - 1])
    }

    function Last(): Line
      requires lines != []
    {
      lines[|lines| - 1]
    }

    /** The line shown in row 0. */
    function Top(): nat {
      if |lines| <= HEIGHT then 0 else |lines| - HEIGHT
    }

    /** The cell the screen shows at index i, row by row. */
    function Shown(i: nat): Cell {
      var row, column := Top() + i / WIDTH, i % WIDTH;
      if |lines| <= row then Cell(' ', cleared)
      else if column < |lines[row].cells| then lines[row].cells[column]
      else Cell(' ', lines[row].fill)
    }

    function WithLast(line: Line): History
      requires lines != []
    {
      History(lines[..|lines| - 1] + [line], cleared)
    }

    /** Opens a line: a row still blank from the clearing while there is one, else a row blanked
        by scrolling in the colour of the moment. */
    function Opened(color: bv8): History {
      History(lines + [Line([], if |lines| < HEIGHT then cleared else color, false)], cleared)
    }

    function Put(c: char, color: bv8): History
      requires lines != []
    {
      if c == '\n' then WithLast(Last().(broken := true)).Opened(color)
      else
        var written := WithLast(Last().(cells := Last().cells + [Cell(c, color)]));
        if |written.Last().cells| == WIDTH then written.Opened(color) else written
    }

    function Print(text: string, color: bv8): (h: History)
      requires lines != []
      ensures h.lines != []
      decreases |text|
    {
      if text == "" then this else Put(text[0], color).Print(text[1..], color)
    }

    /** The text that a history records. */
    function Text(): string {
      TextOf(lines)
    }
  }

  /** The row of the open line. */
  function Row(h: History): int {
    (if |h.lines| <= HEIGHT then |h.lines| else HEIGHT) - 1
  }

  function Cleared(color: bv8): History {
    History([Line([], color, false)], color)
  }

  function Glyphs(cells: seq<Cell>): string {
    seq(|cells|, i requires 0 <= i < |cells| => cells[i].glyph)
  }

  function LineText(line: Line): string {
    Glyphs(line.cells) + if line.broken then "\n" else ""
  }

  function TextOf(lines: seq<Line>): string {
    if lines == [] then "" else TextOf(lines[..|lines| - 1]) + LineText(lines[|lines| - 1])
  }

  lemma OpenedText(h: History, color: bv8)
    ensures h.Opened(color).Text() == h.Text()
  {
    var more := h.Opened(color);
    assert more.lines[..|more.lines| - 1] == h.lines;
    assert LineText(more.Last()) == "";
  }

  lemma WithLastText(h: History, line: Line, c: char)
    requires h.lines != [] && LineText(line) == LineText(h.Last()) + [c]
    ensures h.WithLast(line).Text() == h.Text() + [c]
  {
    var written := h.WithLast(line);
    assert written.lines[..|written.lines| - 1] == h.lines[..|h.lines| - 1];
  }

  lemma PutText(h: History, c: char, color: bv8)
    requires h.Wrapped()
    ensures h.Put(c, color).Wrapped() && h.Put(c, color).Text() == h.Text() + [c]
  {
    hide TextOf, History.Text;
    var last := h.Last();
    var line := if c == '\n' then last.(broken := true) else last.(cells := last.cells + [Cell(c, color)]);
    assert LineText(line) == LineText(last) + [c];
    WithLastText(h, line, c);
    OpenedText(h.WithLast(line), color);
  }

  /** Ending the last line by a newline shows nothing. */
  lemma BrokenShown(h: History, i: nat)
    requires h.lines != [] && i < CELLS
    ensures h.WithLast(h.Last().(broken := true)).Shown(i) == h.Shown(i)
  {
  }

  /** Writing a cell shows it at the cursor and nowhere else. */
  lemma WrittenShown(h: History, cell: Cell, i: nat)
    requires h.Wrapped() && i < CELLS
    ensures h.WithLast(h.Last().(cells := h.Last().cells + [cell])).Shown(i) ==
            if i == (|h.lines| - 1 - h.Top()) * WIDTH + |h.Last().cells| then cell else h.Shown(i)
  {
  }

  /** Opening a line changes nothing while there are blank rows, and scrolls otherwise. */
  lemma OpenedShown(h: History, color: bv8, i: nat)
    requires h.lines != [] && i < CELLS
    ensures h.Opened(color).Shown(i) ==
            if |h.lines| < HEIGHT then h.Shown(i)
            else if i < CELLS - WIDTH then h.Shown(i + WIDTH)
            else Cell(' ', color)
  {
  }

  /** The history after a glyph, before and after the line it may open. */
  lemma GlyphStep(h: History, c: char, color: bv8) returns (written: History)
    requires h.Wrapped() && c != '\n'
    ensures written.lines != [] && Row(written) == Row(h) && h.Put(c, color).Wrapped()
    ensures forall i :: 0 <= i < CELLS ==>
              written.Shown(i) == if i == Row(h) * WIDTH + |h.Last().cells| then Cell(c, color) else h.Shown(i)
    ensures if |h.Last().cells| + 1 == WIDTH
            then h.Put(c, color) == written.Opened(color) != written && |h.Put(c, color).Last().cells| == 0
            else h.Put(c, color) == written && |written.Last().cells| == |h.Last().cells| + 1
  {
    written := h.WithLast(h.Last().(cells := h.Last().cells + [Cell(c, color)]));
    forall i | 0 <= i < CELLS
      ensures written.Shown(i) == if i == Row(h) * WIDTH + |h.Last().cells| then Cell(c, color) else h.Shown(i)
    {
      WrittenShown(h, Cell(c, color), i);
    }
    PutText(h, c, color);
    assert |written.Opened(color).lines| == |written.lines| + 1;
  }

  // ---- The screen without lines --------------------------------------------------------------

  /** Where the cursor is after a character, counting cells row by row and not yet scrolling. */
  function NextPosition(pos: nat, c: char): nat {
    if c == '\n' then (pos / WIDTH + 1) * WIDTH else pos + 1
  }

  /** Cell i after a character at pos: it is shown there, in its colour, nothing else changes, and past the
      last cell everything moves up by a row. */
  function Typed(screen: seq<Cell>, pos: nat, c: char, color: bv8, i: nat): Cell
    requires |screen| == CELLS
  {
    var j := if NextPosition(pos, c) < CELLS then i else i + WIDTH;
    if CELLS <= j then Cell(' ', color) else if c != '\n' && j == pos then Cell(c, color) else screen[j]
  }

  /** Showing the last 25 lines of the history is typing on 2000 cells. */
  lemma PutIsTyped(h: History, c: char, color: bv8, screen: seq<Cell>, i: nat)
    requires h.Wrapped() && i < CELLS && |screen| == CELLS && forall k :: 0 <= k < CELLS ==> screen[k] == h.Shown(k)
    ensures var pos, h' := Row(h) * WIDTH + |h.Last().cells|, h.Put(c, color);
            var next := NextPosition(pos, c);
            && h'.lines != [] && h'.Shown(i) == Typed(screen, pos, c, color, i)
            && Row(h') * WIDTH + |h'.Last().cells| == if next < CELLS then next else next - WIDTH
  {
    hide History.Shown;
    if c == '\n' {
      var closed := h.WithLast(h.Last().(broken := true));
      assert |closed.lines| == |h.lines| && h.Put(c, color) == closed.Opened(color);
      forall k | 0 <= k < CELLS ensures closed.Shown(k) == h.Shown(k) { BrokenShown(h, k); }
      OpenedShown(closed, color, i);
      NewlinePosition(h);
    } else {
      var written := GlyphStep(h, c, color);
      if written != h.Put(c, color) { OpenedShown(written, color, i); }
    }
  }

  lemma NewlinePosition(h: History)
    requires h.Wrapped()
    ensures NextPosition(Row(h) * WIDTH + |h.Last().cells|, '\n') == (Row(h) + 1) * WIDTH
  {
  }

  /** Where the cursor is after a text, from the start of the screen. */
  function Position(text: string): nat {
    if text == "" then 0 else NextPosition(Position(text[..|text| - 1]), text[|text| - 1])
  }

  /** A text that fits on the cleared screen stands there: every character at its position, in its colour,
      and blanks everywhere else. */
  lemma {:induction false} TextStands(text: string, color: bv8, blank: bv8)
    requires Position(text) < CELLS
    ensures var h := Cleared(blank).Print(text, color);
            && h.Wrapped() && Row(h) * WIDTH + |h.Last().cells| == Position(text)
            && (forall k :: 0 <= k < |text| && text[k] != '\n' ==>
                  Position(text[..k]) < CELLS && h.Shown(Position(text[..k])) == Cell(text[k], color))
            && (forall i :: 0 <= i < CELLS && (forall k :: 0 <= k < |text| && text[k] != '\n' ==> Position(text[..k]) != i) ==>
                  h.Shown(i) == Cell(' ', blank))
  {
    hide History.Shown, History.Put, TextOf, LineText, History.Print, NextPosition, History.Wrapped;
    if text == "" {
      ClearedShown(blank);
      PrintNothing(Cleared(blank), color);
    } else {
      var n := |text| - 1;
      var front, c := text[..n], text[n];
      var g := Cleared(blank).Print(front, color);
      assert text[..|text|] == text;
      PositionGrows(text, n, |text|);
      TextStands(front, color, blank);
      PrintNext(Cleared(blank), text, n, color);
      PutStands(g, c, color, Position(front));
      forall k | 0 <= k < n ensures front[..k] == text[..k] && Position(text[..k]) < Position(front) {
        PositionGrows(text, k, n);
      }
    }
  }

  lemma PrintNothing(h: History, color: bv8)
    requires h.lines != []
    ensures h.Print("", color) == h
  {
  }

  /** One more character that fits. */
  lemma PutStands(g: History, c: char, color: bv8, pos: nat)
    requires g.Wrapped() && pos == Row(g) * WIDTH + |g.Last().cells| && NextPosition(pos, c) < CELLS
    ensures var h := g.Put(c, color);
            && h.Wrapped() && Row(h) * WIDTH + |h.Last().cells| == NextPosition(pos, c)
            && forall i :: 0 <= i < CELLS ==> h.Shown(i) == if c != '\n' && i == pos then Cell(c, color) else g.Shown(i)
  {
    hide History.Shown, History.Put, TextOf, LineText, NextPosition;
    var screen := seq(CELLS, i requires 0 <= i => g.Shown(i));
    PutText(g, c, color);
    PutIsTyped(g, c, color, screen, 0);
    forall i | 0 <= i < CELLS
      ensures g.Put(c, color).Shown(i) == if c != '\n' && i == pos then Cell(c, color) else g.Shown(i)
    {
      PutIsTyped(g, c, color, screen, i);
    }
  }

  lemma ClearedShown(blank: bv8)
    ensures Cleared(blank).Wrapped() && forall i :: 0 <= i < CELLS ==> Cleared(blank).Shown(i) == Cell(' ', blank)
  {
  }

  lemma {:induction false} PositionGrows(text: string, k: nat, n: nat)
    requires k < n <= |text|
    ensures Position(text[..k]) < Position(text[..n])
  {
    assert text[..n][..n - 1] == text[..n - 1];
    if k < n - 1 { PositionGrows(text, k, n - 1); }
  }

  /** Nothing is lost or added by wrapping: the history records exactly the text printed, its
      lines are at most 80 wide, and a line that no newline ended is full. */
  lemma {:induction false} PrintText(h: History, text: string, color: bv8)
    requires h.Wrapped()
    ensures h.Print(text, color).Wrapped() && h.Print(text, color).Text() == h.Text() + text
    decreases |text|
  {
    hide TextOf, LineText, History.Put;
    if text != "" {
      PutText(h, text[0], color);
      PrintText(h.Put(text[0], color), text[1..], color);
      assert [text[0]] + text[1..] == text;
    }
  }

  lemma {:induction false} TextFront(lines: seq<Line>)
    requires lines != []
    ensures TextOf(lines) == LineText(lines[0]) + TextOf(lines[1..])
    ensures |lines| == 1 ==> TextOf(lines) == LineText(lines[0])
  {
    var n := |lines|;
    if n > 1 {
      TextFront(lines[..n - 1]);
      assert lines[..n - 1][1..] == lines[1..][..n - 2];
      assert LineText(lines[0]) + (TextOf(lines[1..][..n - 2]) + LineText(lines[n - 1]))
          == LineText(lines[0]) + TextOf(lines[1..][..n - 2]) + LineText(lines[n - 1]);
    }
  }

  lemma LineChars(line: Line)
    ensures |LineText(line)| == |line.cells| + if line.broken then 1 else 0
    ensures forall k :: 0 <= k < |line.cells| ==> LineText(line)[k] == line.cells[k].glyph
    ensures line.broken ==> LineText(line)[|line.cells|] == '\n'
  {
  }

  /** Where the first complete line of a text ends is no choice. */
  lemma FirstLine(a: Line, b: Line, textA: string, textB: string)
    requires Complete(a) && Complete(b) && LineText(a) + textA == LineText(b) + textB
    ensures LineText(a) == LineText(b) && textA == textB
  {
    var whole := LineText(a) + textA;
    LineChars(a);
    LineChars(b);
    assert forall k :: 0 <= k < |LineText(a)| ==> whole[k] == LineText(a)[k];
    assert forall k :: 0 <= k < |LineText(b)| ==> whole[k] == LineText(b)[k];
    assert |a.cells| == |b.cells|;
    assert LineText(a) == whole[..|LineText(a)|] && LineText(b) == whole[..|LineText(b)|];
    assert textA == whole[|LineText(a)|..] && textB == whole[|LineText(b)|..];
  }

  /** An open line is no text of a complete line and more. */
  lemma OpenIsLast(a: Line, b: Line, textB: string)
    requires Open(a) && Complete(b)
    ensures LineText(a) != LineText(b) + textB
  {
    LineChars(a);
    LineChars(b);
    if LineText(a) == LineText(b) + textB {
      assert forall k :: 0 <= k < |LineText(b)| ==> LineText(a)[k] == LineText(b)[k];
    }
  }

  /** Wrapping leaves no choice: the text fixes the lines, colours aside. */
  lemma {:induction false} TextFixesLines(g: History, h: History)
    requires g.Wrapped() && h.Wrapped() && g.Text() == h.Text()
    ensures |g.lines| == |h.lines| && forall i :: 0 <= i < |g.lines| ==> LineText(g.lines[i]) == LineText(h.lines[i])
    decreases |g.lines|
  {
    hide LineText, TextOf, NoNewline, Complete, Open;
    TextFront(g.lines);
    TextFront(h.lines);
    var restG, restH := g.(lines := g.lines[1..]), h.(lines := h.lines[1..]);
    if |g.lines| == 1 {
      if |h.lines| > 1 { OpenIsLast(g.lines[0], h.lines[0], restH.Text()); }
    } else if |h.lines| == 1 {
      OpenIsLast(h.lines[0], g.lines[0], restG.Text());
    } else {
      FirstLine(g.lines[0], h.lines[0], restG.Text(), restH.Text());
      TextFixesLines(restG, restH);
      forall i | 0 <= i < |g.lines| ensures LineText(g.lines[i]) == LineText(h.lines[i]) {
        if i > 0 { assert g.lines[i] == restG.lines[i - 1] && h.lines[i] == restH.lines[i - 1]; }
      }
    }
  }

  /** Printing in pieces is printing the whole. */
  lemma {:induction false} PrintAppend(h: History, first: string, second: string, color: bv8)
    requires h.lines != []
    ensures h.Print(first + second, color) == h.Print(first, color).Print(second, color)
    decreases |first|
  {
    if first == "" {
      assert first + second == second;
    } else {
      PrintAppend(h.Put(first[0], color), first[1..], second, color);
      assert (first + second)[1..] == first[1..] + second;
    }
  }

  /** One more character of a text. */
  lemma PrintNext(h: History, text: string, k: nat, color: bv8)
    requires h.lines != [] && k < |text|
    ensures h.Print(text[..k + 1], color) == h.Print(text[..k], color).Put(text[k], color)
  {
    assert text[..k + 1] == text[..k] + [text[k]];
    PrintAppend(h, text[..k], [text[k]], color);
    var p := h.Print(text[..k], color);
    assert p.Print([text[k]], color) == p.Put(text[k], color).Print("", color);
  }

  /** The characters of a C string. */
  function Before(str: string): (text: string)
    ensures text <= str && NUL !in text
    ensures NUL in str ==> |text| < |str| && str[|text|] == NUL
  {
    if str == "" || str[0] == NUL then "" else [str[0]] + Before(str[1..])
  }

  class Screen {
    var row: nat
    var column: nat
    var color: bv8
    const back: array<Cell>
    const hardware: array<Cell>
    ghost var history: History

    constructor ()
      ensures Valid() && history == Cleared(DEFAULT_COLOR) && color == DEFAULT_COLOR
      ensures fresh(back) && fresh(hardware)
    {
      row, column, color := 0, 0, DEFAULT_COLOR;
      back := new Cell[CELLS](_ => Cell(' ', DEFAULT_COLOR));
      hardware := new Cell[CELLS](_ => Cell(' ', DEFAULT_COLOR));
      history := Cleared(DEFAULT_COLOR);
    }

    ghost predicate Distinct()
    {
      back.Length == CELLS && hardware.Length == CELLS && back != hardware
    }

    /** The cursor is at the end of the history, and both buffers show its last 25 lines. */
    ghost predicate Valid()
      reads this, back, hardware
    {
      && Distinct()
      && history.Wrapped()
      && row == Row(history)
      && column == |history.Last().cells|
      && (forall i :: 0 <= i < CELLS ==> back[i] == history.Shown(i))
      && (forall i :: 0 <= i < CELLS ==> hardware[i] == back[i])
    }

    /** vga_flush. */
    method Flush()
      requires Distinct()
      modifies hardware
      ensures forall i :: 0 <= i < CELLS ==> hardware[i] == back[i]
    {
      for i := 0 to CELLS
        invariant forall k :: 0 <= k < i ==> hardware[k] == back[k]
      {
        hardware[i] := back[i];
      }
    }

    /** vga_scroll: past the last row, every row moves up by one and the last is blanked. */
    method Scroll()
      requires Distinct()
      modifies `row, back, hardware
      ensures old(row) < HEIGHT ==> row == old(row) && unchanged(back) && unchanged(hardware)
      ensures old(row) >= HEIGHT ==>
                && row == HEIGHT - 1
                && (forall i :: 0 <= i < CELLS - WIDTH ==> back[i] == old(back[i + WIDTH]))
                && (forall i :: CELLS - WIDTH <= i < CELLS ==> back[i] == Cell(' ', color))
                && (forall i :: 0 <= i < CELLS ==> hardware[i] == back[i])
    {
      if row >= HEIGHT {
        ghost var was := back[..];
        for y := 1 to HEIGHT
          invariant forall i :: 0 <= i < (y - 1) * WIDTH ==> back[i] == was[i + WIDTH]
          invariant forall i :: (y - 1) * WIDTH <= i < CELLS ==> back[i] == was[i]
        {
          for x := 0 to WIDTH
            invariant forall i :: 0 <= i < (y - 1) * WIDTH + x ==> back[i] == was[i + WIDTH]
            invariant forall i :: (y - 1) * WIDTH + x <= i < CELLS ==> back[i] == was[i]
          {
            back[(y - 1) * WIDTH + x] := back[y * WIDTH + x];
          }
        }
        for x := 0 to WIDTH
          invariant forall i :: 0 <= i < CELLS - WIDTH ==> back[i] == was[i + WIDTH]
          invariant forall i :: CELLS - WIDTH <= i < CELLS - WIDTH + x ==> back[i] == Cell(' ', color)
        {
          back[(HEIGHT - 1) * WIDTH + x] := Cell(' ', color);
        }
        row := HEIGHT - 1;
        Flush();
      }
    }

    /** vga_clear. */
    method Clear()
      requires Distinct()
      modifies this`row, this`column, this`history, back, hardware
      ensures Valid() && history == Cleared(color)
    {
      for y := 0 to HEIGHT
        invariant forall i :: 0 <= i < y * WIDTH ==> back[i] == Cell(' ', color)
      {
        for x := 0 to WIDTH
          invariant forall i :: 0 <= i < y * WIDTH + x ==> back[i] == Cell(' ', color)
        {
          back[y * WIDTH + x] := Cell(' ', color);
        }
      }
      row := 0;
      column := 0;
      history := Cleared(color);
      Flush();
    }

    ghost predicate Shows(h: History)
      requires Distinct()
      reads back
    {
      forall i :: 0 <= i < CELLS ==> back[i] == h.Shown(i)
    }

    /** vga_scroll in terms of the history: when the cursor has moved below the last line of h a
        line opens, otherwise nothing changes. */
    method ScrollTo(ghost h: History, ghost below: bool)
      requires Distinct() && h.lines != [] && Shows(h)
      requires row == Row(h) + if below then 1 else 0
      modifies `row, back, hardware
      ensures var after := if below then h.Opened(color) else h;
              Shows(after) && row == Row(after)
      ensures (forall i :: 0 <= i < CELLS ==> old(hardware[i] == back[i])) ==>
                forall i :: 0 <= i < CELLS ==> hardware[i] == back[i]
    {
      hide TextOf, LineText;
      Scroll();
      forall i | 0 <= i < CELLS { OpenedShown(h, color, i); }
    }

    method PutNewline()
      requires Valid()
      modifies this`row, this`column, this`history, back, hardware
      ensures Valid() && history == old(history).Put('\n', color)
    {
      forall i | 0 <= i < CELLS { BrokenShown(history, i); }
      PutText(history, '\n', color);
      ghost var closed := history.WithLast(history.Last().(broken := true));
      history := closed.Opened(color);
      column := 0;
      row := row + 1;
      ScrollTo(closed, true);
    }

    method PutGlyph(c: char)
      requires Valid() && c != '\n'
      modifies this`row, this`column, this`history, back, hardware
      ensures Valid() && history == old(history).Put(c, color)
    {
      hide TextOf, LineText, History.Shown;
      ghost var written := GlyphStep(history, c, color);
      history := history.Put(c, color);
      var index := row * WIDTH + column;
      back[index] := Cell(c, color);
      column := column + 1;
      assert Shows(written);
      if column >= WIDTH {
        column := 0;
        row := row + 1;
      }
      ScrollTo(written, history != written);
      Flush();
    }

    /** vga_putchar, on the history and on the cells.  A backspace only erases on the hardware, so it alone
        breaks the agreement. */
    method PutChar(c: char)
      requires Valid()
      modifies this`row, this`column, this`history, back, hardware
      ensures c != BACKSPACE ==> Valid() && history == old(history).Put(c, color)
      ensures c != BACKSPACE ==>
                var pos := old(row * WIDTH + column);
                && (forall i :: 0 <= i < CELLS ==> hardware[i] == back[i] == Typed(old(back[..]), pos, c, color, i))
                && row * WIDTH + column == if NextPosition(pos, c) < CELLS then NextPosition(pos, c) else NextPosition(pos, c) - WIDTH
      ensures c == BACKSPACE ==>
                && unchanged(back) && unchanged(`history)
                && row * WIDTH + column == Max(old(row * WIDTH + column) - 1, 0)
                && hardware[..] == old(hardware[..])[row * WIDTH + column := Cell(' ', color)]
    {
      hide History.Put, History.Shown, Typed, NextPosition, TextOf, LineText;
      ghost var screen := back[..];
      if c != BACKSPACE {
        forall i | 0 <= i < CELLS { PutIsTyped(history, c, color, screen, i); }
        PutIsTyped(history, c, color, screen, 0);
      }
      if c == '\n' {
        PutNewline();
        return;
      } else if c == BACKSPACE {
        if column > 0 {
          column := column - 1;
        } else if row > 0 {
          row := row - 1;
          column := WIDTH - 1;
        }
        var index := row * WIDTH + column;
        hardware[index] := Cell(' ', color);
        return;
      }
      PutGlyph(c);
    }

    /** vga_print. */
    method Print(str: string)
      requires Valid() && NUL in str && BACKSPACE !in Before(str)
      modifies this`row, this`column, this`history, back, hardware
      ensures Valid() && history == old(history).Print(Before(str), color)
    {
      ghost var text := Before(str);
      var i := 0;
      while str[i] != NUL
        invariant i <= |text| && Valid()
        invariant history == old(history).Print(text[..i], color)
        decreases |text| - i
      {
        PrintNext(old(history), text, i, color);
        PutChar(str[i]);
        i := i + 1;
      }
      assert text[..i] == text;
    }

    /** vga_print_color: back to the default colour afterwards. */
    method PrintColor(str: string, color: bv8)
      requires Valid() && NUL in str && BACKSPACE !in Before(str)
      modifies this`row, this`column, this`history, this`color, back, hardware
      ensures Valid() && history == old(history).Print(Before(str), color)
      ensures this.color == DEFAULT_COLOR
    {
      this.color := color;
      Print(str);
      this.color := DEFAULT_COLOR;
    }

    /** vga_print_dec prints the same numeral as utoa in base 10; its first loop is the first loop
        of utoa at base 10. */
    method PrintDec(value: nat)
      requires Valid() && value < WORD_LIMIT
      modifies this`row, this`column, this`history, back, hardware
      ensures Valid() && history == old(history).Print(Numbers.Numeral(value, 10), color)
    {
      if value == 0 {
        assert Before(['0', NUL]) == "0" by { BeforeDigit('0', history, color); }
        Print(['0', NUL]);
        return;
      }
      TenDigits(value);
      Numbers.DigitsAreDigits(value, Numbers.Decimal);
      var buffer := new char[11];
      var n := Numbers.WriteReversed(value, buffer, 10);
      PrintReversed(buffer, n, Numbers.Digits(value, 10));
    }

    /** The last loop of vga_print_dec: one character at a time, from the back. */
    method PrintReversed(buffer: array<char>, n: nat, ghost d: string)
      requires Valid() && n == |d| <= buffer.Length
      requires buffer as object != back && buffer as object != hardware
      requires forall k :: 0 <= k < n ==> buffer[k] == d[n - 1 - k] && buffer[k] != NUL && buffer[k] != BACKSPACE
      modifies this`row, this`column, this`history, back, hardware
      ensures Valid() && history == old(history).Print(d, color)
    {
      var j := n - 1;
      while j >= 0
        invariant -1 <= j < n && Valid() && buffer[..] == old(buffer[..])
        invariant history == old(history).Print(d[..n - 1 - j], color)
      {
        var c := [buffer[j], NUL];
        assert buffer[j] == old(buffer[..])[j];
        BeforeDigit(buffer[j], history, color);
        PrintNext(old(history), d, n - 1 - j, color);
        Print(c);
        j := j - 1;
      }
      assert d[..n] == d;
    }
  }

  lemma BeforeDigit(c: char, h: History, color: bv8)
    requires c != NUL && c != BACKSPACE && h.lines != []
    ensures NUL in [c, NUL] && Before([c, NUL]) == [c] && BACKSPACE !in Before([c, NUL])
    ensures h.Print(Before([c, NUL]), color) == h.Put(c, color)
  {
  }

  function Max(m: int, n: int): int {
    if m < n then n else m
  }

  /** A 32-bit number has at most ten decimal digits, so the source's buffer suffices. */
  lemma TenDigits(value: nat)
    requires value < WORD_LIMIT
    ensures |Numbers.Digits(value, 10)| <= 10
  {
    FewDigits(value, 10, 10_000_000_000);
  }

  lemma {:induction false} FewDigits(value: nat, n: nat, power: nat)
    requires power == Power10(n) && value < power
    ensures |Numbers.Digits(value, 10)| <= n
  {
    if value != 0 && n != 0 {
      Numbers.QuotientIsDivision(value, 10);
      FewDigits(value / 10, n - 1, Power10(n - 1));
    }
  }

  function Power10(n: nat): nat {
    if n == 0 then 1 else 10 * Power10(n - 1)
  }
}
