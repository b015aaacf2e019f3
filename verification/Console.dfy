/** The text console: a W x H screen scrolled in place, against an unbounded page that never scrolls. */
module Console {
  import opened Arithmetic

  /** A C `char`: signed. */
  type CChar = x: int | -128 <= x < 128

  /** A screen cell: colour in the high byte, character in the low byte. */
  type Cell = x: nat | x < 0x1_0000

  const BACKSPACE: CChar := 8
  const TAB: CChar := 9
  const NEWLINE: CChar := 10
  const RETURN: CChar := 13
  const SPACE: CChar := 32

  /** `(color << 8) | c` cut to 16 bits; a negative character is sign-extended and drowns the colour. */
  function CellOf(color: nat, c: CChar): Cell
    requires color < 256
  {
    if c >= 0 then color * 256 + c else 0xFF00 + (c + 256)
  }

  /** The low byte of a cell is the character. The high byte is the colour, or all ones for a negative character. */
  lemma CellBytes(color: nat, c: CChar)
    requires color < 256
    ensures CellOf(color, c) % 256 == if c >= 0 then c else c + 256
    ensures CellOf(color, c) / 256 == if c >= 0 then color else 0xFF
  {
  }

  // ---------- The page ----------

  /** Every row of width `w` that was ever reached, in one line of cells; the cursor is on row `y`, column `x`. */
  datatype Page = Page(cells: map<nat, Cell>, x: nat, y: nat)

  const BLANK_PAGE := Page(map[], 0, 0)

  function PageCell(p: Page, blank: Cell, k: nat): Cell {
    if k in p.cells then p.cells[k] else blank
  }

  /** Move to the start of the next row once the cursor is past the end of its row. */
  function Wrap(p: Page, w: nat): Page {
    if p.x >= w then p.(x := 0, y := p.y + 1) else p
  }

  /** What a character does before any wrapping. */
  function PageMove(p: Page, w: nat, color: nat, c: CChar): Page
    requires color < 256
  {
    if c == NEWLINE then p.(x := 0, y := p.y + 1)
    else if c == RETURN then p.(x := 0)
    else if c == TAB then p.(x := p.x + 4)
    else if c == BACKSPACE then
      if p.x > 0 then Page(p.cells[p.y * w + (p.x - 1) := CellOf(color, SPACE)], p.x - 1, p.y) else p
    else Page(p.cells[p.y * w + p.x := CellOf(color, c)], p.x + 1, p.y)
  }

  function PagePut(p: Page, w: nat, color: nat, c: CChar): Page
    requires color < 256
  {
    Wrap(PageMove(p, w, color, c), w)
  }

  function PagePrint(p: Page, w: nat, color: nat, s: seq<CChar>): Page
    requires color < 256
    decreases |s|
  {
    if s == [] then p else PagePrint(PagePut(p, w, color, s[0]), w, color, s[1..])
  }

  /** Nothing was written at or below row `y`. */
  ghost predicate BlankFrom(p: Page, w: nat, y: nat) {
    forall k :: k in p.cells ==> k < y * w
  }

  /** The cursor is in its row and nothing was written below that row. */
  ghost predicate PageOk(p: Page, w: nat) {
    p.x < w && BlankFrom(p, w, p.y + 1)
  }

  lemma InRow(y: nat, w: nat, x: nat)
    requires x < w
    ensures y * w + x < (y + 1) * w
  {
    assert (y + 1) * w == y * w + w;
  }

  /** A character moves the cursor down by at most one row, and a row just reached is blank. */
  lemma MoveKeepsPage(p: Page, w: nat, color: nat, c: CChar)
    requires PageOk(p, w) && color < 256
    ensures var q := PageMove(p, w, color, c);
            && BlankFrom(q, w, p.y + 1)
            && (q.y == p.y || (q.y == p.y + 1 && q.x == 0))
  {
    InRow(p.y, w, p.x);
    if p.x > 0 { InRow(p.y, w, p.x - 1); }
  }

  lemma PutKeepsPage(p: Page, w: nat, color: nat, c: CChar)
    requires PageOk(p, w) && color < 256
    ensures var q := PagePut(p, w, color, c);
            && PageOk(q, w)
            && (q.y == p.y || (q.y == p.y + 1 && q.x == 0 && BlankFrom(q, w, q.y)))
  {
    MoveKeepsPage(p, w, color, c);
    assert (p.y + 1 + 1) * w == (p.y + 1) * w + w;
  }

  predicate Printable(c: CChar) {
    c !in {BACKSPACE, TAB, NEWLINE, RETURN}
  }

  /** The cursor as a position in the line of cells. */
  function Position(p: Page, w: nat): nat {
    p.y * w + p.x
  }

  lemma PutPrintable(p: Page, w: nat, color: nat, c: CChar)
    requires PageOk(p, w) && color < 256 && Printable(c)
    ensures Position(PagePut(p, w, color, c), w) == Position(p, w) + 1
    ensures PagePut(p, w, color, c).cells == p.cells[Position(p, w) := CellOf(color, c)]
  {
    assert (p.y + 1) * w == p.y * w + w;
  }

  /** Text without control characters fills consecutive cells, running on from row to row without a seam. */
  lemma {:induction false} TextIsContiguous(p: Page, w: nat, color: nat, s: seq<CChar>)
    requires PageOk(p, w) && color < 256 && forall i :: 0 <= i < |s| ==> Printable(s[i])
    ensures var q, at := PagePrint(p, w, color, s), Position(p, w);
            && PageOk(q, w) && Position(q, w) == at + |s|
            && forall k: nat :: PageCell(q, CellOf(color, SPACE), k)
                 == if at <= k < at + |s| then CellOf(color, s[k - at]) else PageCell(p, CellOf(color, SPACE), k)
    decreases |s|
  {
    if s != [] {
      PutPrintable(p, w, color, s[0]);
      PutKeepsPage(p, w, color, s[0]);
      TextIsContiguous(PagePut(p, w, color, s[0]), w, color, s[1..]);
    }
  }

  /** Newline, return and tab write nothing; they move to the next row, to the start of the row, and four cells on
      but never past the start of the next row. */
  lemma ControlsOnlyMove(p: Page, w: nat, color: nat, c: CChar)
    requires PageOk(p, w) && color < 256 && c in {NEWLINE, RETURN, TAB}
    ensures PagePut(p, w, color, c).cells == p.cells
    ensures Position(PagePut(p, w, color, c), w)
         == if c == NEWLINE then (p.y + 1) * w
            else if c == RETURN then p.y * w
            else Min(Position(p, w) + 4, (p.y + 1) * w)
  {
    assert (p.y + 1) * w == p.y * w + w;
  }

  /** A backspace takes back the character before it unless that one ended its row; then it does nothing. */
  lemma BackspaceUndoes(p: Page, w: nat, color: nat, c: CChar)
    requires PageOk(p, w) && color < 256 && Printable(c)
    ensures var q := PagePut(p, w, color, c);
            PagePut(q, w, color, BACKSPACE)
            == if p.x + 1 < w then Page(p.cells[Position(p, w) := CellOf(color, SPACE)], p.x, p.y) else q
  {
    var q := PagePut(p, w, color, c);
    if p.x + 1 < w {
      assert q.cells[Position(p, w) := CellOf(color, SPACE)] == p.cells[Position(p, w) := CellOf(color, SPACE)];
    }
  }

  lemma {:induction false} PrintAppend(p: Page, w: nat, color: nat, s: seq<CChar>, t: seq<CChar>)
    requires color < 256
    ensures PagePrint(p, w, color, s + t) == PagePrint(PagePrint(p, w, color, s), w, color, t)
    decreases |s|
  {
    if s == [] {
      assert s + t == t;
    } else {
      assert (s + t)[1..] == s[1..] + t;
      PrintAppend(PagePut(p, w, color, s[0]), w, color, s[1..], t);
    }
  }

  /** The strings one after the other. */
  function Joined(texts: seq<seq<CChar>>): seq<CChar> {
    if texts == [] then [] else texts[0] + Joined(texts[1..])
  }

  /** One `screen_print` call for each string. */
  function PrintEach(p: Page, w: nat, color: nat, texts: seq<seq<CChar>>): Page
    requires color < 256
    decreases |texts|
  {
    if texts == [] then p else PrintEach(PagePrint(p, w, color, texts[0]), w, color, texts[1..])
  }

  /** However a text is cut into consecutive calls, the page is the same. */
  lemma {:induction false} CutsDoNotMatter(p: Page, w: nat, color: nat, texts: seq<seq<CChar>>)
    requires color < 256
    ensures PrintEach(p, w, color, texts) == PagePrint(p, w, color, Joined(texts))
    decreases |texts|
  {
    if texts != [] {
      PrintAppend(p, w, color, texts[0], Joined(texts[1..]));
      CutsDoNotMatter(PagePrint(p, w, color, texts[0]), w, color, texts[1..]);
    }
  }

  /** Row of the page shown at the top of a screen of height `h`. */
  function Top(p: Page, h: nat): nat {
    if p.y < h then 0 else p.y - h + 1
  }

  // ---------- The screen ----------

  class Screen {
    const w: nat
    const h: nat
    const color: nat
    const video: array<Cell>
    var x: int
    var y: int
    ghost var page: Page

    /** The screen shows the page from row `top` on, with the cursor at the same place. */
    ghost predicate ShowsFrom(top: nat)
      requires color < 256
      reads this, video
    {
      && x == page.x && y == page.y - top
      && forall k :: 0 <= k < video.Length ==> video[k] == PageCell(page, CellOf(color, SPACE), top * w + k)
    }

    ghost predicate Sized() {
      w > 0 && h > 0 && color < 256 && video.Length == w * h
    }

    /** The screen is the bottom window of the page and the cursor is on it. */
    ghost predicate Valid()
      reads this, video
    {
      && Sized()
      && PageOk(page, w)
      && 0 <= x < w && 0 <= y < h
      && ShowsFrom(Top(page, h))
    }

    constructor (w: nat, h: nat, color: nat, video: array<Cell>)
      requires w > 0 && h > 0 && color < 256 && video.Length == w * h
      modifies video
      ensures Valid() && page == BLANK_PAGE
      ensures this.w == w && this.h == h && this.color == color && this.video == video
    {
      this.w, this.h, this.color, this.video := w, h, color, video;
      x, y := 0, 0;
      page := BLANK_PAGE;
      new;
      Clear();
    }

    /** The cell in row `row`, column `column` of the screen. */
    function At(row: nat, column: nat): Cell
      requires Sized() && row < h && column < w
      reads video
    {
      Window(0, row, w, h, column);
      video[row * w + column]
    }

    method Clear()
      requires Sized()
      modifies this`x, this`y, this`page, video
      ensures Valid() && page == BLANK_PAGE && x == y == 0
      ensures forall k :: 0 <= k < video.Length ==> video[k] % 256 == 32 && video[k] / 256 == color
    {
      CellBytes(color, SPACE);
      var i := 0;
      while i < w * h
        invariant 0 <= i <= w * h
        invariant forall k :: 0 <= k < i ==> video[k] == CellOf(color, SPACE)
      {
        video[i] := CellOf(color, SPACE);
        i := i + 1;
      }
      x, y := 0, 0;
      page := BLANK_PAGE;
    }

    /** The forward copy loop, although in place, is a true shift by one row; the last row becomes blank. */
    method Scroll()
      requires Sized()
      modifies video
      ensures forall k :: 0 <= k < video.Length ==>
                video[k] == if k + w < video.Length then old(video[k + w]) else CellOf(color, SPACE)
    {
      var lastRow, size := (h - 1) * w, h * w;
      LastRow(0, w, h);
      RowsMonotone(0, h - 1, w);
      assert lastRow + w == size;
      var i := 0;
      while i < lastRow
        invariant 0 <= i <= lastRow
        invariant forall k :: 0 <= k < i ==> video[k] == old(video[k + w])
        invariant forall k :: i <= k < video.Length ==> video[k] == old(video[k])
      {
        video[i] := video[i + w];
        i := i + 1;
      }
      i := lastRow;
      while i < size
        invariant lastRow <= i <= size
        invariant forall k :: 0 <= k < lastRow ==> video[k] == old(video[k + w])
        invariant forall k :: lastRow <= k < i ==> video[k] == CellOf(color, SPACE)
      {
        video[i] := CellOf(color, SPACE);
        i := i + 1;
      }
    }

    /** The character itself, before wrapping and scrolling. */
    method Place(c: CChar)
      requires Valid()
      modifies this`x, this`y, this`page, video
      ensures page == PageMove(old(page), w, color, c)
      ensures ShowsFrom(Top(old(page), h))
    {
      ghost var top := Top(page, h);
      Window(top, y, w, h, x);
      if x > 0 { Window(top, y, w, h, x - 1); }
      if c == NEWLINE {
        x := 0;
        y := y + 1;
      } else if c == RETURN {
        x := 0;
      } else if c == TAB {
        x := x + 4;
      } else if c == BACKSPACE {
        if x > 0 {
          x := x - 1;
          video[y * w + x] := CellOf(color, SPACE);
        }
      } else {
        video[y * w + x] := CellOf(color, c);
        x := x + 1;
      }
      page := PageMove(page, w, color, c);
    }

    /** Printing on the screen is printing on the page. The cursor goes on, wraps at the end of a row and stays in the
        last row once it is there; a character that is not a control leaves its two bytes where the cursor was, one row
        up if the screen scrolled. */
    method PutChar(c: CChar)
      requires Valid()
      modifies this`x, this`y, this`page, video
      ensures Valid()
      ensures page == PagePut(old(page), w, color, c)
      ensures
        var control := c == 8 || c == 9 || c == 10 || c == 13;
        var right := if c == 9 then old(x) + 4 else if control then 0 else old(x) + 1;
        var down := c == 10 || right >= w;
        && y == (if down then Min(old(y) + 1, h - 1) else old(y))
        && x == (if c == 8 then (if old(x) > 0 then old(x) - 1 else 0) else if down then 0 else right)
        && (c == 8 && old(x) > 0 ==> At(y, x) % 256 == 32 && At(y, x) / 256 == color)
        && var row := if down && old(y) == h - 1 then old(y) - 1 else old(y);
           !control && row >= 0 ==>
             && At(row, old(x)) % 256 == (if c >= 0 then c else c + 256)
             && At(row, old(x)) / 256 == (if c >= 0 then color else 0xFF)
    {
      ghost var top := Top(page, h);
      ghost var was := page;
      PutKeepsPage(page, w, color, c);
      MoveKeepsPage(page, w, color, c);
      Place(c);
      if x >= w {
        x := 0;
        y := y + 1;
      }
      page := Wrap(page, w);
      KeepCursorOnScreen(top);
      Cells(was, c);
    }

    /** Where the character went, in bytes. */
    lemma Cells(was: Page, c: CChar)
      requires Valid() && PageOk(was, w) && page == PagePut(was, w, color, c)
      ensures c == BACKSPACE && was.x > 0 ==> At(y, x) == CellOf(color, SPACE)
      ensures Printable(c) && was.y >= Top(page, h) ==> At(was.y - Top(page, h), was.x) == CellOf(color, c)
      ensures CellOf(color, SPACE) % 256 == 32 && CellOf(color, SPACE) / 256 == color
      ensures CellOf(color, c) % 256 == (if c >= 0 then c else c + 256)
      ensures CellOf(color, c) / 256 == (if c >= 0 then color else 0xFF)
    {
      CellBytes(color, c);
      CellBytes(color, SPACE);
      var top := Top(page, h);
      Window(top, y, w, h, x);
      if was.y >= top { Window(top, was.y - top, w, h, was.x); }
    }

    /** Scroll when the cursor has just left the screen: the window moves down the page by one row. */
    method KeepCursorOnScreen(ghost top: nat)
      requires Sized() && ShowsFrom(top) && 0 <= y <= h
      requires y == h ==> BlankFrom(page, w, page.y)
      modifies this`y, video
      ensures ShowsFrom(if old(y) == h then top + 1 else top)
      ensures y == if old(y) == h then h - 1 else old(y)
    {
      if y >= h {
        LastRow(top, w, h);
        Scroll();
        y := h - 1;
      }
    }

    method Print(s: seq<CChar>)
      requires Valid() && 0 !in s
      modifies this`x, this`y, this`page, video
      ensures Valid()
      ensures page == PagePrint(old(page), w, color, s)
    {
      var i := 0;
      while i < |s|
        invariant i <= |s| && Valid()
        invariant PagePrint(page, w, color, s[i..]) == PagePrint(old(page), w, color, s)
      {
        assert s[i..][1..] == s[i + 1..];
        PutChar(s[i]);
        i := i + 1;
      }
    }
  }

  /** A cell of the window and its place on the page. */
  lemma Window(top: nat, y: nat, w: nat, h: nat, x: nat)
    requires y < h && x < w
    ensures y * w + x < w * h
    ensures (top + y) * w + x == top * w + (y * w + x)
  {
    InRow(y, w, x);
    RowsMonotone(y + 1, h, w);
    assert (top + y) * w == top * w + y * w;
  }

  lemma RowsMonotone(a: nat, b: nat, w: nat)
    requires a <= b
    ensures a * w <= b * w
  {
    assert b * w == a * w + (b - a) * w;
  }

  lemma LastRow(top: nat, w: nat, h: nat)
    requires h > 0
    ensures (top + 1) * w == top * w + w
    ensures (top + h) * w == top * w + w * h
  {
  }
}
