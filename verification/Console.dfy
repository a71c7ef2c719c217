/** The VGA text console: 25 rows of 80 cells, a cursor and a colour, changed in place by printing, scrolling and
    erasing. */
module Console {
  import opened Bytes

  datatype Cell = Cell(ch: byte, color: byte)

  /** The console as a value; cells are numbered row by row. */
  datatype Screen = Screen(cells: seq<Cell>, row: nat, col: nat, color: byte)
  {
    /** The cursor is inside the viewport. */
    predicate InView() { |cells| == 2000 && row < 25 && col < 80 }

    function At(): nat { row * 80 + col }

    function Blank(): Cell { Cell(32, color) }
  }

  function Scrolled(s: Screen): Screen
    requires |s.cells| == 2000
  {
    s.(cells := s.cells[80..] + seq(80, _ => s.Blank()), row := 24)
  }

  /** Down one line, scrolling at the bottom. */
  function NextLine(s: Screen): Screen
    requires s.InView()
  {
    if s.row == 24 then Scrolled(s.(col := 0)) else s.(row := s.row + 1, col := 0)
  }

  /** `gpu_putc`: newline, carriage return, backspace and form feed, or a character at the cursor. */
  function Put(s: Screen, c: byte): (r: Screen)
    requires s.InView()
    ensures r.InView()
  {
    if c == 10 then NextLine(s)
    else if c == 13 then s.(col := 0)
    else if c == 8 then if s.col > 0 then s.(col := s.col - 1) else s
    else if c == 12 then Screen(seq(2000, _ => Cell(32, 0x0F)), 0, 0, 0x0F)
    else
      var t := s.(cells := s.cells[s.At() := Cell(c, s.color)]);
      if s.col == 79 then NextLine(t) else t.(col := s.col + 1)
  }

  /** `gpu_set_cursor`: clamped to the viewport. */
  function Moved(s: Screen, row: nat, col: nat): (r: Screen)
    requires s.InView()
    ensures r.InView()
  {
    s.(row := Min(row, 24), col := Min(col, 79))
  }

  /** The cells from `lo` up to `hi` blanked in the current colour. */
  function Wiped(s: Screen, lo: nat, hi: nat): (r: Screen)
    requires s.InView() && lo <= hi <= 2000
    ensures r.InView()
  {
    s.(cells := s.cells[..lo] + seq(hi - lo, _ => s.Blank()) + s.cells[hi..])
  }

  /** `gpu_erase_display`: from the cursor on, up to and with the cursor, or everything. */
  function DisplayErased(s: Screen, mode: nat): (r: Screen)
    requires s.InView()
    ensures r.InView()
  {
    if mode == 0 then Wiped(s, s.At(), 2000) else if mode == 1 then Wiped(s, 0, s.At() + 1) else Wiped(s, 0, 2000)
  }

  /** `gpu_erase_line`: the same inside the cursor's row. */
  function LineErased(s: Screen, mode: nat): (r: Screen)
    requires s.InView()
    ensures r.InView()
  {
    if mode == 0 then Wiped(s, s.At(), s.row * 80 + 80)
    else if mode == 1 then Wiped(s, s.row * 80, s.At() + 1)
    else Wiped(s, s.row * 80, s.row * 80 + 80)
  }

  /** Erasing blanks exactly the cells that the mode names and leaves cursor and colour alone. */
  lemma EraseMeans(s: Screen, mode: nat, i: nat)
    requires s.InView() && i < 2000
    ensures var r := DisplayErased(s, mode);
            && r.row == s.row && r.col == s.col && r.color == s.color
            && r.cells[i] == if (mode == 0 && i < s.At()) || (mode == 1 && i > s.At()) then s.cells[i] else s.Blank()
    ensures var r := LineErased(s, mode);
            && r.row == s.row && r.col == s.col && r.color == s.color
            && r.cells[i] == if i / 80 != s.row || (mode == 0 && i < s.At()) || (mode == 1 && i > s.At()) then s.cells[i] else s.Blank()
  {
  }

  class Vga {
    const mem: array<Cell>
    var row: nat
    var col: nat
    var color: byte

    ghost predicate Valid()
      reads this, mem
    {
      mem.Length == 2000 && Now().InView()
    }

    ghost function Now(): Screen
      reads this, mem
    {
      Screen(mem[..], row, col, color)
    }

    constructor ()
      ensures Valid() && fresh(mem) && row == 0 && col == 0 && color == 0x0F
    {
      row, col, color := 0, 0, 0x0F;
      mem := new Cell[2000](_ => Cell(32, 0x0F));
    }

    method SetColor(fg: byte, bg: byte)
      requires Valid() && fg < 16 && bg < 16
      modifies this`color
      ensures Valid() && Now() == old(Now()).(color := fg + 16 * bg)
    {
      color := fg + 16 * bg;
    }

    method SetCursor(row: nat, col: nat)
      requires Valid()
      modifies this`row, this`col
      ensures Valid() && Now() == Moved(old(Now()), row, col)
    {
      var r, c := row, col;
      if r >= 25 {
        r := 24;
      }
      if c >= 80 {
        c := 79;
      }
      this.row := r;
      this.col := c;
    }

    method Clear(fg: byte, bg: byte)
      requires mem.Length == 2000 && fg < 16 && bg < 16
      modifies this, mem
      ensures Now() == Screen(seq(2000, _ => Cell(32, fg + 16 * bg)), 0, 0, fg + 16 * bg)
    {
      row, col, color := 0, 0, fg + 16 * bg;
      var i := 0;
      while i < 2000
        invariant i <= 2000 && forall k :: 0 <= k < i ==> mem[k] == Cell(32, fg + 16 * bg)
        invariant row == 0 && col == 0 && color == fg + 16 * bg
      {
        mem[i] := Cell(32, color);
        i := i + 1;
      }
    }

    method Scroll()
      requires mem.Length == 2000
      modifies this`row, mem
      ensures Now() == Scrolled(old(Now()))
    {
      var i := 0;
      while i < 1920
        invariant i <= 1920
        invariant forall k :: 0 <= k < i ==> mem[k] == old(mem[k + 80])
        invariant forall k :: i <= k < 2000 ==> mem[k] == old(mem[k])
      {
        mem[i] := mem[i + 80];
        i := i + 1;
      }
      while i < 2000
        invariant 1920 <= i <= 2000
        invariant forall k :: 0 <= k < 1920 ==> mem[k] == old(mem[k + 80])
        invariant forall k :: 1920 <= k < i ==> mem[k] == Cell(32, color)
      {
        mem[i] := Cell(32, color);
        i := i + 1;
      }
      row := 24;
      assert mem[..] == Scrolled(old(Now())).cells;
    }

    method Putc(c: byte)
      requires Valid()
      modifies this, mem
      ensures Valid() && Now() == Put(old(Now()), c)
    {
      if c == 10 {
        col := 0;
        row := row + 1;
      } else if c == 13 {
        col := 0;
      } else if c == 8 {
        if col > 0 {
          col := col - 1;
        }
      } else if c == 12 {
        Clear(0x0F, 0);
        return;
      } else {
        mem[row * 80 + col] := Cell(c, color);
        col := col + 1;
        if col >= 80 {
          col := 0;
          row := row + 1;
        }
      }
      if row >= 25 {
        Scroll();
      }
    }

    /** Blanks the cells of one row from column `c0` up to `c1`. */
    method WipeRow(r: nat, c0: nat, c1: nat)
      requires Valid() && r < 25 && c0 <= c1 <= 80
      modifies mem
      ensures Now() == Wiped(old(Now()), r * 80 + c0, r * 80 + c1)
    {
      var c := c0;
      while c < c1
        invariant c0 <= c <= c1
        invariant forall k :: 0 <= k < 2000 ==>
                    mem[k] == if r * 80 + c0 <= k < r * 80 + c then Cell(32, color) else old(mem[k])
      {
        mem[r * 80 + c] := Cell(32, color);
        c := c + 1;
      }
      assert mem[..] == Wiped(old(Now()), r * 80 + c0, r * 80 + c1).cells;
    }

    method EraseLine(mode: nat)
      requires Valid()
      modifies mem
      ensures Valid() && Now() == LineErased(old(Now()), mode)
    {
      hide Wiped;
      var c0, c1 := 0, 80;
      if mode == 0 {
        c0 := col;
      } else if mode == 1 {
        c1 := col + 1;
      }
      WipeRow(row, c0, c1);
    }

    method EraseDisplay(mode: nat)
      requires Valid()
      modifies mem
      ensures Valid() && Now() == DisplayErased(old(Now()), mode)
    {
      hide Wiped;
      var r0, r1 := 0, 25;
      if mode == 0 {
        r0 := row;
      } else if mode == 1 {
        r1 := row + 1;
      }
      var r := r0;
      ghost var lo, s := r0 * 80 + if mode == 0 then col else 0, Now();
      ghost var hi := lo;
      WipedNothing(s, lo);
      while r < r1
        invariant r0 <= r <= r1 && lo <= hi <= 2000
        invariant hi == if r == r0 then lo else if mode == 1 && r == r1 then row * 80 + col + 1 else r * 80
        invariant Now() == Wiped(s, lo, hi)
      {
        var c0 := if mode == 0 && r == row then col else 0;
        var c1 := if mode == 1 && r == row then col + 1 else 80;
        WipeRow(r, c0, c1);
        WipedTwice(s, lo, hi, r * 80 + c1);
        hi := r * 80 + c1;
        r := r + 1;
      }
    }
  }

  lemma WipedNothing(s: Screen, i: nat)
    requires s.InView() && i <= 2000
    ensures Wiped(s, i, i) == s
  {
    assert s.cells[..i] + [] + s.cells[i..] == s.cells;
  }

  lemma WipedTwice(s: Screen, a: nat, b: nat, c: nat)
    requires s.InView() && a <= b <= c <= 2000
    ensures Wiped(Wiped(s, a, b), b, c) == Wiped(s, a, c)
  {
  }
}
