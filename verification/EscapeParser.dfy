/** The escape-sequence parser as a function: what one byte does to the parser and the console, and what holds for
    every byte stream. */
module EscapeParser {
  import opened Bytes
  import opened Console

  datatype Mode = Ground | Escape | Csi | Osc

  /** Parser state: up to 16 numeric parameters, the current colours, and a saved cursor. */
  datatype Ctx = Ctx(mode: Mode, params: seq<nat>, nparams: nat, active: bool,
                     fg: byte, bg: byte, savedRow: nat, savedCol: nat)
  {
    predicate Good() { |params| == 16 && nparams <= 16 && fg < 16 && bg < 16 }

    /** Parameter `k`, or a default where it is missing or zero. */
    function Param(k: nat, default: nat): nat
      requires Good() && k < 16
    {
      if nparams > k && params[k] > 0 then params[k] else default
    }
  }

  function ParamsReset(c: Ctx): Ctx { c.(params := seq(16, _ => 0), nparams := 0, active := false) }

  function Digit(c: Ctx, d: nat): (r: Ctx)
    requires c.Good()
    ensures r.Good()
  {
    var n := if c.nparams == 0 then 1 else c.nparams;
    var v := if c.active && c.nparams > 0 then c.params[n - 1] else 0;
    c.(nparams := n, active := true, params := c.params[n - 1 := v * 10 + d])
  }

  function Separator(c: Ctx): (r: Ctx)
    requires c.Good()
    ensures r.Good()
  {
    if c.nparams < 16 then c.(nparams := c.nparams + 1, active := false, params := c.params[c.nparams := 0]) else c
  }

  /** One colour parameter. */
  function Colored(c: Ctx, p: nat): (r: Ctx)
    requires c.Good()
    ensures r.Good()
  {
    if p == 0 then c.(fg := 15, bg := 0)
    else if p == 1 then c.(fg := if c.fg < 8 then c.fg + 8 else c.fg)
    else if 30 <= p <= 37 then c.(fg := c.fg / 8 * 8 + (p - 30))
    else if p == 39 then c.(fg := c.fg / 8 * 8 + 7)
    else if 40 <= p <= 47 then c.(bg := p - 40)
    else if p == 49 then c.(bg := 0)
    else if 90 <= p <= 97 then c.(fg := 8 + (p - 90))
    else if 100 <= p <= 107 then c.(bg := 8 + (p - 100))
    else c
  }

  function ColoredFrom(c: Ctx, i: nat): (r: Ctx)
    requires c.Good() && i <= c.nparams
    ensures r.Good() && r == c.(fg := r.fg, bg := r.bg)
    decreases c.nparams - i
  {
    if i == c.nparams then c else ColoredFrom(Colored(c, c.params[i]), i + 1)
  }

  /** `apply_sgr`: no parameter means reset. */
  function Sgr(c: Ctx): (r: Ctx)
    requires c.Good()
    ensures r.Good() && r == c.(fg := r.fg, bg := r.bg)
  {
    ColoredFrom(if c.nparams == 0 then c.(fg := 15, bg := 0) else c, 0)
  }

  function Trunc16(n: int): nat { n % 0x1_0000 }

  /** `csi_dispatch` */
  function Dispatched(c: Ctx, s: Screen, final: byte): (r: (Ctx, Screen))
    requires c.Good() && s.InView()
    ensures r.0.Good() && r.1.InView()
  {
    var n := c.Param(0, 1);
    if final == 'A' as int then (c, Moved(s, if s.row >= n then s.row - n else 0, s.col))
    else if final == 'B' as int then (c, Moved(s, Trunc16(s.row + n), s.col))
    else if final == 'C' as int then (c, Moved(s, s.row, Trunc16(s.col + n)))
    else if final == 'D' as int then (c, Moved(s, s.row, if s.col >= n then s.col - n else 0))
    else if final == 'H' as int || final == 'f' as int then
      (c, Moved(s, Trunc16(c.Param(0, 1) - 1), Trunc16(c.Param(1, 1) - 1)))
    else if final == 'J' as int then (c, DisplayErased(s, if c.nparams > 0 then c.params[0] else 0))
    else if final == 'K' as int then (c, LineErased(s, if c.nparams > 0 then c.params[0] else 0))
    else if final == 'm' as int then var d := Sgr(c); (d, s.(color := d.fg + 16 * d.bg))
    else if final == 's' as int then (c.(savedRow := s.row, savedCol := s.col), s)
    else if final == 'u' as int then (c, Moved(s, c.savedRow, c.savedCol))
    else (c, s)
  }

  /** `term_ctx_putc`: every byte stream keeps the parser well formed and the cursor inside the viewport. */
  function Step(c: Ctx, s: Screen, b: byte): (r: (Ctx, Screen))
    requires c.Good() && s.InView()
    ensures r.0.Good() && r.1.InView()
  {
    match c.mode
    case Ground => if b == 0x1B then (c.(mode := Escape), s) else (c, Put(s, b))
    case Escape =>
      if b == '[' as int then (ParamsReset(c).(mode := Csi), s)
      else if b == ']' as int then (c.(mode := Osc), s)
      else (c.(mode := Ground), s)
    case Csi =>
      if '0' as int <= b <= '9' as int then (Digit(c, b - '0' as int), s)
      else if b == ';' as int then (Separator(c), s)
      else if 0x40 <= b <= 0x7E then var r := Dispatched(c, s, b); (r.0.(mode := Ground), r.1)
      else (c, s)
    case Osc => if b == 7 || b == 0x1B then (c.(mode := Ground), s) else (c, s)
  }

  /** A whole byte stream. */
  function Fed(c: Ctx, s: Screen, bytes: seq<byte>): (r: (Ctx, Screen))
    requires c.Good() && s.InView()
    ensures r.0.Good() && r.1.InView()
    decreases |bytes|
  {
    if bytes == [] then (c, s) else
      var r := Step(c, s, bytes[0]);
      Fed(r.0, r.1, bytes[1..])
  }

  /** Cutting a stream anywhere, even inside a sequence, changes nothing. */
  lemma {:induction false} FedApp(c: Ctx, s: Screen, a: seq<byte>, b: seq<byte>)
    requires c.Good() && s.InView()
    ensures var r := Fed(c, s, a); Fed(c, s, a + b) == Fed(r.0, r.1, b)
    decreases |a|
  {
    hide Step;
    if a == [] {
      assert a + b == b;
    } else {
      assert (a + b)[1..] == a[1..] + b;
      var r := Step(c, s, a[0]);
      FedApp(r.0, r.1, a[1..], b);
    }
  }

  lemma FedOne(c: Ctx, s: Screen, b: byte)
    requires c.Good() && s.InView()
    ensures Fed(c, s, [b]) == Step(c, s, b)
  {
    assert [b][1..] == [];
  }

  predicate Digits(x: seq<byte>) { |x| > 0 && forall i :: 0 <= i < |x| ==> '0' as int <= x[i] <= '9' as int }

  /** The number that digits spell, leading zeros or not. */
  function Value(x: seq<byte>): nat
    requires Digits(x)
  {
    (if |x| == 1 then 0 else Value(x[..|x| - 1]) * 10) + (x[|x| - 1] - '0' as int)
  }

  /** Digits are read as the number they spell, into the current parameter. */
  lemma {:induction false} DigitsRead(c: Ctx, s: Screen, x: seq<byte>)
    requires c.Good() && s.InView() && c.mode == Csi && Digits(x) && !c.active
    ensures var k := if c.nparams == 0 then 0 else c.nparams - 1;
            Fed(c, s, x) == (c.(nparams := k + 1, active := true, params := c.params[k := Value(x)]), s)
    decreases |x|
  {
    hide Put, Dispatched, Wiped, Moved;
    var k := if c.nparams == 0 then 0 else c.nparams - 1;
    var front, d := x[..|x| - 1], x[|x| - 1];
    assert x == front + [d];
    if front == [] {
      FedOne(c, s, d);
      assert x == [d] && c.params[k := 0 * 10 + Value(x)] == c.params[k := Value(x)];
    } else {
      DigitsRead(c, s, front);
      FedApp(c, s, front, [d]);
      var e := c.(nparams := k + 1, active := true, params := c.params[k := Value(front)]);
      FedOne(e, s, d);
      assert e.params[k := Value(x)] == c.params[k := Value(x)];
    }
  }

  lemma ThreeParts(c: Ctx, s: Screen, x: seq<byte>, b: byte, y: seq<byte>)
    requires c.Good() && s.InView()
    ensures var r := Fed(c, s, x); var q := Step(r.0, r.1, b); Fed(c, s, x + ([b] + y)) == Fed(q.0, q.1, y)
  {
    hide Step;
    FedApp(c, s, x, [b] + y);
    var r := Fed(c, s, x);
    FedApp(r.0, r.1, [b], y);
    FedOne(r.0, r.1, b);
  }

  /** ESC [ row ; col H or f, with the two numbers as digits. */
  function CursorTo(row: seq<byte>, col: seq<byte>, final: byte): seq<byte> { [0x1B] + ([0x5B] + (row + ([0x3B] + (col + ([final] + []))))) }

  /** Cursor addressing: the sequence puts the cursor at the position counted from 1, clamped to the viewport, and
      changes nothing else on the screen. */
  lemma CursorAddressed(c: Ctx, s: Screen, r: seq<byte>, q: seq<byte>, row: nat, col: nat, final: byte)
    requires (final == 0x48 || final == 0x66) && c.Good() && s.InView() && c.mode == Ground && Digits(r) && Digits(q)
    requires 1 <= Value(r) == row <= 0xFFFF && 1 <= Value(q) == col <= 0xFFFF
    ensures var f := Fed(c, s, CursorTo(r, q, final)); f.1 == s.(row := Min(row - 1, 24), col := Min(col - 1, 79)) && f.0.mode == Ground
  {
    hide Step, Value, Digits, Fed, ParamsReset, Moved, OneRead, CursorTo;
    var c1 := ParamsReset(c).(mode := Csi);
    ResetFacts(c);
    assert Fed(c, s, CursorTo(r, q, final)) == Fed(c1, s, r + ([0x3B] + (q + ([final] + [])))) by {
      CursorToIs(r, q, final);
      CsiEntered(c, s, r + ([0x3B] + (q + ([final] + []))));
    }
    FirstNumber(c1, s, r, q + ([final] + []));
    SecondNumber(c1, s, row, q, final);
    MovedIs(s, row - 1, col - 1);
  }

  lemma CursorToIs(r: seq<byte>, q: seq<byte>, final: byte)
    ensures CursorTo(r, q, final) == [0x1B] + ([0x5B] + (r + ([0x3B] + (q + ([final] + [])))))
  {
  }

  lemma FedCons(c: Ctx, s: Screen, b: byte, rest: seq<byte>)
    requires c.Good() && s.InView()
    ensures Fed(c, s, [b] + rest) == Fed(Step(c, s, b).0, Step(c, s, b).1, rest)
  {
    hide Step;
    assert ([b] + rest)[1..] == rest;
  }

  lemma CsiEntered(c: Ctx, s: Screen, rest: seq<byte>)
    requires c.Good() && s.InView() && c.mode == Ground
    ensures Fed(c, s, [0x1B] + ([0x5B] + rest)) == Fed(ParamsReset(c).(mode := Csi), s, rest)
  {
    hide Step, Fed, ParamsReset;
    CsiStarts(c, s);
    FedCons(c, s, 0x1B, [0x5B] + rest);
    FedCons(c.(mode := Escape), s, 0x5B, rest);
  }

  lemma ResetFacts(c: Ctx)
    requires c.Good()
    ensures var d := ParamsReset(c).(mode := Csi); d.Good() && d.mode == Csi && d.nparams == 0 && !d.active
  {
  }

  lemma MovedIs(s: Screen, row: nat, col: nat)
    requires s.InView()
    ensures Moved(s, row, col) == s.(row := Min(row, 24), col := Min(col, 79))
  {
  }

  /** The context after one number and a separator. */
  function OneRead(c: Ctx, n: nat): Ctx
    requires c.Good()
  {
    Separator(c.(nparams := 1, active := true, params := c.params[0 := n]))
  }

  lemma FirstNumber(c: Ctx, s: Screen, r: seq<byte>, rest: seq<byte>)
    requires c.Good() && s.InView() && c.mode == Csi && c.nparams == 0 && !c.active && Digits(r)
    ensures Fed(c, s, r + ([0x3B] + rest)) == Fed(OneRead(c, Value(r)), s, rest)
  {
    hide Step, Value, Digits, Fed, Separator;
    ThreeParts(c, s, r, 0x3B, rest);
    DigitsRead(c, s, r);
    Separated(c.(nparams := 1, active := true, params := c.params[0 := Value(r)]), s);
  }

  lemma SecondNumber(c: Ctx, s: Screen, row: nat, q: seq<byte>, final: byte)
    requires (final == 0x48 || final == 0x66) && c.Good() && s.InView() && c.mode == Csi && c.nparams == 0 && !c.active && Digits(q)
    requires 1 <= row <= 0xFFFF && 1 <= Value(q) <= 0xFFFF
    ensures var f := Fed(OneRead(c, row), s, q + ([final] + [])); f.1 == Moved(s, row - 1, Value(q) - 1) && f.0.mode == Ground
  {
    hide Step, Value, Digits, Fed, Moved;
    var d := OneRead(c, row);
    ThreeParts(d, s, q, final, []);
    DigitsRead(d, s, q);
    var e := d.(nparams := 2, active := true, params := d.params[1 := Value(q)]);
    Addressed(e, s, row, Value(q), final);
    FedNothing(e.(mode := Ground), Moved(s, row - 1, Value(q) - 1));
  }

  lemma FedNothing(c: Ctx, s: Screen)
    requires c.Good() && s.InView()
    ensures Fed(c, s, []) == (c, s)
    ensures forall x: seq<byte> :: [] + x == x
  {
  }

  lemma CsiStarts(c: Ctx, s: Screen)
    requires c.Good() && s.InView() && c.mode == Ground
    ensures Step(c, s, 0x1B) == (c.(mode := Escape), s)
    ensures Step(c.(mode := Escape), s, 0x5B) == (ParamsReset(c).(mode := Csi), s)
  {
  }

  lemma Separated(c: Ctx, s: Screen)
    requires c.Good() && s.InView() && c.mode == Csi
    ensures Step(c, s, 0x3B) == (Separator(c), s)
  {
  }

  lemma Addressed(c: Ctx, s: Screen, row: nat, col: nat, final: byte)
    requires (final == 0x48 || final == 0x66) && c.Good() && s.InView() && c.mode == Csi && c.nparams == 2 && c.params[0] == row && c.params[1] == col
    requires 1 <= row <= 0xFFFF && 1 <= col <= 0xFFFF
    ensures Step(c, s, final) == (c.(mode := Ground), Moved(s, row - 1, col - 1))
  {
  }

  predicate Printable(b: byte) { b != 0x1B && b != 10 && b != 13 && b != 8 && b != 12 }

  /** Plain text that fits the row lands at the cursor, in order and in the current colour, and nowhere else. */
  lemma {:induction false} TextLands(c: Ctx, s: Screen, text: seq<byte>)
    requires c.Good() && s.InView() && c.mode == Ground && s.col + |text| < 80
    requires forall i :: 0 <= i < |text| ==> Printable(text[i])
    ensures var r := Fed(c, s, text);
            && r.0 == c && r.1.row == s.row && r.1.col == s.col + |text| && r.1.color == s.color
            && r.1.cells == s.cells[..s.At()] + seq(|text|, i requires 0 <= i < |text| => Cell(text[i], s.color)) + s.cells[s.At() + |text|..]
    decreases |text|
  {
    if text == [] {
      assert s.cells == s.cells[..s.At()] + [] + s.cells[s.At()..];
    } else {
      assert Printable(text[0]);
      var t := Put(s, text[0]);
      assert t == s.(cells := s.cells[s.At() := Cell(text[0], s.color)], col := s.col + 1);
      assert forall i :: 0 <= i < |text| - 1 ==> Printable(text[1..][i]) by {
        assert forall i :: 0 <= i < |text| - 1 ==> text[1..][i] == text[i + 1];
      }
      TextLands(c, t, text[1..]);
    }
  }

  /** An operating-system command that BEL ends leaves the screen untouched, whatever it says. */
  lemma {:induction false} OscIgnored(c: Ctx, s: Screen, text: seq<byte>)
    requires c.Good() && s.InView() && c.mode == Osc
    requires forall i :: 0 <= i < |text| ==> text[i] != 7 && text[i] != 0x1B
    ensures Fed(c, s, text) == (c, s) && Fed(c, s, text + [7]) == (c.(mode := Ground), s)
    decreases |text|
  {
    if text != [] {
      assert text[0] != 7 && text[0] != 0x1B;
      assert forall i :: 0 <= i < |text| - 1 ==> text[1..][i] == text[i + 1];
      OscIgnored(c, s, text[1..]);
    }
    FedApp(c, s, text, [7]);
    FedOne(c, s, 7);
  }

  /** The standard's own terminator, ESC \, is not recognised: its second byte is printed. */
  lemma StringTerminatorPrinted(c: Ctx, s: Screen)
    requires c.Good() && s.InView() && c.mode == Osc
    ensures Fed(c, s, [0x1B, 0x5C]) == (c.(mode := Ground), Put(s, 0x5C))
  {
    assert [0x1B, 0x5C][1..] == [0x5C] && [0x5C][1..] == [];
  }

  /** A byte that is not `s` leaves the saved cursor alone. */
  lemma {:induction false} SavedKept(c: Ctx, s: Screen, bytes: seq<byte>)
    requires c.Good() && s.InView() && 0x73 !in bytes
    ensures Fed(c, s, bytes).0.savedRow == c.savedRow && Fed(c, s, bytes).0.savedCol == c.savedCol
    decreases |bytes|
  {
    hide Step;
    if bytes != [] {
      StepKeepsSaved(c, s, bytes[0]);
      var r := Step(c, s, bytes[0]);
      SavedKept(r.0, r.1, bytes[1..]);
    }
  }

  lemma StepKeepsSaved(c: Ctx, s: Screen, b: byte)
    requires c.Good() && s.InView() && b != 0x73
    ensures Step(c, s, b).0.savedRow == c.savedRow && Step(c, s, b).0.savedCol == c.savedCol
  {
    hide Put, Wiped, Moved, ColoredFrom;
  }

  /** Save, anything that saves nothing, restore: the cursor is back where it was. */
  lemma SaveRestore(c: Ctx, s: Screen, bytes: seq<byte>)
    requires c.Good() && s.InView() && c.mode == Csi && 0x73 !in bytes
    requires var d := Step(c, s, 0x73); Fed(d.0, d.1, bytes).0.mode == Csi
    ensures var r := Fed(c, s, [0x73] + bytes + [0x75]); r.1.row == s.row && r.1.col == s.col && r.0.mode == Ground
  {
    hide Step, Fed;
    var d := Step(c, s, 0x73);
    Saves(c, s);
    SavedKept(d.0, d.1, bytes);
    FedApp(c, s, [0x73], bytes);
    FedOne(c, s, 0x73);
    FedApp(c, s, [0x73] + bytes, [0x75]);
    var e := Fed(d.0, d.1, bytes);
    FedOne(e.0, e.1, 0x75);
    Restores(e.0, e.1);
  }

  lemma Saves(c: Ctx, s: Screen)
    requires c.Good() && s.InView() && c.mode == Csi
    ensures var d := Step(c, s, 0x73); d.0.savedRow == s.row && d.0.savedCol == s.col
  {
  }

  lemma Restores(c: Ctx, s: Screen)
    requires c.Good() && s.InView() && c.mode == Csi
    ensures var d := Step(c, s, 0x75);
            d.1.row == Min(c.savedRow, 24) && d.1.col == Min(c.savedCol, 79) && d.0.mode == Ground
  {
  }

  /** Moving down goes to the row counted, or to the last one, exactly if the sum is not cut to 16 bits in between. */
  lemma DownClamped(c: Ctx, s: Screen)
    requires c.Good() && s.InView()
    ensures var to := s.row + c.Param(0, 1);
            Dispatched(c, s, 'B' as int).1.row == Min(to, 24) <==> to < 0x1_0000 || to % 0x1_0000 >= 24
  {
  }
}
