/** What control sequences do, from their bytes to cursor, cells and colours. */
module EscapeSequences {
  import opened Bytes
  import opened Console
  import opened EscapeParser

  /** ESC [ x final. */
  function Csi(x: seq<byte>, final: byte): seq<byte> { [0x1B] + ([0x5B] + (x + ([final] + []))) }

  /** No number, or one. */
  predicate Numeral(x: seq<byte>) { x == [] || Digits(x) }

  /** The number, where a missing one and 0 count as 1. */
  function Count(x: seq<byte>): nat
    requires Numeral(x)
  {
    if x == [] || Value(x) == 0 then 1 else Value(x)
  }

  /** The number, where a missing one is 0. */
  function Selector(x: seq<byte>): nat
    requires Numeral(x)
  {
    if x == [] then 0 else Value(x)
  }

  /** What the parser has when the final byte comes. */
  function Read(c: Ctx, x: seq<byte>): (r: Ctx)
    requires c.Good() && Numeral(x)
    ensures r.Good() && r.mode == EscapeParser.Csi && r.fg == c.fg && r.bg == c.bg && r.Param(0, 1) == Count(x) && r.Param(1, 1) == 1
    ensures (if r.nparams > 0 then r.params[0] else 0) == Selector(x) && (r.nparams == 0 <==> x == []) && r.nparams <= 1
  {
    var d := ParamsReset(c).(mode := EscapeParser.Csi);
    if x == [] then d else d.(nparams := 1, active := true, params := d.params[0 := Value(x)])
  }

  lemma OneNumber(c: Ctx, s: Screen, x: seq<byte>, final: byte)
    requires c.Good() && s.InView() && c.mode == Ground && Numeral(x) && 0x40 <= final <= 0x7E
    ensures var r := Dispatched(Read(c, x), s, final); Fed(c, s, Csi(x, final)) == (r.0.(mode := Ground), r.1)
  {
    hide Step, Value, Digits, Fed, Dispatched;
    var d := ParamsReset(c).(mode := EscapeParser.Csi);
    CsiEntered(c, s, x + ([final] + []));
    ThreeParts(d, s, x, final, []);
    if x == [] {
      FedNothing(d, s);
    } else {
      DigitsRead(d, s, x);
    }
    FinalStep(Read(c, x), s, final);
    var r := Dispatched(Read(c, x), s, final);
    FedNothing(r.0.(mode := Ground), r.1);
  }

  lemma FinalStep(c: Ctx, s: Screen, final: byte)
    requires c.Good() && s.InView() && c.mode == EscapeParser.Csi && 0x40 <= final <= 0x7E
    ensures var r := Dispatched(c, s, final); Step(c, s, final) == (r.0.(mode := Ground), r.1)
  {
    hide Dispatched;
  }

  /** ESC [ n A, B, C and D move the cursor up, down, right and left by n, at most to the edge, and ESC [ n H goes to the
      start of row n; nothing else on the screen changes. */
  lemma CursorSteps(c: Ctx, s: Screen, x: seq<byte>)
    requires c.Good() && s.InView() && c.mode == Ground && Numeral(x)
    ensures Fed(c, s, Csi(x, 0x41)).1 == s.(row := Max(s.row - Count(x), 0))
    ensures s.row + Count(x) < 0x1_0000 ==> Fed(c, s, Csi(x, 0x42)).1 == s.(row := Min(s.row + Count(x), 24))
    ensures s.col + Count(x) < 0x1_0000 ==> Fed(c, s, Csi(x, 0x43)).1 == s.(col := Min(s.col + Count(x), 79))
    ensures Fed(c, s, Csi(x, 0x44)).1 == s.(col := Max(s.col - Count(x), 0))
    ensures Count(x) <= 0x1_0000 ==> forall final :: final == 0x48 || final == 0x66 ==>
              Fed(c, s, Csi(x, final)).1 == s.(row := Min(Count(x) - 1, 24), col := 0)
  {
    hide Value, Digits, Fed, Csi, Read, Step, Dispatched;
    Steps(Read(c, x), s, Count(x));
    OneNumber(c, s, x, 0x41);
    OneNumber(c, s, x, 0x42);
    OneNumber(c, s, x, 0x43);
    OneNumber(c, s, x, 0x44);
    OneNumber(c, s, x, 0x48);
    OneNumber(c, s, x, 0x66);
  }

  lemma Steps(d: Ctx, s: Screen, n: nat)
    requires d.Good() && s.InView() && d.Param(0, 1) == n && d.Param(1, 1) == 1 && n > 0
    ensures Dispatched(d, s, 0x41).1 == s.(row := Max(s.row - n, 0)) && Dispatched(d, s, 0x44).1 == s.(col := Max(s.col - n, 0))
    ensures s.row + n < 0x1_0000 ==> Dispatched(d, s, 0x42).1 == s.(row := Min(s.row + n, 24))
    ensures s.col + n < 0x1_0000 ==> Dispatched(d, s, 0x43).1 == s.(col := Min(s.col + n, 79))
    ensures n <= 0x1_0000 ==> Dispatched(d, s, 0x48).1 == Dispatched(d, s, 0x66).1 == s.(row := Min(n - 1, 24), col := 0)
  {
    hide Wiped, DisplayErased, LineErased, Sgr, Moved, Trunc16, Ctx.Param;
    MovesTo(d, s, n);
    ShortTrunc(s.row + n);
    ShortTrunc(s.col + n);
    ShortTrunc(n - 1);
    ShortTrunc(0);
    MovedAs(s);
  }

  lemma MovesTo(d: Ctx, s: Screen, n: nat)
    requires d.Good() && s.InView() && d.Param(0, 1) == n && d.Param(1, 1) == 1
    ensures Dispatched(d, s, 0x41).1 == Moved(s, if s.row >= n then s.row - n else 0, s.col)
    ensures Dispatched(d, s, 0x42).1 == Moved(s, Trunc16(s.row + n), s.col)
    ensures Dispatched(d, s, 0x43).1 == Moved(s, s.row, Trunc16(s.col + n))
    ensures Dispatched(d, s, 0x44).1 == Moved(s, s.row, if s.col >= n then s.col - n else 0)
    ensures Dispatched(d, s, 0x48).1 == Dispatched(d, s, 0x66).1 == Moved(s, Trunc16(n - 1), Trunc16(0))
  {
    hide Wiped, DisplayErased, LineErased, Sgr, Moved, Trunc16, Ctx.Param;
  }

  lemma ShortTrunc(n: int)
    ensures 0 <= n < 0x1_0000 ==> Trunc16(n) == n
  {
  }

  lemma MovedAs(s: Screen)
    requires s.InView()
    ensures forall row: nat, col: nat :: Moved(s, row, col) == s.(row := Min(row, 24), col := Min(col, 79))
  {
  }

  /** ESC [ n J blanks from the cursor on (0), up to and with it (1) or everything (any other), ESC [ n K the same inside
      the cursor's row; the cursor and every other cell stay. */
  lemma Erases(c: Ctx, s: Screen, x: seq<byte>, i: nat)
    requires c.Good() && s.InView() && c.mode == Ground && Numeral(x) && i < 2000
    ensures var r := Fed(c, s, Csi(x, 0x4A)).1;
            && r == s.(cells := r.cells) && |r.cells| == 2000
            && r.cells[i] == if (Selector(x) == 0 && i < s.row * 80 + s.col) || (Selector(x) == 1 && i > s.row * 80 + s.col)
                             then s.cells[i] else Cell(32, s.color)
    ensures var r := Fed(c, s, Csi(x, 0x4B)).1;
            && r == s.(cells := r.cells) && |r.cells| == 2000
            && r.cells[i] == if i / 80 != s.row || (Selector(x) == 0 && i % 80 < s.col) || (Selector(x) == 1 && i % 80 > s.col)
                             then s.cells[i] else Cell(32, s.color)
  {
    hide Value, Digits, Fed, Csi, Read, Step, Wiped, DisplayErased, LineErased;
    OneNumber(c, s, x, 0x4A);
    OneNumber(c, s, x, 0x4B);
    EraseMeans(s, Selector(x), i);
    WholeScreen(s, Selector(x));
  }

  lemma WholeScreen(s: Screen, mode: nat)
    requires s.InView()
    ensures DisplayErased(s, mode) == s.(cells := DisplayErased(s, mode).cells) && LineErased(s, mode) == s.(cells := LineErased(s, mode).cells)
  {
  }

  /** The colours that a number leaves, from those there were: 30 to 37 and 90 to 97 choose the foreground, the first kind
      with the brightness it had, 40 to 47 and 100 to 107 the background. */
  predicate Leaves(v: nat, fg: nat, bg: nat, fg': nat, bg': nat)
  {
    && (30 <= v < 38 ==> fg' % 8 == v - 30 && fg' / 8 == fg / 8)
    && (90 <= v < 98 ==> fg' == 8 + v - 90)
    && (40 <= v < 48 ==> bg' == v - 40)
    && (100 <= v < 108 ==> bg' == 8 + v - 100)
    && (v == 0 ==> fg' == 15 && bg' == 0)
    && (v == 1 ==> fg' % 8 == fg % 8 && fg' / 8 == 1)
    && (v == 39 ==> fg' % 8 == 7 && fg' / 8 == fg / 8)
    && (v == 49 ==> bg' == 0)
    && (v == 0 || v == 1 || v == 39 || 30 <= v < 38 || 90 <= v < 98 || fg' == fg)
    && (v == 0 || v == 49 || 40 <= v < 48 || 100 <= v < 108 || bg' == bg)
  }

  /** ESC [ n m changes the colours as n says, without one as 0 does, and text printed next has them; until then cells and
      cursor stay. */
  lemma Colours(c: Ctx, s: Screen, x: seq<byte>, text: seq<byte>)
    requires c.Good() && s.InView() && c.mode == Ground && Numeral(x)
    requires forall i :: 0 <= i < |text| ==> Printable(text[i])
    ensures var f := Fed(c, s, Csi(x, 0x6D));
            && f.1 == s.(color := f.0.fg + 16 * f.0.bg) && f.0.fg < 16 && f.0.bg < 16
            && Leaves(Selector(x), c.fg, c.bg, f.0.fg, f.0.bg)
            && Typed(f.1, text, s.row * 80 + s.col + |text|, Fed(c, s, Csi(x, 0x6D) + text).1)
  {
    hide Value, Digits, Fed, Csi, Step, Leaves, Typed;
    OneSequence(c, s, x);
    var f := Fed(c, s, Csi(x, 0x6D));
    FedApp(c, s, Csi(x, 0x6D), text);
    TextFlows(f.0, f.1, text);
  }

  lemma OneSequence(c: Ctx, s: Screen, x: seq<byte>)
    requires c.Good() && s.InView() && c.mode == Ground && Numeral(x)
    ensures var f := Fed(c, s, Csi(x, 0x6D));
            && f.0.mode == Ground && f.1 == s.(color := f.0.fg + 16 * f.0.bg) && f.0.fg < 16 && f.0.bg < 16
            && Leaves(Selector(x), c.fg, c.bg, f.0.fg, f.0.bg)
  {
    hide Value, Digits, Fed, Csi, Step, Colored, Read, Sgr, Leaves, DisplayErased, LineErased, Moved;
    OneNumber(c, s, x, 0x6D);
    var d := Read(c, x);
    OneColour(d);
    ColouredLeaves(d, Selector(x));
  }

  lemma OneColour(d: Ctx)
    requires d.Good() && d.nparams <= 1
    ensures Sgr(d) == Colored(d, if d.nparams > 0 then d.params[0] else 0)
  {
    if d.nparams == 1 {
      var e := Colored(d, d.params[0]);
      assert e.nparams == 1 && ColoredFrom(e, 1) == e;
    }
  }

  lemma ColouredLeaves(c: Ctx, v: nat)
    requires c.Good()
    ensures Leaves(v, c.fg, c.bg, Colored(c, v).fg, Colored(c, v).bg) && Colored(c, v) == c.(fg := Colored(c, v).fg, bg := Colored(c, v).bg)
  {
  }

  /** Every other sequence and every other byte behind ESC does nothing. */
  lemma OthersIgnored(c: Ctx, s: Screen, x: seq<byte>, b: byte)
    requires c.Good() && s.InView() && c.mode == Ground && Numeral(x)
    ensures 0x40 <= b <= 0x7E && b !in {0x41, 0x42, 0x43, 0x44, 0x48, 0x4A, 0x4B, 0x66, 0x6D, 0x73, 0x75} ==>
              Fed(c, s, Csi(x, b)) == (Read(c, x).(mode := Ground), s)
    ensures b != 0x5B && b != 0x5D ==> Fed(c, s, [0x1B, b]) == (c, s)
  {
    hide Value, Digits, Read, Csi, Put;
    if 0x40 <= b <= 0x7E {
      OneNumber(c, s, x, b);
    }
    assert [0x1B, b] == [0x1B] + [b];
    FedCons(c, s, 0x1B, [b]);
    CsiStarts(c, s);
    FedOne(c.(mode := Escape), s, b);
  }

  // Lists of colour numbers

  /** Numbers with semicolons between them. */
  function Listed(xs: seq<seq<byte>>): seq<byte>
    requires xs != []
  {
    if |xs| == 1 then xs[0] else xs[0] + ([0x3B] + Listed(xs[1..]))
  }

  predicate AllDigits(xs: seq<seq<byte>>) { forall i :: 0 <= i < |xs| ==> Digits(xs[i]) }

  function Values(xs: seq<seq<byte>>): (r: seq<nat>)
    requires AllDigits(xs)
    ensures |r| == |xs|
  {
    seq(|xs|, i requires 0 <= i < |xs| => Value(xs[i]))
  }

  /** The numbers go to the parameters in order. */
  lemma {:induction false} ListRead(c: Ctx, s: Screen, xs: seq<seq<byte>>)
    requires c.Good() && s.InView() && c.mode == EscapeParser.Csi && !c.active && xs != [] && AllDigits(xs)
    requires (if c.nparams == 0 then 0 else c.nparams - 1) + |xs| <= 16
    ensures var k := if c.nparams == 0 then 0 else c.nparams - 1;
            Fed(c, s, Listed(xs)) == (c.(nparams := k + |xs|, active := true, params := c.params[..k] + Values(xs) + c.params[k + |xs|..]), s)
    decreases |xs|
  {
    hide Step, Value, Digits, Fed, Values;
    var k := if c.nparams == 0 then 0 else c.nparams - 1;
    DigitsRead(c, s, xs[0]);
    var d := c.(nparams := k + 1, active := true, params := c.params[k := Value(xs[0])]);
    if |xs| == 1 {
      OneValue(xs);
      assert d.params == c.params[..k] + [Value(xs[0])] + c.params[k + 1..];
    } else {
      ThreeParts(c, s, xs[0], 0x3B, Listed(xs[1..]));
      Separated(d, s);
      var e := Separator(d);
      AllTail(xs);
      ListRead(e, s, xs[1..]);
      ValuesCons(xs);
      PutBehind(c.params, k, Value(xs[0]), Values(xs[1..]));
    }
  }

  lemma AllTail(xs: seq<seq<byte>>)
    requires |xs| > 1 && AllDigits(xs)
    ensures AllDigits(xs[1..])
  {
    assert forall i :: 0 <= i < |xs| - 1 ==> xs[1..][i] == xs[i + 1];
  }

  lemma OneValue(xs: seq<seq<byte>>)
    requires |xs| == 1 && AllDigits(xs)
    ensures Values(xs) == [Value(xs[0])]
  {
  }

  lemma ValuesCons(xs: seq<seq<byte>>)
    requires |xs| > 1 && AllDigits(xs)
    ensures AllDigits(xs[1..]) && Values(xs) == [Value(xs[0])] + Values(xs[1..])
  {
    hide Value, Digits;
    assert forall i :: 0 <= i < |xs| - 1 ==> xs[1..][i] == xs[i + 1];
  }

  lemma PutBehind(p: seq<nat>, k: nat, v: nat, rest: seq<nat>)
    requires k + 1 + |rest| <= |p| && |rest| > 0
    ensures var q := p[k := v][k + 1 := 0];
            q[..k + 1] + rest + q[k + 1 + |rest|..] == p[..k] + ([v] + rest) + p[k + 1 + |rest|..]
  {
  }

  /** Colour numbers applied one after the other. */
  function Painted(c: Ctx, vs: seq<nat>): (r: Ctx)
    requires c.Good()
    ensures r.Good() && r == c.(fg := r.fg, bg := r.bg)
  {
    if vs == [] then c else Colored(Painted(c, vs[..|vs| - 1]), vs[|vs| - 1])
  }

  lemma {:induction false} PaintedFrom(c: Ctx, i: nat)
    requires c.Good() && i <= c.nparams
    ensures ColoredFrom(c, i) == Painted(c, c.params[i..c.nparams])
    decreases c.nparams - i
  {
    hide Colored;
    if i < c.nparams {
      ColouredLeaves(c, c.params[i]);
      PaintedFrom(Colored(c, c.params[i]), i + 1);
      PaintedFirst(c, c.params[i..c.nparams]);
      assert c.params[i..c.nparams][1..] == c.params[i + 1..c.nparams];
    }
  }

  lemma {:induction false} PaintedFirst(c: Ctx, vs: seq<nat>)
    requires c.Good() && vs != []
    ensures Painted(c, vs) == Painted(Colored(c, vs[0]), vs[1..])
    decreases |vs|
  {
    hide Colored;
    if |vs| > 1 {
      PaintedFirst(c, vs[..|vs| - 1]);
      assert vs[..|vs| - 1][1..] == vs[1..][..|vs| - 2];
    } else {
      assert vs[..0] == [];
    }
  }

  /** Of the context only the colours matter. */
  lemma {:induction false} PaintedSame(c: Ctx, d: Ctx, vs: seq<nat>)
    requires c.Good() && d.Good() && c.fg == d.fg && c.bg == d.bg
    ensures Painted(c, vs).fg == Painted(d, vs).fg && Painted(c, vs).bg == Painted(d, vs).bg
    decreases |vs|
  {
    if vs != [] {
      PaintedSame(c, d, vs[..|vs| - 1]);
    }
  }

  lemma ListColours(c: Ctx, s: Screen, xs: seq<seq<byte>>)
    requires c.Good() && s.InView() && c.mode == Ground && 1 <= |xs| <= 16 && AllDigits(xs)
    ensures var f := Fed(c, s, Csi(Listed(xs), 0x6D)); var p := Painted(c, Values(xs));
            f.0.mode == Ground && f.0.fg == p.fg && f.0.bg == p.bg && f.1 == s.(color := p.fg + 16 * p.bg)
  {
    hide Step, Value, Digits, Fed, Sgr, Painted, Listed, Values, ParamsReset, Dispatched;
    var e := ListTaken(c, s, xs);
    AppliedAll(e, s, Values(xs));
    PaintedSame(c, e, Values(xs));
  }

  /** The context when the final byte of a list comes, and what that byte then does. */
  lemma ListTaken(c: Ctx, s: Screen, xs: seq<seq<byte>>) returns (e: Ctx)
    requires c.Good() && s.InView() && c.mode == Ground && 1 <= |xs| <= 16 && AllDigits(xs)
    ensures e.Good() && e.fg == c.fg && e.bg == c.bg && e.nparams == |xs| && e.params[..|xs|] == Values(xs)
    ensures var r := Dispatched(e, s, 0x6D); Fed(c, s, Csi(Listed(xs), 0x6D)) == (r.0.(mode := Ground), r.1)
  {
    hide Step, Value, Digits, Fed, Listed, Values, Dispatched;
    var d := ParamsReset(c).(mode := EscapeParser.Csi);
    CsiEntered(c, s, Listed(xs) + ([0x6D] + []));
    ThreeParts(d, s, Listed(xs), 0x6D, []);
    ListRead(d, s, xs);
    e := d.(nparams := |xs|, active := true, params := d.params[..0] + Values(xs) + d.params[|xs|..]);
    assert e.params[..|xs|] == Values(xs);
    FinalStep(e, s, 0x6D);
    var r := Dispatched(e, s, 0x6D);
    FedNothing(r.0.(mode := Ground), r.1);
  }

  lemma AppliedAll(e: Ctx, s: Screen, vs: seq<nat>)
    requires e.Good() && s.InView() && 0 < |vs| == e.nparams && e.params[..|vs|] == vs
    ensures Sgr(e) == Painted(e, vs) && Dispatched(e, s, 0x6D) == (Sgr(e), s.(color := Sgr(e).fg + 16 * Sgr(e).bg))
  {
    hide Painted, Colored, DisplayErased, LineErased, Moved;
    PaintedFrom(e, 0);
    assert e.params[0..|vs|] == vs;
  }

  /** A list of up to 16 colour numbers does what its numbers do in sequences of their own. */
  lemma ListSplits(c: Ctx, s: Screen, xs: seq<seq<byte>>, x: seq<byte>)
    requires c.Good() && s.InView() && c.mode == Ground && 1 <= |xs| <= 15 && AllDigits(xs) && Digits(x)
    ensures var f, g := Fed(c, s, Csi(Listed(xs + [x]), 0x6D)), Fed(c, s, Csi(Listed(xs), 0x6D) + Csi(Listed([x]), 0x6D));
            f.0.fg == g.0.fg && f.0.bg == g.0.bg && f.1 == g.1
  {
    hide Step, Value, Digits, Fed, Csi, Listed, Painted;
    ListColours(c, s, xs + [x]);
    ListColours(c, s, xs);
    var r := Fed(c, s, Csi(Listed(xs), 0x6D));
    ListColours(r.0, r.1, [x]);
    FedApp(c, s, Csi(Listed(xs), 0x6D), Csi(Listed([x]), 0x6D));
    PaintedMore(c, r.0, Values(xs), Values([x]));
    assert Values(xs + [x]) == Values(xs) + Values([x]);
  }

  lemma PaintedMore(c: Ctx, d: Ctx, vs: seq<nat>, v: seq<nat>)
    requires c.Good() && d.Good() && d.fg == Painted(c, vs).fg && d.bg == Painted(c, vs).bg && |v| == 1
    ensures Painted(c, vs + v).fg == Painted(d, v).fg && Painted(c, vs + v).bg == Painted(d, v).bg
  {
    assert (vs + v)[..|vs|] == vs && v[..0] == [];
  }

  // Text

  /** `t` is `s` with `text` written from the cursor on, cell after cell, and the cursor brought to place `q`; whole lines
      scroll out at the top until that place is on the screen, and blank ones come in. */
  ghost predicate Typed(s: Screen, text: seq<byte>, q: nat, t: Screen)
  {
    var p, k := s.row * 80 + s.col, if q < 2000 then 0 else (q - 2000) / 80 + 1;
    && |s.cells| == |t.cells| == 2000 && t.color == s.color && t.row * 80 + t.col == q - 80 * k && t.col == q % 80
    && forall i :: 0 <= i < 2000 ==>
         t.cells[i] == var j := i + 80 * k;
                       if p <= j < p + |text| then Cell(text[j - p], s.color) else if j < 2000 then s.cells[j] else Cell(32, s.color)
  }

  /** Text of any length, over line ends and the end of the screen. */
  lemma {:induction false} TextFlows(c: Ctx, s: Screen, text: seq<byte>)
    requires c.Good() && s.InView() && c.mode == Ground && forall i :: 0 <= i < |text| ==> Printable(text[i])
    ensures Fed(c, s, text).0 == c && Typed(s, text, s.row * 80 + s.col + |text|, Fed(c, s, text).1)
    decreases |text|
  {
    hide Fed, Step, Typed;
    if text == [] {
      FedNothing(c, s);
      TypedNothing(s);
    } else {
      var front, b := text[..|text| - 1], text[|text| - 1];
      assert text == front + [b] && forall i :: 0 <= i < |front| ==> front[i] == text[i];
      TextFlows(c, s, front);
      FedApp(c, s, front, [b]);
      var t := Fed(c, s, front).1;
      FedOne(c, t, b);
      GroundStep(c, t, b);
      TypedOne(s, front, s.row * 80 + s.col + |front|, t, b);
    }
  }

  lemma GroundStep(c: Ctx, s: Screen, b: byte)
    requires c.Good() && s.InView() && c.mode == Ground && b != 0x1B
    ensures Step(c, s, b) == (c, Put(s, b))
  {
    hide Put;
  }

  lemma TypedNothing(s: Screen)
    requires s.InView()
    ensures Typed(s, [], s.row * 80 + s.col, s)
  {
  }

  lemma TypedOne(s: Screen, front: seq<byte>, q: nat, t: Screen, b: byte)
    requires s.InView() && t.InView() && Typed(s, front, q, t) && q == s.row * 80 + s.col + |front| && Printable(b)
    ensures Typed(s, front + [b], q + 1, Put(t, b))
  {
    hide NextLine, Scrolled;
    var u := t.(cells := t.cells[t.At() := Cell(b, t.color)]);
    assert Put(t, b) == if t.col == 79 then NextLine(u) else u.(col := t.col + 1);
    NextLineIs(u);
    Wrapped(s, front, q, t, b, u.cells, Put(t, b));
  }

  lemma NextLineIs(s: Screen)
    requires s.InView()
    ensures var r := NextLine(s);
            && r.col == 0 && r.color == s.color && |r.cells| == 2000 && r.row == Min(s.row + 1, 24)
            && r.cells == if s.row < 24 then s.cells else s.cells[80..] + seq(80, _ => Cell(32, s.color))
  {
  }

  lemma Wrapped(s: Screen, front: seq<byte>, q: nat, t: Screen, b: byte, u: seq<Cell>, r: Screen)
    requires s.InView() && t.InView() && Typed(s, front, q, t) && q == s.row * 80 + s.col + |front|
    requires r.color == t.color && |r.cells| == 2000
    requires if t.col == 79 then r.col == 0 && r.row == Min(t.row + 1, 24) else r.col == t.col + 1 && r.row == t.row
    requires u == t.cells[t.At() := Cell(b, t.color)]
    requires r.cells == if t.col < 79 || t.row < 24 then u else u[80..] + seq(80, _ => Cell(32, t.color))
    ensures Typed(s, front + [b], q + 1, r)
  {
    var k := if q < 2000 then 0 else (q - 2000) / 80 + 1;
    var n := if q + 1 < 2000 then 0 else (q + 1 - 2000) / 80 + 1;
    LinesOut(q, k, n, t.row, t.col);
    var text := front + [b];
    assert forall j :: 0 <= j < |front| ==> text[j] == front[j];
    assert r.row * 80 + r.col == q + 1 - 80 * n && r.col == (q + 1) % 80;
    forall i | 0 <= i < 2000
      ensures var j, p := i + 80 * n, s.row * 80 + s.col;
              r.cells[i] == if p <= j < p + |text| then Cell(text[j - p], s.color) else if j < 2000 then s.cells[j] else Cell(32, s.color)
    {
      if n == k {
        assert r.cells[i] == u[i];
      } else if i < 1920 {
        assert r.cells[i] == u[i + 80];
      }
    }
  }

  /** One more line scrolls out exactly if the cursor was in the last cell. */
  lemma LinesOut(q: nat, k: nat, n: nat, row: nat, col: nat)
    requires k == if q < 2000 then 0 else (q - 2000) / 80 + 1
    requires n == if q + 1 < 2000 then 0 else (q + 1 - 2000) / 80 + 1
    requires row < 25 && col < 80 && row * 80 + col == q - 80 * k && col == q % 80
    ensures n == if row == 24 && col == 79 then k + 1 else k
    ensures (q + 1) % 80 == if col == 79 then 0 else col + 1
  {
    var a := q / 80;
    Lines(a, col);
    if q >= 2000 {
      Lines(a - 25, col);
    }
    if col == 79 {
      Lines(a + 1, 0);
      if q + 1 >= 2000 {
        Lines(a + 1 - 25, 0);
      }
    } else {
      Lines(a, col + 1);
      if q >= 2000 {
        Lines(a - 25, col + 1);
      }
    }
  }

  lemma Lines(a: int, r: int)
    requires 0 <= r < 80
    ensures (80 * a + r) / 80 == a && (80 * a + r) % 80 == r
  {
  }

  /** A newline goes to the start of the next line, with a blank one coming in below the last; carriage return and
      backspace move inside the row, and a form feed clears everything to white on black. */
  lemma ControlBytes(c: Ctx, s: Screen)
    requires c.Good() && s.InView() && c.mode == Ground
    ensures Typed(s, [], s.row * 80 + 80, Fed(c, s, [10]).1)
    ensures Fed(c, s, [13]).1 == s.(col := 0) && Fed(c, s, [8]).1 == s.(col := Max(s.col - 1, 0))
    ensures var r := Fed(c, s, [12]).1;
            r.row == 0 && r.col == 0 && r.color == 15 && |r.cells| == 2000 && forall i :: 0 <= i < 2000 ==> r.cells[i] == Cell(32, 15)
  {
    FedOne(c, s, 10);
    FedOne(c, s, 13);
    FedOne(c, s, 8);
    FedOne(c, s, 12);
  }
}
