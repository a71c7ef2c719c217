/** A terminal context: the parser's fields, updated byte by byte, driving a console. */
module Terminal {
  import opened Bytes
  import opened Console
  import opened EscapeParser

  class Term {
    var mode: Mode
    var params: seq<nat>
    var nparams: nat
    var active: bool
    var fg: byte
    var bg: byte
    var savedRow: nat
    var savedCol: nat

    ghost function Now(): Ctx
      reads this
    {
      Ctx(mode, params, nparams, active, fg, bg, savedRow, savedCol)
    }

    ghost predicate Valid()
      reads this
    {
      Now().Good()
    }

    constructor ()
      ensures Valid() && mode == Ground && fg == 15 && bg == 0
    {
      mode, params, nparams, active := Ground, seq(16, _ => 0), 0, false;
      fg, bg, savedRow, savedCol := 15, 0, 0, 0;
    }

    method ResetParams()
      requires Valid()
      modifies this`params, this`nparams, this`active
      ensures Now() == ParamsReset(old(Now()))
    {
      var i := 0;
      while i < 16
        invariant i <= 16 && |params| == 16 && forall k :: 0 <= k < i ==> params[k] == 0
      {
        params := params[i := 0];
        i := i + 1;
      }
      nparams, active := 0, false;
      assert params == seq(16, _ => 0);
    }

    method ParamDigit(d: nat)
      requires Valid()
      modifies this`params, this`nparams, this`active
      ensures Now() == Digit(old(Now()), d)
    {
      if nparams == 0 {
        nparams := 1;
        active := false;
      }
      if !active {
        params := params[nparams - 1 := 0];
        active := true;
      }
      if nparams <= 16 {
        params := params[nparams - 1 := params[nparams - 1] * 10 + d];
      }
      assert params == Digit(old(Now()), d).params;
    }

    method ParamSep()
      requires Valid()
      modifies this`params, this`nparams, this`active
      ensures Now() == Separator(old(Now()))
    {
      if nparams < 16 {
        nparams := nparams + 1;
        active := false;
        params := params[nparams - 1 := 0];
      }
    }

    method ApplyColor(p: nat)
      requires Valid()
      modifies this`fg, this`bg
      ensures Now() == Colored(old(Now()), p)
    {
      if p == 0 {
        fg, bg := 15, 0;
      } else if p == 1 {
        fg := if fg < 8 then fg + 8 else fg;
      } else if 30 <= p <= 37 {
        fg := fg / 8 * 8 + (p - 30);
      } else if p == 39 {
        fg := fg / 8 * 8 + 7;
      } else if 40 <= p <= 47 {
        bg := p - 40;
      } else if p == 49 {
        bg := 0;
      } else if 90 <= p <= 97 {
        fg := 8 + (p - 90);
      } else if 100 <= p <= 107 {
        bg := 8 + (p - 100);
      }
    }

    method ApplySgr(v: Vga)
      requires Valid() && v.Valid()
      modifies this`fg, this`bg, v`color
      ensures Valid() && v.Valid() && Now() == Sgr(old(Now()))
      ensures v.Now() == old(v.Now()).(color := fg + 16 * bg)
    {
      hide Vga.Valid, Vga.Now, Colored;
      if nparams == 0 {
        fg, bg := 15, 0;
      }
      var i := 0;
      while i < nparams
        invariant i <= nparams && Valid() && Sgr(old(Now())) == ColoredFrom(Now(), i)
        invariant Now() == old(Now()).(fg := fg, bg := bg)
        modifies this`fg, this`bg
      {
        ApplyColor(params[i]);
        i := i + 1;
      }
      v.SetColor(fg, bg);
    }

    method Dispatch(v: Vga, final: byte)
      requires Valid() && v.Valid()
      modifies this, v, v.mem
      ensures Valid() && v.Valid() && (Now(), v.Now()) == Dispatched(old(Now()), old(v.Now()), final)
    {
      hide Wiped, Sgr, Moved, DisplayErased, LineErased;
      var n := if nparams > 0 && params[0] > 0 then params[0] else 1;
      if final == 'A' as int {
        v.SetCursor(if v.row >= n then v.row - n else 0, v.col);
      } else if final == 'B' as int {
        v.SetCursor(Trunc16(v.row + n), v.col);
      } else if final == 'C' as int {
        v.SetCursor(v.row, Trunc16(v.col + n));
      } else if final == 'D' as int {
        v.SetCursor(v.row, if v.col >= n then v.col - n else 0);
      } else if final == 'H' as int || final == 'f' as int {
        var r := Trunc16(if nparams > 0 && params[0] > 0 then params[0] - 1 else 0);
        var c := Trunc16(if nparams > 1 && params[1] > 0 then params[1] - 1 else 0);
        v.SetCursor(r, c);
      } else if final == 'J' as int {
        v.EraseDisplay(if nparams > 0 then params[0] else 0);
      } else if final == 'K' as int {
        v.EraseLine(if nparams > 0 then params[0] else 0);
      } else if final == 'm' as int {
        ApplySgr(v);
      } else if final == 's' as int {
        savedRow, savedCol := v.row, v.col;
      } else if final == 'u' as int {
        v.SetCursor(savedRow, savedCol);
      }
    }

    /** One byte of output. */
    method PutByte(v: Vga, b: byte)
      requires Valid() && v.Valid()
      modifies this, v, v.mem
      ensures Valid() && v.Valid() && (Now(), v.Now()) == Step(old(Now()), old(v.Now()), b)
    {
      hide Dispatched, Put, Digit, Separator;
      match mode
      case Ground =>
        if b == 0x1B {
          mode := Escape;
        } else {
          v.Putc(b);
        }
      case Escape =>
        if b == '[' as int {
          ResetParams();
          mode := Csi;
        } else if b == ']' as int {
          mode := Osc;
        } else {
          mode := Ground;
        }
      case Csi =>
        if '0' as int <= b <= '9' as int {
          ParamDigit(b - '0' as int);
        } else if b == ';' as int {
          ParamSep();
        } else if 0x40 <= b <= 0x7E {
          Dispatch(v, b);
          mode := Ground;
        }
      case Osc =>
        if b == 7 || b == 0x1B {
          mode := Ground;
        }
    }

    /** A whole text, as term_ctx_print writes it. */
    method Print(v: Vga, text: seq<byte>)
      requires Valid() && v.Valid()
      modifies this, v, v.mem
      ensures Valid() && v.Valid() && (Now(), v.Now()) == Fed(old(Now()), old(v.Now()), text)
    {
      hide Step;
      var i := 0;
      while i < |text|
        invariant i <= |text| && Valid() && v.Valid()
        invariant Fed(old(Now()), old(v.Now()), text) == Fed(Now(), v.Now(), text[i..])
      {
        PutByte(v, text[i]);
        assert text[i..][1..] == text[i + 1..];
        i := i + 1;
      }
    }
  }
}
