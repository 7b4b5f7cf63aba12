/**
  An ASSUMED meaning of the driver commands, used only to state what a
  write shows. LiquidCrystal_I2C is foreign code and EasyLCD promises
  nothing about it; this module assumes that:
  - clear empties every cell and puts the cursor at column 0 of row 0;
  - setCursor(col, row) moves the cursor and nothing else;
  - write puts the character in the cell under the cursor and advances
    the cursor one column, with no limit on the column (the real
    controller's addressing past the visible width is not modelled);
  - display/noDisplay switch whether the cells are shown, leaving them
    and the backlight as they are;
  - backlight/noBacklight switch the backlight; delays change nothing;
  - begin empties the cells, homes the cursor, shows the display and turns
    the backlight on, the default EasyLCD.h documents.
 */
module Screen {
  import opened Commands
  import Fade
  import Wrap
  import EasyLcd

  datatype Cell = Cell(row: nat, col: nat)

  /** The state of the assumed driver. */
  datatype Panel = Panel(
    cells: map<Cell, char>,
    row: nat,
    col: nat,
    backlightOn: bool,
    displayOn: bool)

  function Apply(p: Panel, c: Command): Panel {
    match c
    case DriverBegin => p.(cells := map[], row := 0, col := 0, displayOn := true, backlightOn := true)
    case Clear => p.(cells := map[], row := 0, col := 0)
    case SetCursor(col, row) => p.(row := row, col := col)
    case WriteChar(ch) => p.(cells := p.cells[Cell(p.row, p.col) := ch], col := p.col + 1)
    case Display => p.(displayOn := true)
    case NoDisplay => p.(displayOn := false)
    case Backlight => p.(backlightOn := true)
    case NoBacklight => p.(backlightOn := false)
    case Delay(_) => p
  }

  function Run(p: Panel, t: Trace): Panel
    decreases |t|
  {
    if |t| == 0 then p else Run(Apply(p, t[0]), t[1..])
  }

  /** What can be read off the panel: the cells while the display is on, nothing otherwise. */
  function Visible(p: Panel): map<Cell, char> {
    if p.displayOn then p.cells else map[]
  }

  /** `w` laid out on row `r` from column `c0` on, one cell per character. */
  function RowText(r: nat, c0: nat, w: string): map<Cell, char>
    decreases |w|
  {
    if |w| == 0 then map[]
    else RowText(r, c0, w[..|w| - 1])[Cell(r, c0 + |w| - 1) := w[|w| - 1]]
  }

  lemma {:induction false} RunAppend(p: Panel, a: Trace, b: Trace)
    ensures Run(p, a + b) == Run(Run(p, a), b)
    decreases |a|
  {
    if |a| == 0 {
      assert a + b == b;
    } else {
      assert (a + b)[1..] == a[1..] + b;
      RunAppend(Apply(p, a[0]), a[1..], b);
    }
  }

  /** The panel's backlight follows the trace's last toggle. */
  lemma {:induction false} RunBacklight(p: Panel, t: Trace)
    ensures Run(p, t).backlightOn == BacklightAfter(p.backlightOn, t)
    decreases |t|
  {
    if |t| > 0 {
      RunBacklight(Apply(p, t[0]), t[1..]);
    }
  }

  /** Fade commands only touch the backlight. */
  lemma {:induction false} RunFade(p: Panel, t: Trace)
    requires forall k :: 0 <= k < |t| ==> IsFadeCommand(t[k])
    ensures Run(p, t).(backlightOn := p.backlightOn) == p
    decreases |t|
  {
    if |t| > 0 {
      RunFade(Apply(p, t[0]), t[1..]);
    }
  }

  /** Cell (r, c0 + k) of RowText(r, c0, w) holds w[k]. */
  lemma {:induction false} RowTextAt(r: nat, c0: nat, w: string, k: nat)
    requires k < |w|
    ensures Cell(r, c0 + k) in RowText(r, c0, w)
    ensures RowText(r, c0, w)[Cell(r, c0 + k)] == w[k]
    decreases |w|
  {
    var n := |w| - 1;
    if k < n {
      RowTextAt(r, c0, w[..n], k);
      assert w[..n][k] == w[k];
    }
  }

  /** RowText(r, c0, w) covers columns c0 .. c0 + |w| - 1 of row r and nothing else. */
  lemma {:induction false} RowTextDomain(r: nat, c0: nat, w: string)
    ensures forall cell :: cell in RowText(r, c0, w) <==> cell.row == r && c0 <= cell.col < c0 + |w|
    decreases |w|
  {
    if |w| > 0 {
      RowTextDomain(r, c0, w[..|w| - 1]);
    }
  }

  lemma OverrideUpdate<K, V>(m: map<K, V>, a: map<K, V>, k: K, v: V)
    ensures (m + a)[k := v] == m + a[k := v]
  {
  }

  /** Running one write: the character lands under the cursor, which moves right. */
  lemma RunWriteChar(p: Panel, ch: char)
    ensures Run(p, [WriteChar(ch)]) == p.(cells := p.cells[Cell(p.row, p.col) := ch], col := p.col + 1)
  {
    assert [WriteChar(ch)][1..] == [];
  }

  /** Writing `w` lays it out from the cursor on and leaves the cursor after it. */
  lemma {:induction false} RunEcho(p: Panel, w: string)
    ensures Run(p, Echo(w)) == p.(cells := p.cells + RowText(p.row, p.col, w), col := p.col + |w|)
    decreases |w|
  {
    if |w| == 0 {
      RunEchoEmpty(p, w);
    } else {
      var n := |w| - 1;
      var before := p.cells + RowText(p.row, p.col, w[..n]);
      var q := p.(cells := before, col := p.col + n);
      var cells := p.cells + RowText(p.row, p.col, w);
      assert before[Cell(p.row, p.col + n) := w[n]] == cells by {
        CellsSnoc(p.cells, p.row, p.col, w, n);
      }
      assert Run(p, Echo(w)) == Apply(q, WriteChar(w[n])) by {
        EchoSnoc(w);
        RunSnoc(p, Echo(w[..n]), WriteChar(w[n]));
        RunEcho(p, w[..n]);
      }
      assert Apply(q, WriteChar(w[n])) == q.(cells := cells, col := p.col + n + 1);
    }
  }

  /** Running one more command applies it to the panel reached so far. */
  lemma {:induction false} RunSnoc(p: Panel, t: Trace, c: Command)
    ensures Run(p, t + [c]) == Apply(Run(p, t), c)
    decreases |t|
  {
    if |t| == 0 {
      assert t + [c] == [c];
      assert [c][1..] == [];
    } else {
      assert (t + [c])[1..] == t[1..] + [c];
      RunSnoc(Apply(p, t[0]), t[1..], c);
    }
  }

  lemma RunEchoEmpty(p: Panel, w: string)
    requires |w| == 0
    ensures Run(p, Echo(w)) == p.(cells := p.cells + RowText(p.row, p.col, w), col := p.col + |w|)
  {
    assert RowText(p.row, p.col, w) == map[];
    assert p.cells + RowText(p.row, p.col, w) == p.cells;
    assert Echo(w) == [];
  }

  /** Laying out one more character extends the laid-out row by one cell. */
  lemma CellsSnoc(m: map<Cell, char>, r: nat, c0: nat, w: string, n: nat)
    requires n + 1 == |w|
    ensures (m + RowText(r, c0, w[..n]))[Cell(r, c0 + n) := w[n]] == m + RowText(r, c0, w)
  {
    OverrideUpdate(m, RowText(r, c0, w[..n]), Cell(r, c0 + n), w[n]);
  }

  /** noDisplay hides the text and keeps the cells and the backlight; display shows them again. */
  lemma DisplayToggle(p: Panel)
    ensures Visible(Run(p, [NoDisplay])) == map[]
    ensures Run(p, [NoDisplay]).cells == p.cells
    ensures Run(p, [NoDisplay]).backlightOn == p.backlightOn
    ensures Visible(Run(p, [NoDisplay, Display])) == p.cells
    ensures Run(p, [NoDisplay, Display]).backlightOn == p.backlightOn
  {
    assert [NoDisplay, Display][1..] == [Display];
  }

  /** The panel after the fade-out, clear and home of a write: empty, cursor at (0, 0). */
  lemma WriteLayout(p: Panel, c: EasyLcd.Controller, text: string)
    requires c.started
    ensures Run(p, EasyLcd.Write(c, text).trace).cells
              == Run(p.(cells := map[], row := 0, col := 0), Wrap.Body(text)).cells
  {
    var before := EasyLcd.Before(c);
    var after := EasyLcd.After(c);
    var body := Wrap.Body(text);
    Fade.FadeOutCommands(c.fadeTime);
    Fade.FadeInCommands(c.fadeTime);
    RunAppend(p, before + EasyLcd.Home + body, after);
    RunAppend(p, before + EasyLcd.Home, body);
    RunAppend(p, before, EasyLcd.Home);
    RunFade(p, before);
    var q := Run(p, before);
    assert EasyLcd.Home[1..][1..] == [];
    var r := Run(q, EasyLcd.Home);
    assert r == q.(cells := map[], row := 0, col := 0);
    RunFade(Run(r, body), after);
    assert r.(backlightOn := p.backlightOn) == p.(cells := map[], row := 0, col := 0);
    RunBacklightFree(r, p.backlightOn, body);
  }

  /** Cells and cursor do not depend on the backlight. */
  lemma {:induction false} RunBacklightFree(p: Panel, on: bool, t: Trace)
    ensures Run(p.(backlightOn := on), t).cells == Run(p, t).cells
    ensures Run(p.(backlightOn := on), t).row == Run(p, t).row
    ensures Run(p.(backlightOn := on), t).col == Run(p, t).col
    decreases |t|
  {
    if |t| > 0 {
      assert Apply(p.(backlightOn := on), t[0]).(backlightOn := Apply(p, t[0]).backlightOn)
             == Apply(p, t[0]);
      RunBacklightFree(Apply(p, t[0]), Apply(p.(backlightOn := on), t[0]).backlightOn, t[1..]);
    }
  }

  lemma RunSetCursor(p: Panel, col: nat, row: nat)
    ensures Run(p, [SetCursor(col, row)]) == p.(row := row, col := col)
  {
    assert [SetCursor(col, row)][1..] == [];
  }

  /** Text on the current line, a wrap to row 1, then text on row 1. */
  lemma RunWrapped(p: Panel, a: string, b: string)
    ensures Run(p, Echo(a) + [Wrap.ToRow1] + Echo(b)).cells
              == p.cells + RowText(p.row, p.col, a) + RowText(1, 0, b)
    ensures Run(p, Echo(a) + [Wrap.ToRow1] + Echo(b)).row == 1
    ensures Run(p, Echo(a) + [Wrap.ToRow1] + Echo(b)).col == |b|
  {
    RunAppend(p, Echo(a) + [Wrap.ToRow1], Echo(b));
    RunAppend(p, Echo(a), [Wrap.ToRow1]);
    RunEcho(p, a);
    var q := Run(p, Echo(a));
    RunSetCursor(q, 0, 1);
    var q' := q.(row := 1, col := 0);
    RunEcho(q', b);
  }

  /** The line that results from writing b over the start of a. */
  function Over(a: string, b: string): (r: string)
    ensures |r| == if |b| <= |a| then |a| else |b|
    ensures r[..|b|] == b
    ensures r[|b|..] == if |b| <= |a| then a[|b|..] else []
  {
    if |b| <= |a| then b + a[|b|..] else b
  }

  /** Writing b over the start of a on the same row leaves b followed by the rest of a. */
  lemma Overlay(r: nat, c0: nat, a: string, b: string)
    ensures RowText(r, c0, a) + RowText(r, c0, b) == RowText(r, c0, Over(a, b))
  {
    var lhs := RowText(r, c0, a) + RowText(r, c0, b);
    var rhs := RowText(r, c0, Over(a, b));
    RowTextDomain(r, c0, a);
    RowTextDomain(r, c0, b);
    RowTextDomain(r, c0, Over(a, b));
    assert forall cell :: cell in lhs <==> cell in rhs;
    forall cell | cell in lhs
      ensures lhs[cell] == rhs[cell]
    {
      var k: nat := cell.col - c0;
      assert cell == Cell(r, c0 + k);
      RowTextAt(r, c0, Over(a, b), k);
      if k < |b| {
        RowTextAt(r, c0, b, k);
      } else {
        RowTextAt(r, c0, a, k);
      }
    }
  }

  /** A short line without newlines is shown on row 0 alone. */
  lemma ShowShortLine(p: Panel, c: EasyLcd.Controller, text: string)
    requires c.started
    requires '\n' !in text && |text| <= Wrap.WrapIndex
    ensures Run(p, EasyLcd.Write(c, text).trace).cells == RowText(0, 0, text)
  {
    var p0 := p.(cells := map[], row := 0, col := 0);
    WriteLayout(p, c, text);
    Wrap.ShortLine(text);
    RunEcho(p0, text);
    assert map[] + RowText(0, 0, text) == RowText(0, 0, text);
  }

  /**
    A longer line without newlines: the first 16 characters on row 0, all
    the others on row 1 (on the unbounded grid this model assumes).
   */
  lemma ShowLongLine(p: Panel, c: EasyLcd.Controller, text: string)
    requires c.started
    requires '\n' !in text && |text| > Wrap.WrapIndex
    ensures Run(p, EasyLcd.Write(c, text).trace).cells
              == RowText(0, 0, text[..Wrap.WrapIndex]) + RowText(1, 0, text[Wrap.WrapIndex..])
  {
    Wrap.LongLine(text);
    ShowWrapped(p, c, text, text[..Wrap.WrapIndex], text[Wrap.WrapIndex..]);
  }

  /** One newline in a text of at most 16 characters: before it on row 0, after it on row 1. */
  lemma ShowNewline(p: Panel, c: EasyLcd.Controller, text: string, k: nat)
    requires c.started
    requires k < |text| <= Wrap.WrapIndex
    requires text[k] == '\n' && '\n' !in text[..k] && '\n' !in text[k + 1..]
    ensures Run(p, EasyLcd.Write(c, text).trace).cells
              == RowText(0, 0, text[..k]) + RowText(1, 0, text[k + 1..])
  {
    Wrap.OneNewlineShort(text, k);
    ShowWrapped(p, c, text, text[..k], text[k + 1..]);
  }

  /** A write whose loop emits a, one wrap, then b: a on row 0, b on row 1. */
  lemma ShowWrapped(p: Panel, c: EasyLcd.Controller, text: string, a: string, b: string)
    requires c.started
    requires Wrap.Body(text) == Echo(a) + [Wrap.ToRow1] + Echo(b)
    ensures Run(p, EasyLcd.Write(c, text).trace).cells == RowText(0, 0, a) + RowText(1, 0, b)
  {
    var p0 := p.(cells := map[], row := 0, col := 0);
    WriteLayout(p, c, text);
    RunWrapped(p0, a, b);
    assert map[] + RowText(0, 0, a) == RowText(0, 0, a);
  }

  /**
    One newline at k < 16 in a text longer than 16 characters: row 1 first
    receives the characters after the newline, then index 16 sends the
    cursor back to column 0 of row 1 and the rest overwrites them.
   */
  lemma ShowOverwrite(p: Panel, c: EasyLcd.Controller, text: string, k: nat)
    requires c.started
    requires k < Wrap.WrapIndex < |text|
    requires text[k] == '\n' && '\n' !in text[..k] && '\n' !in text[k + 1..]
    ensures Run(p, EasyLcd.Write(c, text).trace).cells
              == RowText(0, 0, text[..k])
                 + RowText(1, 0, Over(text[k + 1..Wrap.WrapIndex], text[Wrap.WrapIndex..]))
  {
    WriteLayout(p, c, text);
    Wrap.OneNewlineLong(text, k);
    RunTwoWraps(p.(cells := map[], row := 0, col := 0),
                text[..k], text[k + 1..Wrap.WrapIndex], text[Wrap.WrapIndex..]);
  }

  /** From an empty panel homed at (0, 0): a, wrap, b, wrap again, c. */
  lemma RunTwoWraps(p0: Panel, a: string, b: string, c: string)
    requires p0.cells == map[] && p0.row == 0 && p0.col == 0
    ensures Run(p0, Echo(a) + [Wrap.ToRow1] + Echo(b) + [Wrap.ToRow1] + Echo(c)).cells
              == RowText(0, 0, a) + RowText(1, 0, Over(b, c))
  {
    var t1 := Echo(a) + [Wrap.ToRow1] + Echo(b);
    var t2 := [Wrap.ToRow1] + Echo(c);
    assert t1 + t2 == Echo(a) + [Wrap.ToRow1] + Echo(b) + [Wrap.ToRow1] + Echo(c);
    RunAppend(p0, t1, t2);
    var q := Run(p0, t1);
    assert q.cells == RowText(0, 0, a) + RowText(1, 0, b) by {
      RunWrapped(p0, a, b);
      assert map[] + RowText(0, 0, a) == RowText(0, 0, a);
    }
    RunToRow1(q, c);
    UnionAssoc(RowText(0, 0, a), RowText(1, 0, b), RowText(1, 0, c));
    Overlay(1, 0, b, c);
  }

  /** A wrap to row 1 followed by `w` lays `w` out from the start of row 1. */
  lemma RunToRow1(q: Panel, w: string)
    ensures Run(q, [Wrap.ToRow1] + Echo(w)).cells == q.cells + RowText(1, 0, w)
  {
    RunAppend(q, [Wrap.ToRow1], Echo(w));
    RunSetCursor(q, 0, 1);
    RunEcho(q.(row := 1, col := 0), w);
  }

  lemma UnionAssoc<K, V>(a: map<K, V>, b: map<K, V>, c: map<K, V>)
    ensures (a + b) + c == a + (b + c)
  {
  }

  /** "Hello\nWorld" shows "Hello" on row 0 and "World" on row 1. */
  lemma HelloWorld(p: Panel, c: EasyLcd.Controller)
    requires c.started
    ensures Run(p, EasyLcd.Write(c, "Hello\nWorld").trace).cells
              == RowText(0, 0, "Hello") + RowText(1, 0, "World")
  {
    var text := "Hello\nWorld";
    assert text[..5] == "Hello" && text[6..] == "World";
    ShowNewline(p, c, text, 5);
  }

  /** Twenty 'A's: sixteen on row 0, four on row 1. */
  lemma TwentyAs(p: Panel, c: EasyLcd.Controller)
    requires c.started
    ensures Run(p, EasyLcd.Write(c, seq(20, _ => 'A')).trace).cells
              == RowText(0, 0, seq(16, _ => 'A')) + RowText(1, 0, seq(4, _ => 'A'))
  {
    var text: string := seq(20, _ => 'A');
    assert text[..16] == seq(16, _ => 'A') && text[16..] == seq(4, _ => 'A');
    ShowLongLine(p, c, text);
  }

  /**
    "Top line!\nabcdefXY": "Top line!" on row 0; row 1 first gets "abcdef",
    then the wrap at index 16 writes "XY" over its first two cells.
   */
  lemma OverwriteExample(p: Panel, c: EasyLcd.Controller)
    requires c.started
    ensures Run(p, EasyLcd.Write(c, "Top line!\nabcdefXY").trace).cells
              == RowText(0, 0, "Top line!") + RowText(1, 0, "XYcdef")
  {
    var text := "Top line!\nabcdefXY";
    ExampleSlices();
    ShowOverwrite(p, c, text, 9);
  }

  lemma ExampleSlices()
    ensures "Top line!\nabcdefXY"[..9] == "Top line!"
    ensures "Top line!\nabcdefXY"[9] == '\n'
    ensures "Top line!\nabcdefXY"[10..16] == "abcdef"
    ensures "Top line!\nabcdefXY"[16..] == "XY"
    ensures '\n' !in "Top line!\nabcdefXY"[..9]
    ensures '\n' !in "Top line!\nabcdefXY"[10..]
    ensures Over("abcdef", "XY") == "XYcdef"
  {
    assert "abcdef"[2..] == "cdef";
  }
}
