/**
  The calls EasyLCD makes into the LiquidCrystal_I2C driver and the Arduino
  core, recorded as a trace. The driver itself is foreign code. The trace is
  read through a few projections: the characters written, the time spent in
  delays, and the backlight state. The backlight projection assumes one
  driver effect: begin switches the backlight on, extending the default that
  EasyLCD.h documents to every begin. What the events do to the screen's cells
  is stated separately (module Screen) as an assumption about the driver.
 */
module Commands {

  /** One call made by EasyLCD on its driver or on the Arduino core. */
  datatype Command =
    | DriverBegin                    // _lcd->begin()
    | Clear                          // _lcd->clear()
    | SetCursor(col: nat, row: nat)  // _lcd->setCursor(col, row)
    | WriteChar(ch: char)            // _lcd->write(ch)
    | Display                        // _lcd->display()
    | NoDisplay                      // _lcd->noDisplay()
    | Backlight                      // _lcd->backlight()
    | NoBacklight                    // _lcd->noBacklight()
    | Delay(us: nat)                 // delayMicroseconds(us)

  type Trace = seq<Command>

  /** The commands a backlight fade is made of. */
  predicate IsFadeCommand(c: Command) {
    c.Backlight? || c.NoBacklight? || c.Delay?
  }

  /** The trace that writes `w` one character after the other. */
  function Echo(w: string): (t: Trace)
    ensures |t| == |w|
    ensures forall k :: 0 <= k < |w| ==> t[k] == WriteChar(w[k])
  {
    seq(|w|, k requires 0 <= k < |w| => WriteChar(w[k]))
  }

  lemma EchoSplit(w: string, k: nat)
    requires k <= |w|
    ensures Echo(w) == Echo(w[..k]) + Echo(w[k..])
  {
    assert Echo(w) == Echo(w[..k]) + Echo(w[k..]);
  }

  lemma EchoSnoc(w: string)
    requires |w| > 0
    ensures Echo(w) == Echo(w[..|w| - 1]) + [WriteChar(w[|w| - 1])]
  {
    assert Echo(w) == Echo(w[..|w| - 1]) + [WriteChar(w[|w| - 1])];
  }

  lemma Assoc3(a: Trace, b: Trace, c: Trace)
    ensures a + b + c == a + (b + c)
  {
  }

  lemma Assoc4(a: Trace, b: Trace, c: Trace, d: Trace)
    ensures a + b + c + d == a + (b + (c + d))
  {
  }

  lemma Regroup(a: Trace, b: Trace, c: Trace, d: Trace)
    ensures a + b + c + d == a + (b + c) + d
  {
  }

  /** The outer parts of a + m + z can be read back off it. */
  lemma Bracket(a: Trace, m: Trace, z: Trace)
    ensures (a + m + z)[..|a|] == a
    ensures (a + m + z)[|a + m + z| - |z|..] == z
  {
  }

  /** The characters a trace writes, in order. */
  function Chars(t: Trace): string {
    if |t| == 0 then []
    else (if t[0].WriteChar? then [t[0].ch] else []) + Chars(t[1..])
  }

  lemma {:induction false} CharsAppend(a: Trace, b: Trace)
    ensures Chars(a + b) == Chars(a) + Chars(b)
    decreases |a|
  {
    if |a| == 0 {
      assert a + b == b;
    } else {
      assert (a + b)[1..] == a[1..] + b;
      assert (a + b)[0] == a[0];
      CharsAppend(a[1..], b);
      var head := if a[0].WriteChar? then [a[0].ch] else [];
      calc {
        Chars(a + b);
        head + Chars(a[1..] + b);
        head + (Chars(a[1..]) + Chars(b));
        (head + Chars(a[1..])) + Chars(b);
      }
    }
  }

  /** `s` with every newline removed: the characters a line-wrapping writer should show. */
  function Strip(s: string): (r: string)
    ensures |r| <= |s|
    ensures '\n' !in r
  {
    if |s| == 0 then []
    else (if s[0] == '\n' then [] else [s[0]]) + Strip(s[1..])
  }

  lemma {:induction false} StripAppend(a: string, b: string)
    ensures Strip(a + b) == Strip(a) + Strip(b)
    decreases |a|
  {
    if |a| == 0 {
      assert a + b == b;
    } else {
      assert (a + b)[1..] == a[1..] + b;
      StripAppend(a[1..], b);
    }
  }

  /** Total microseconds a trace spends in delayMicroseconds. */
  function DelaySum(t: Trace): nat {
    if |t| == 0 then 0
    else (if t[0].Delay? then t[0].us else 0) + DelaySum(t[1..])
  }

  lemma {:induction false} DelaySumAppend(a: Trace, b: Trace)
    ensures DelaySum(a + b) == DelaySum(a) + DelaySum(b)
    decreases |a|
  {
    if |a| == 0 {
      assert a + b == b;
    } else {
      assert (a + b)[1..] == a[1..] + b;
      DelaySumAppend(a[1..], b);
    }
  }

  /**
    Backlight state after the trace, starting from `on`: the last toggle wins.
    The driver's begin counts as switching it on, the default EasyLCD.h
    documents for a freshly begun display.
   */
  function BacklightAfter(on: bool, t: Trace): bool
    decreases |t|
  {
    if |t| == 0 then on
    else
      var next := if t[0].Backlight? || t[0].DriverBegin? then true else if t[0].NoBacklight? then false else on;
      BacklightAfter(next, t[1..])
  }

  lemma {:induction false} BacklightAfterAppend(on: bool, a: Trace, b: Trace)
    ensures BacklightAfter(on, a + b) == BacklightAfter(BacklightAfter(on, a), b)
    decreases |a|
  {
    if |a| == 0 {
      assert a + b == b;
    } else {
      assert (a + b)[1..] == a[1..] + b;
      var next := if a[0].Backlight? || a[0].DriverBegin? then true else if a[0].NoBacklight? then false else on;
      BacklightAfterAppend(next, a[1..], b);
    }
  }

  /** A trace without backlight commands or a driver begin leaves the backlight as it was. */
  lemma {:induction false} BacklightUntouched(on: bool, t: Trace)
    requires forall k :: 0 <= k < |t| ==> !t[k].Backlight? && !t[k].NoBacklight? && !t[k].DriverBegin?
    ensures BacklightAfter(on, t) == on
    decreases |t|
  {
    if |t| > 0 {
      BacklightUntouched(on, t[1..]);
    }
  }
}
