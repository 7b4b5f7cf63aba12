/**
  The EasyLCD controller (EasyLCD.cpp, EasyLCD.h): a small configuration
  record and the operations on it, each returning the next record and the
  trace of driver commands it issues.

  EasyLCD.h and EasyLCD.cpp disagree: the header declares `void begin()`,
  `fadeBetweenTime(uint16_t)` and `fadeBetween(bool)` with members
  `_fadeBetweenTime` and `_fadeBetweenOn`, while the .cpp defines
  `bool begin()`, `fadeTime(uint16_t)` and `fadeOnUpdate(bool)` over
  `_fadeTime` and `_fadeOnUpdateOn`. This model follows the .cpp's names and
  behaviour and takes the initial values from the header's member defaults.
 */
module EasyLcd {
  import C = Commands
  import Fade
  import Wrap

  /** Arduino `byte`: the error code Wire.endTransmission reports. */
  type Byte = x: int | 0 <= x < 0x100

  /** Arduino `uint16_t`: the type of the fade time. */
  type U16 = x: int | 0 <= x < 0x1_0000

  /** Default fade time (`_fadeBetweenTime = 500` in EasyLCD.h). */
  const DefaultFadeTime: U16 := 500

  /**
    The controller's state. `started` records whether a begin has succeeded
    (the header asks for begin before anything else); `probeOk` is the
    outcome of the most recent bus probe. The driver handle and the bus
    address are not modelled: the probe result is an input of Begin.
   */
  datatype Controller = Controller(
    started: bool,
    fadeOnUpdate: bool,
    fadeTime: U16,
    probeOk: bool)

  /** The next controller state and the commands an operation issued. */
  datatype Effect = Effect(next: Controller, trace: C.Trace)

  /** Outcome of begin: its return value, next state and commands. */
  datatype BeginResult = BeginResult(ok: bool, next: Controller, trace: C.Trace)

  /** A freshly constructed controller: not started, no fade on update, fade time 500. */
  function New(): (c: Controller)
    ensures !c.started
    ensures !c.fadeOnUpdate
    ensures c.fadeTime == 500
  {
    Controller(false, false, DefaultFadeTime, false)
  }

  /**
    EasyLCD::begin. `probeError` is what Wire.endTransmission returned for
    the controller's address. A nonzero code makes begin return false
    without touching the driver; zero initialises the driver.
   */
  function Begin(c: Controller, probeError: Byte): (r: BeginResult)
    ensures r.ok <==> probeError == 0
    ensures r.ok ==> r.trace == [C.DriverBegin] && r.next.started
    ensures !r.ok ==> r.trace == [] && r.next.started == c.started
    ensures C.DriverBegin in r.trace <==> r.ok
    ensures r.ok ==> forall on :: C.BacklightAfter(on, r.trace)
    ensures r.next.probeOk == r.ok
    ensures r.next.fadeOnUpdate == c.fadeOnUpdate && r.next.fadeTime == c.fadeTime
  {
    if probeError != 0 then
      BeginResult(false, c.(probeOk := false), [])
    else
      BeginResult(true, c.(started := true, probeOk := true), [C.DriverBegin])
  }

  /** EasyLCD::fadeTime: sets the fade time and nothing else. */
  function SetFadeTime(c: Controller, ms: U16): (r: Controller)
    requires c.started
    ensures r.fadeTime == ms
    ensures r.(fadeTime := c.fadeTime) == c
  {
    c.(fadeTime := ms)
  }

  /** EasyLCD::fadeOnUpdate: sets the fade-on-update flag and nothing else. */
  function SetFadeOnUpdate(c: Controller, on: bool): (r: Controller)
    requires c.started
    ensures r.fadeOnUpdate == on
    ensures r.(fadeOnUpdate := c.fadeOnUpdate) == c
  {
    c.(fadeOnUpdate := on)
  }

  /** EasyLCD::fadeOut with the controller's fade time. */
  function FadeOut(c: Controller): (r: Effect)
    requires c.started
    ensures r.next == c
    ensures forall on :: !C.BacklightAfter(on, r.trace)
    ensures C.DelaySum(r.trace) == c.fadeTime * c.fadeTime
  {
    Fade.FadeOutBacklight(true, c.fadeTime);
    Fade.FadeOutBacklight(false, c.fadeTime);
    Fade.FadeOutDelay(c.fadeTime);
    Effect(c, Fade.FadeOut(c.fadeTime))
  }

  /** EasyLCD::fadeIn with the controller's fade time. */
  function FadeIn(c: Controller): (r: Effect)
    requires c.started
    ensures r.next == c
    ensures forall on :: C.BacklightAfter(on, r.trace) == (c.fadeTime > 0 || on)
    ensures C.DelaySum(r.trace) == c.fadeTime * c.fadeTime
  {
    Fade.FadeInBacklight(true, c.fadeTime);
    Fade.FadeInBacklight(false, c.fadeTime);
    Fade.FadeInDelay(c.fadeTime);
    Effect(c, Fade.FadeIn(c.fadeTime))
  }

  /** The four driver pass-throughs of EasyLCD: display, noDisplay, backlight, noBacklight. */
  datatype Toggle = DisplayOp | NoDisplayOp | BacklightOp | NoBacklightOp

  function ToggleCommand(t: Toggle): C.Command {
    match t
    case DisplayOp => C.Display
    case NoDisplayOp => C.NoDisplay
    case BacklightOp => C.Backlight
    case NoBacklightOp => C.NoBacklight
  }

  /** A pass-through issues its one driver command and changes no setting. */
  function Pass(c: Controller, t: Toggle): (r: Effect)
    requires c.started
    ensures r.next == c
    ensures |r.trace| == 1
    ensures C.Chars(r.trace) == []
    ensures t == DisplayOp ==> r.trace == [C.Display]
    ensures t == NoDisplayOp ==> r.trace == [C.NoDisplay]
    ensures t == BacklightOp ==> r.trace == [C.Backlight]
    ensures t == NoBacklightOp ==> r.trace == [C.NoBacklight]
    ensures forall on :: C.BacklightAfter(on, r.trace)
              == (if t == BacklightOp then true else if t == NoBacklightOp then false else on)
  {
    Effect(c, [ToggleCommand(t)])
  }

  /** What write issues before the text: a fade-out when fade-on-update is set. */
  function Before(c: Controller): C.Trace {
    if c.fadeOnUpdate then Fade.FadeOut(c.fadeTime) else []
  }

  /** What write issues after the text: a fade-in when fade-on-update is set. */
  function After(c: Controller): C.Trace {
    if c.fadeOnUpdate then Fade.FadeIn(c.fadeTime) else []
  }

  /** The clear and the cursor home that start every write. */
  const Home: C.Trace := [C.Clear, C.SetCursor(0, 0)]

  /**
    EasyLCD::write: optional fade-out, clear, cursor to (0, 0), the line-wrap
    loop, optional fade-in. The characters shown are the input with its
    newlines removed, and the settings do not change.
   */
  function Write(c: Controller, text: string): (r: Effect)
    requires c.started
    ensures r.next == c
    ensures C.Chars(r.trace) == C.Strip(text)
  {
    var t := Before(c) + Home + Wrap.Body(text) + After(c);
    FrameHasNoChars(c);
    Wrap.BodyChars(text);
    C.CharsAppend(Before(c) + Home, Wrap.Body(text));
    C.CharsAppend(Before(c), Home);
    C.CharsAppend(Before(c) + Home + Wrap.Body(text), After(c));
    Effect(c, t)
  }

  lemma HomeHasNoChars()
    ensures C.Chars(Home) == []
  {
    assert Home[1..][1..] == [];
  }

  /** A trace of fade commands only writes nothing. */
  lemma {:induction false} FadeHasNoChars(t: C.Trace)
    requires forall k :: 0 <= k < |t| ==> C.IsFadeCommand(t[k])
    ensures C.Chars(t) == []
    decreases |t|
  {
    if |t| > 0 {
      FadeHasNoChars(t[1..]);
    }
  }

  lemma FrameHasNoChars(c: Controller)
    ensures C.Chars(Before(c)) == [] && C.Chars(Home) == [] && C.Chars(After(c)) == []
  {
    Fade.FadeOutCommands(c.fadeTime);
    Fade.FadeInCommands(c.fadeTime);
    FadeHasNoChars(Before(c));
    FadeHasNoChars(After(c));
    HomeHasNoChars();
  }

  /**
    write clears the screen and homes the cursor before writing any
    character, right after the optional fade-out.
   */
  lemma WriteClearsFirst(c: Controller, text: string)
    requires c.started
    ensures var t := Write(c, text).trace; var j := |Before(c)|;
      && j + 2 <= |t|
      && t[j] == C.Clear && t[j + 1] == C.SetCursor(0, 0)
      && (forall k :: 0 <= k < j ==> C.IsFadeCommand(t[k]))
      && (forall k :: 0 <= k < j + 2 ==> !t[k].WriteChar?)
  {
    var before := Before(c);
    var rest := Home + (Wrap.Body(text) + After(c));
    assert Write(c, text).trace == before + rest by {
      C.Assoc4(before, Home, Wrap.Body(text), After(c));
    }
    assert |rest| >= 2 && rest[..2] == Home by {
      assert rest[..2] == (Home + (Wrap.Body(text) + After(c)))[..|Home|];
    }
    BeforeIsFade(c);
    HomeAfterFades(before, rest);
  }

  lemma BeforeIsFade(c: Controller)
    ensures forall k :: 0 <= k < |Before(c)| ==> C.IsFadeCommand(Before(c)[k])
  {
    Fade.FadeOutCommands(c.fadeTime);
  }

  lemma HomeAfterFades(before: C.Trace, rest: C.Trace)
    requires |rest| >= 2 && rest[..2] == Home
    requires forall k :: 0 <= k < |before| ==> C.IsFadeCommand(before[k])
    ensures var t := before + rest; var j := |before|;
      && j + 2 <= |t|
      && t[j] == C.Clear && t[j + 1] == C.SetCursor(0, 0)
      && (forall k :: 0 <= k < j ==> C.IsFadeCommand(t[k]))
      && (forall k :: 0 <= k < j + 2 ==> !t[k].WriteChar?)
  {
    assert rest[0] == rest[..2][0] && rest[1] == rest[..2][1];
  }

  /**
    With fade-on-update set, write is the fade-out, then the text, then the
    fade-in; without it, write issues no backlight or delay command at all.
   */
  lemma WriteFadeBracket(c: Controller, text: string)
    requires c.started
    ensures var t := Write(c, text).trace;
      && (c.fadeOnUpdate ==>
            && t[..|Fade.FadeOut(c.fadeTime)|] == Fade.FadeOut(c.fadeTime)
            && t[|t| - |Fade.FadeIn(c.fadeTime)|..] == Fade.FadeIn(c.fadeTime))
      && (!c.fadeOnUpdate ==> forall k :: 0 <= k < |t| ==> !C.IsFadeCommand(t[k]))
  {
    var mid := Home + Wrap.Body(text);
    assert Write(c, text).trace == Before(c) + mid + After(c) by {
      C.Regroup(Before(c), Home, Wrap.Body(text), After(c));
    }
    if c.fadeOnUpdate {
      C.Bracket(Before(c), mid, After(c));
    } else {
      MiddleIsNotFade(text);
      assert Before(c) + mid + After(c) == mid;
    }
  }

  /**
    The backlight after a write: untouched without fade-on-update; with it,
    on after a nonzero fade time, and off after a fade time of 0 (the
    fade-out forces it off and an empty fade-in does not turn it back on).
   */
  lemma WriteBacklight(c: Controller, text: string, on: bool)
    requires c.started
    ensures C.BacklightAfter(on, Write(c, text).trace)
              == if c.fadeOnUpdate then c.fadeTime > 0 else on
  {
    var mid := Home + Wrap.Body(text);
    MiddleIsNotFade(text);
    var b1 := C.BacklightAfter(on, Before(c));
    C.BacklightAfterAppend(on, Before(c), mid);
    C.BacklightAfterAppend(on, Before(c) + mid, After(c));
    C.BacklightUntouched(b1, mid);
    C.Regroup(Before(c), Home, Wrap.Body(text), After(c));
    if c.fadeOnUpdate {
      Fade.FadeOutBacklight(on, c.fadeTime);
      Fade.FadeInBacklight(b1, c.fadeTime);
    }
  }

  /** The time a write blocks in delays: two full fades, or nothing. */
  lemma WriteDelay(c: Controller, text: string)
    requires c.started
    ensures C.DelaySum(Write(c, text).trace)
              == if c.fadeOnUpdate then 2 * (c.fadeTime * c.fadeTime) else 0
  {
    var mid := Home + Wrap.Body(text);
    MiddleIsNotFade(text);
    NoDelay(mid);
    C.DelaySumAppend(Before(c), mid);
    C.DelaySumAppend(Before(c) + mid, After(c));
    assert Write(c, text).trace == Before(c) + mid + After(c) by {
      C.Regroup(Before(c), Home, Wrap.Body(text), After(c));
    }
    var total := C.DelaySum(Before(c)) + C.DelaySum(After(c));
    assert C.DelaySum(Write(c, text).trace) == total;
    if c.fadeOnUpdate {
      var ft: nat := c.fadeTime;
      Fade.FadeOutDelay(ft);
      Fade.FadeInDelay(ft);
      assert total == ft * ft + ft * ft;
    }
  }

  /** A trace without delays takes no time. */
  lemma {:induction false} NoDelay(t: C.Trace)
    requires forall k :: 0 <= k < |t| ==> !t[k].Delay?
    ensures C.DelaySum(t) == 0
    decreases |t|
  {
    if |t| > 0 {
      NoDelay(t[1..]);
    }
  }

  /** Between the fades, write issues no fade command: only the clear, cursor moves and characters. */
  lemma MiddleIsNotFade(text: string)
    ensures forall k :: 0 <= k < |Home + Wrap.Body(text)| ==> !C.IsFadeCommand((Home + Wrap.Body(text))[k])
  {
    var mid := Home + Wrap.Body(text);
    forall k | 0 <= k < |mid|
      ensures !C.IsFadeCommand(mid[k])
    {
      if k >= 2 {
        assert mid[k] == Wrap.Body(text)[k - 2];
      }
    }
  }

  /** Every call of the public interface, with its argument. */
  datatype Op =
    | BeginOp(probeError: Byte)
    | WriteOp(text: string)
    | FadeOutOp
    | FadeInOp
    | FadeTimeOp(ms: U16)
    | FadeOnUpdateOp(on: bool)
    | ToggleOp(toggle: Toggle)

  /**
    One call. Every call but begin needs a started controller; outside that
    contract the step is undefined and yields None.
   */
  function Step(c: Controller, op: Op): (r: Option)
    ensures r.None? <==> !c.started && !op.BeginOp?
    ensures r.Some? && !c.started && r.effect.next.started ==> op.BeginOp? && op.probeError == 0
    ensures r.Some? && op.BeginOp? ==> (r.effect.next.probeOk <==> op.probeError == 0)
  {
    match op
    case BeginOp(e) => var b := Begin(c, e); Some(Effect(b.next, b.trace))
    case WriteOp(text) => if c.started then Some(Write(c, text)) else None
    case FadeOutOp => if c.started then Some(FadeOut(c)) else None
    case FadeInOp => if c.started then Some(FadeIn(c)) else None
    case FadeTimeOp(ms) => if c.started then Some(Effect(SetFadeTime(c, ms), [])) else None
    case FadeOnUpdateOp(on) => if c.started then Some(Effect(SetFadeOnUpdate(c, on), [])) else None
    case ToggleOp(t) => if c.started then Some(Pass(c, t)) else None
  }

  datatype Option = None | Some(effect: Effect)

  /** A sequence of calls from state c; None once a call breaks the begin-first contract. */
  function Session(c: Controller, ops: seq<Op>): Option
    decreases |ops|
  {
    if |ops| == 0 then Some(Effect(c, []))
    else
      match Step(c, ops[0])
      case None => None
      case Some(e) =>
        match Session(e.next, ops[1..])
        case None => None
        case Some(rest) => Some(Effect(rest.next, e.trace + rest.trace))
  }

  /**
    Once started, a controller stays started: no call but begin touches the
    flag, and a failed begin does not clear it.
   */
  lemma {:induction false} StaysStarted(c: Controller, ops: seq<Op>)
    requires c.started
    ensures Session(c, ops).Some?
    ensures Session(c, ops).effect.next.started
    decreases |ops|
  {
    if |ops| > 0 {
      var e := Step(c, ops[0]).effect;
      StaysStarted(e.next, ops[1..]);
    }
  }

  /**
    Begin first: in any session that keeps the contract, starting from a
    controller that is not started, the first command the driver receives
    is its own initialisation, and only a begin whose probe succeeded
    starts the controller.
   */
  lemma {:induction false} BeginFirst(c: Controller, ops: seq<Op>)
    requires !c.started
    requires Session(c, ops).Some?
    ensures |Session(c, ops).effect.trace| > 0 ==> Session(c, ops).effect.trace[0] == C.DriverBegin
    ensures Session(c, ops).effect.next.started ==>
              exists k :: 0 <= k < |ops| && ops[k] == BeginOp(0)
    decreases |ops|
  {
    if |ops| > 0 {
      var e := Step(c, ops[0]).effect;
      var rest := Session(e.next, ops[1..]).effect;
      assert Session(c, ops).effect == Effect(rest.next, e.trace + rest.trace);
      if e.next.started {
        assert ops[0] == BeginOp(0);
        assert e.trace == [C.DriverBegin];
      } else {
        assert ops[0].BeginOp? && ops[0].probeError != 0;
        assert e.trace == [];
        BeginFirst(e.next, ops[1..]);
        assert e.trace + rest.trace == rest.trace;
        if rest.next.started {
          var k :| 0 <= k < |ops[1..]| && ops[1..][k] == BeginOp(0);
          assert ops[k + 1] == BeginOp(0);
        }
      }
    }
  }
}
