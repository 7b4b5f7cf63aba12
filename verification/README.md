# EasyLCD in Dafny

EasyLCD is an Arduino library. It puts whole strings on a two-row I2C
character LCD and fades the backlight in and out. The logic it owns sits in
`EasyLCD.cpp`; every other call passes straight through to the
LiquidCrystal_I2C driver.

This project models that logic as pure functions. Each function returns the
**trace** of driver and Arduino calls the C++ code makes, as a sequence of
`Commands.Command` values: `DriverBegin`, `Clear`, `SetCursor(col, row)`,
`WriteChar(ch)`, `Display`, `NoDisplay`, `Backlight`, `NoBacklight` and
`Delay(us)`.

- `commands.dfy` (module `Commands`) holds the command datatype and the
  projections the properties are stated with:
  - `Chars`: the characters written;
  - `Strip`: the input without newlines;
  - `DelaySum`: the total time spent in delays;
  - `BacklightAfter`: the backlight state after a trace. `backlight` turns
    it on and `noBacklight` turns it off. The driver's `begin` also turns it
    on, which is an assumption about the driver (see "## Left out").
- `fade.dfy` (module `Fade`) models `fadeOut` and `fadeIn`. Each is a
  counting loop of four-command pulses. `fadeOut` also forces the backlight
  off at the end.
- `wrap.dfy` (module `Wrap`) models the line-wrap loop of `write` exactly as
  written:
  - the wrap is decided by the *input index* `i == 16`, not the column;
  - the C++ bitwise `&`/`|` are applied to 0/1 values;
  - `secondLine` is never set, so its guard never switches on;
  - after a newline at index k < 16, index 16 sends the cursor back to
    column 0 of row 1, and the rest of the text overwrites what followed
    the newline.
- `controller.dfy` (module `EasyLcd`) holds the controller record
  (`started`, `fadeOnUpdate`, `fadeTime`, `probeOk`) and the public calls:
  - `begin`, with the I2C probe result as an input;
  - the `fadeTime` and `fadeOnUpdate` setters;
  - the four pass-throughs;
  - `write`, which is an optional fade-out, a clear, a cursor home, the
    wrap loop and an optional fade-in.

  It also has a session interpreter for the header's rule that `begin`
  comes first.

  The header and the .cpp disagree on names and on what `begin` returns. The
  header has `void begin()`, `fadeBetweenTime` and `fadeBetween`. The .cpp
  has `bool begin()`, `fadeTime` and `fadeOnUpdate`. The model follows the
  .cpp and takes the initial values from the header's member defaults.
- `screen.dfy` (module `Screen`) is an **assumption about the driver**, not
  something EasyLCD promises. It reads a trace on an unbounded grid of cells
  with these rules:
  - a write fills the cell under the cursor and moves the cursor one
    column right;
  - `begin` empties the grid, homes the cursor, shows the display and
    turns the backlight on, the default `EasyLCD.h` documents;
  - `clear` empties the grid and homes the cursor;
  - `noDisplay` only hides the grid.

  Under those rules the module derives what the screen shows after a
  write.

The wrap compares the input index with a fixed 16. It does not use the
current column or the configured column count.

In `EasyLCD.h` the doc comments of `display()` and `noDisplay()` are swapped:
the comment about hiding the characters sits on `display()`. The model
follows the method names and the pass-throughs in `EasyLCD.cpp`, so
`noDisplay` hides the characters and `display` shows them.

## Model

| member | source | states |
|---|---|---|
| Wrap.WrapGuard | EasyLCD.cpp:82 | The guard built from bitwise and/or on 0/1 values fires exactly when (i == 16 and not secondLine) or the character is a newline. |
| Wrap.StepAt | EasyLCD.cpp:82-88 | Handling index i emits exactly one command per condition that holds. The move to (0, 1) comes first, iff i == 16 or the character is a newline, so a newline at index 16 gives one move, not two. Writing the character comes last, iff the character is not a newline. Nothing else is emitted. |
| Wrap.BlockAt | EasyLCD.cpp:81-88 | Index i's commands sit in the whole trace right after those of index i - 1. They begin with the move to row 1 exactly when i == 16 or s[i] is a newline, so a newline at index 16 gives one move, not two. |
| Wrap.BodyChars | EasyLCD.cpp:81-88 | The characters the loop writes are the input with every newline removed, in order. |
| Wrap.Body | EasyLCD.cpp:81-90 | The loop over the whole input issues at most two commands per character. They are only moves to (0, 1) and writes of non-newline characters. |
| Wrap.WrapCount | EasyLCD.cpp:81-84 | The loop emits one move to row 1 per index that is 16 or holds a newline, and no other. |
| Wrap.BodyQuiet | EasyLCD.cpp:81-88 | Over a stretch of indices that holds no newline and does not contain 16, the loop only writes the characters. |
| Wrap.WrapThenQuiet | EasyLCD.cpp:81-88 | At a wrap point followed by plain characters, the loop emits one move to row 1, then writes the characters. The newline itself is not written. |
| Wrap.ShortLine | EasyLCD.cpp:81-88 | Text of at most 16 characters without a newline is written as it is, with no move to row 1. |
| Wrap.LongLine | EasyLCD.cpp:81-88 | Text longer than 16 characters without a newline gives: the first 16 characters, exactly one move to row 1, then the rest. |
| Wrap.OneNewlineShort | EasyLCD.cpp:81-88 | Text of at most 16 characters with one newline gives: the text before the newline, one move to row 1, then the text after it. |
| Wrap.OneNewlineLong | EasyLCD.cpp:73-88 | With one newline at k < 16 and more than 16 characters, the loop moves to row 1 twice: once at the newline and once again at index 16. |
| Wrap.WrapAfterNewline | EasyLCD.cpp:73-84 | An earlier newline never suppresses the index-16 wrap: index 16 begins with a move to row 1, and there are at least two such moves. |
| Wrap.RunBody | EasyLCD.cpp:81-90 | The loop run statement by statement, with the C++ guard, produces the modelled trace and writes the input without its newlines. |
| Fade.FadeOut | EasyLCD.cpp:105-114 | fadeOut is 4 * fadeTime + 1 commands. Pass k is off, wait k, on, wait fadeTime - k, and the last command forces the backlight off. |
| Fade.FadeIn | EasyLCD.cpp:118-126 | fadeIn is 4 * fadeTime commands. Pass k is off, wait fadeTime - k, on, wait k, and nothing follows the last pass. |
| Fade.OutLoop | EasyLCD.cpp:106-111 | n passes of the fade-out loop are 4n commands. Pass k is off, wait k, on, wait fadeTime - k. |
| Fade.InLoop | EasyLCD.cpp:119-124 | n passes of the fade-in loop are 4n commands. Pass k is off, wait fadeTime - k, on, wait k. |
| Fade.PulseDelays | EasyLCD.cpp:106-124 | The two waits of every pass, in either loop, add up to the fade time. |
| Fade.PulseBacklight | EasyLCD.cpp:106-124 | Every pass of either loop leaves the backlight on. |
| Fade.OutLoopDelay | EasyLCD.cpp:106-111 | n passes of the fade-out loop wait n × fadeTime microseconds. |
| Fade.InLoopDelay | EasyLCD.cpp:119-124 | n passes of the fade-in loop wait n × fadeTime microseconds. |
| Fade.OutLoopBacklight | EasyLCD.cpp:106-111 | After at least one fade-out pass the backlight is on. After none it is unchanged. |
| Fade.InLoopBacklight | EasyLCD.cpp:119-124 | After at least one fade-in pass the backlight is on. After none it is unchanged. |
| Fade.FadeOutDelay | EasyLCD.cpp:105-114 | fadeOut blocks for fadeTime² microseconds in all. |
| Fade.FadeOutBacklight | EasyLCD.cpp:105-114 | fadeOut leaves the backlight off, whatever its state before. |
| Fade.FadeOutCommands | EasyLCD.cpp:105-114 | fadeOut issues only backlight toggles and delays. |
| Fade.FadeOutShape | EasyLCD.cpp:105-114 | fadeOut is exactly fadeTime passes of [off, wait i, on, wait fadeTime - i], then one final off. Length, total delay and final backlight state follow. |
| Fade.FadeInDelay | EasyLCD.cpp:118-126 | fadeIn blocks for fadeTime² microseconds in all. |
| Fade.FadeInBacklight | EasyLCD.cpp:118-126 | fadeIn leaves the backlight on when fadeTime > 0. With fadeTime 0 it leaves it as it was. |
| Fade.FadeInCommands | EasyLCD.cpp:118-126 | fadeIn issues only backlight toggles and delays. |
| Fade.FadeInShape | EasyLCD.cpp:118-126 | fadeIn is exactly fadeTime passes of [off, wait fadeTime - i, on, wait i], with nothing forced afterwards. Its last toggle is on when fadeTime > 0; it is empty when fadeTime is 0. |
| Fade.DutyCycleMirror | EasyLCD.cpp:106-124 | The off-phase grows by one microsecond per fade-out pass and shrinks by one per fade-in pass. Fade-in pass i equals fade-out pass fadeTime - i. |
| Fade.RunFadeOut | EasyLCD.cpp:105-114 | The fade-out loop run step by step produces the modelled trace. Its delays add up to i · fadeTime after i passes and to fadeTime² in all. |
| EasyLcd.New | EasyLCD.h:76-77 | A new controller has fade-on-update off and fade time 500, and is not started. |
| EasyLcd.Begin | EasyLCD.cpp:36-48 | begin returns true iff the probe error is 0. Only then does it initialise the driver and start the controller, which leaves the backlight on, the documented default. On failure it issues nothing and changes no setting. |
| EasyLcd.SetFadeTime | EasyLCD.cpp:99-101 | Sets the fade time and changes nothing else. |
| EasyLcd.SetFadeOnUpdate | EasyLCD.cpp:130-132 | Sets the fade-on-update flag and changes nothing else. |
| EasyLcd.FadeOut | EasyLCD.cpp:105-114 | fadeOut with the configured time: backlight off from any start, fadeTime² microseconds of delay, settings unchanged. |
| EasyLcd.FadeIn | EasyLCD.cpp:118-126 | fadeIn with the configured time: backlight on from any start when fadeTime > 0, fadeTime² microseconds of delay, settings unchanged. |
| EasyLcd.Pass | EasyLCD.cpp:52-67 | display, noDisplay, backlight and noBacklight each issue exactly their matching driver command and write nothing. backlight leaves the backlight on and noBacklight leaves it off, from any start. display and noDisplay leave it as it was. No setting changes. |
| EasyLcd.Write | EasyLCD.cpp:72-96 | write changes no setting, and the characters it sends are the input without its newlines. |
| EasyLcd.WriteClearsFirst | EasyLCD.cpp:75-80 | write issues the clear and the move to (0, 0) right after the optional fade-out. Before them come only fade commands and no character. |
| EasyLcd.WriteFadeBracket | EasyLCD.cpp:75-94 | With fade-on-update set, write starts with the whole fade-out and ends with the whole fade-in. Without it, write issues no backlight or delay command. |
| EasyLcd.WriteBacklight | EasyLCD.cpp:75-94 | After a write the backlight is unchanged without fade-on-update. With it, the backlight is on iff the fade time is nonzero. |
| EasyLcd.WriteDelay | EasyLCD.cpp:75-94 | A write blocks for 2 × fadeTime² microseconds with fade-on-update, and for none without it. |
| EasyLcd.MiddleIsNotFade | EasyLCD.cpp:79-90 | Between the fades, write issues no backlight toggle and no delay. |
| EasyLcd.Step | EasyLCD.h:26 | Every call except begin is outside the contract on a controller that is not started. A call on such a controller can start it only if it is a begin whose probe succeeded. |
| EasyLcd.StaysStarted | EasyLCD.h:45-48 | Once begin has succeeded, every later sequence of calls is within the contract and the controller stays started. |
| EasyLcd.BeginFirst | EasyLCD.h:26 | In a session that keeps the begin-first contract, the driver's own initialisation is the first command it receives. A session that ends started contains a begin whose probe returned 0. |
| Screen.RunEcho | EasyLCD.cpp:86-88 | Under the assumed driver, writing a string lays it out from the cursor along the row and leaves the cursor just after it. |
| Screen.DisplayToggle | EasyLCD.h:51-61 | noDisplay hides the characters and keeps them and the backlight. display shows the same characters again with the backlight unchanged. |
| Screen.WriteLayout | EasyLCD.cpp:75-80 | Whatever the panel held, the cells after a write hold what its loop draws on an empty panel from (0, 0). The fades do not touch the cells. The contract is about the cells. Whether they are visible depends on the display flag, which this row does not claim. |
| Screen.ShowShortLine | EasyLCD.cpp:79-88 | After a short line without a newline, the cells hold it on row 0 alone. |
| Screen.ShowLongLine | EasyLCD.cpp:79-88 | After a longer line without a newline, the cells hold its first 16 characters on row 0 and the rest on row 1. |
| Screen.ShowNewline | EasyLCD.cpp:79-88 | After a text of at most 16 characters with one newline, the cells hold the part before it on row 0 and the part after it on row 1. |
| Screen.ShowOverwrite | EasyLCD.cpp:73-88 | With a newline at k < 16 and more than 16 characters, row 1 of the cells ends up as the text from index 16 on written over the text between the newline and index 16. |
| Screen.HelloWorld | EasyLCD.cpp:72-96 | After "Hello\nWorld" the cells hold "Hello" on row 0 and "World" on row 1. |
| Screen.TwentyAs | EasyLCD.cpp:72-96 | After twenty 'A's the cells hold sixteen on row 0 and four on row 1. |
| Screen.OverwriteExample | EasyLCD.cpp:72-96 | After "Top line!\nabcdefXY" the cells hold "Top line!" on row 0 and "XYcdef" on row 1. |

## Left out

- The I2C probe (`Wire.beginTransmission`/`endTransmission`) is not modelled. Its error byte is a parameter of `EasyLcd.Begin`.
- The driver's real behaviour is not modelled. This covers HD44780 addressing, what happens past the last column or row, and the exact effect of `begin` and `clear` beyond what module `Screen` assumes. Module `Screen` is a stated assumption on an unbounded grid and proves nothing about the real panel.
- Wall-clock time is not modelled. `delayMicroseconds` is a `Delay(us)` value, and blocking is stated only as the sum of those values.
- EasyLcd.Begin: the clause that a successful begin leaves the backlight on rests on an assumption about the driver. It extends the default that EasyLCD.h:27-28 documents ("on by default") to every begin, including one after `noBacklight`. Neither EasyLCD nor its header promises that; `Commands.BacklightAfter` and `Screen.Apply` both build it in.
- EasyLcd.FadeOut: the loop counter is `int` and is compared with a `uint16_t`. On 16-bit AVR, a fade time above 32767 would overflow the counter. The model counts with unbounded integers, so it does not show that overflow.
- EasyLcd.FadeIn: the loop counter at EasyLCD.cpp:119 is also `int` compared with a `uint16_t`, so it overflows the same way for a fade time above 32767. `Fade.FadeIn` and `Fade.InLoop` count with unbounded integers and do not show it.
- EasyLcd.Write: with fade-on-update set, a write runs both fade loops and inherits both overflows for a fade time above 32767. `EasyLcd.WriteDelay` and `EasyLcd.WriteBacklight` state the unbounded behaviour.
- The constructor and destructor (`new`/`delete` of the driver) are not modelled. Neither are the stored address, column count, row count and character size. The wrap index is the source's fixed 16 whatever the column count.
- `getBacklight` is a private pass-through that nothing in the core calls, so it is not modelled.
- Arduino `String` is modelled as `seq<char>`, with no allocation failure or encoding.
- The `started` flag is model state. The C++ class keeps no such flag. The model uses it to state the header's rule that `begin` must come first. Calling other operations before a successful `begin` is outside every member's contract, and `EasyLcd.Session` returns `None` for it.
- With fade-on-update set and a fade time of 0, a write leaves the backlight off, because fadeOut forces it off and an empty fadeIn does not turn it back on. `EasyLcd.WriteBacklight` states this as the code behaves.
