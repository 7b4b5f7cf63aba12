/**
  The software backlight fade of EasyLCD (EasyLCD.cpp, fadeOut and fadeIn).
  Each pass of the loop switches the backlight off for one delay and on for
  another, the two delays always adding up to the configured fade time; the
  duty cycle moves by one microsecond per pass. Delays are recorded as
  values only: no notion of real time is modelled.
 */
module Fade {
  import opened Commands

  /** Pass `i` of the fade-out loop: off for `i` us, on for `fadeTime - i` us. */
  function OutPulse(fadeTime: nat, i: nat): Trace
    requires i < fadeTime
  {
    [NoBacklight, Delay(i), Backlight, Delay(fadeTime - i)]
  }

  /** Pass `i` of the fade-in loop: off for `fadeTime - i` us, on for `i` us. */
  function InPulse(fadeTime: nat, i: nat): Trace
    requires i < fadeTime
  {
    [NoBacklight, Delay(fadeTime - i), Backlight, Delay(i)]
  }

  /** The first `n` passes of the fade-out loop. */
  function OutLoop(fadeTime: nat, n: nat): (t: Trace)
    requires n <= fadeTime
    ensures |t| == 4 * n
    ensures forall k :: 0 <= k < n ==> t[4 * k .. 4 * k + 4] == OutPulse(fadeTime, k)
    decreases n
  {
    if n == 0 then []
    else
      var prev := OutLoop(fadeTime, n - 1);
      var t := prev + OutPulse(fadeTime, n - 1);
      assert forall k :: 0 <= k < n - 1 ==> t[4 * k .. 4 * k + 4] == prev[4 * k .. 4 * k + 4];
      assert t[4 * (n - 1) .. 4 * (n - 1) + 4] == OutPulse(fadeTime, n - 1);
      t
  }

  /** The first `n` passes of the fade-in loop. */
  function InLoop(fadeTime: nat, n: nat): (t: Trace)
    requires n <= fadeTime
    ensures |t| == 4 * n
    ensures forall k :: 0 <= k < n ==> t[4 * k .. 4 * k + 4] == InPulse(fadeTime, k)
    decreases n
  {
    if n == 0 then []
    else
      var prev := InLoop(fadeTime, n - 1);
      var t := prev + InPulse(fadeTime, n - 1);
      assert forall k :: 0 <= k < n - 1 ==> t[4 * k .. 4 * k + 4] == prev[4 * k .. 4 * k + 4];
      assert t[4 * (n - 1) .. 4 * (n - 1) + 4] == InPulse(fadeTime, n - 1);
      t
  }

  /** EasyLCD::fadeOut: `fadeTime` passes, then the backlight is forced off. */
  function FadeOut(fadeTime: nat): (t: Trace)
    ensures |t| == 4 * fadeTime + 1
    ensures forall k :: 0 <= k < fadeTime ==> t[4 * k .. 4 * k + 4] == OutPulse(fadeTime, k)
    ensures t[4 * fadeTime] == NoBacklight
  {
    OutLoop(fadeTime, fadeTime) + [NoBacklight]
  }

  /** EasyLCD::fadeIn: `fadeTime` passes and nothing after them. */
  function FadeIn(fadeTime: nat): (t: Trace)
    ensures |t| == 4 * fadeTime
    ensures forall k :: 0 <= k < fadeTime ==> t[4 * k .. 4 * k + 4] == InPulse(fadeTime, k)
  {
    InLoop(fadeTime, fadeTime)
  }

  /** Every pass of either loop waits exactly `fadeTime` microseconds in all. */
  lemma PulseDelays(fadeTime: nat, i: nat)
    requires i < fadeTime
    ensures DelaySum(OutPulse(fadeTime, i)) == fadeTime
    ensures DelaySum(InPulse(fadeTime, i)) == fadeTime
  {
    QuadDelay(NoBacklight, Delay(i), Backlight, Delay(fadeTime - i));
    QuadDelay(NoBacklight, Delay(fadeTime - i), Backlight, Delay(i));
  }

  lemma QuadDelay(a: Command, b: Command, c: Command, d: Command)
    ensures DelaySum([a, b, c, d]) == DelaySum([a]) + DelaySum([b]) + DelaySum([c]) + DelaySum([d])
  {
    DelaySumAppend([a], [b, c, d]);
    DelaySumAppend([b], [c, d]);
    DelaySumAppend([c], [d]);
    assert [a] + [b, c, d] == [a, b, c, d];
    assert [b] + [c, d] == [b, c, d];
    assert [c] + [d] == [c, d];
  }

  /** Every pass of either loop leaves the backlight on. */
  lemma PulseBacklight(on: bool, fadeTime: nat, i: nat)
    requires i < fadeTime
    ensures BacklightAfter(on, OutPulse(fadeTime, i))
    ensures BacklightAfter(on, InPulse(fadeTime, i))
  {
    var o := OutPulse(fadeTime, i);
    BacklightAfterAppend(on, o[..3], [o[3]]);
    BacklightAfterAppend(on, o[..2], [o[2]]);
    assert o[..3] == o[..2] + [o[2]];
    assert o == o[..3] + [o[3]];
    var p := InPulse(fadeTime, i);
    BacklightAfterAppend(on, p[..3], [p[3]]);
    BacklightAfterAppend(on, p[..2], [p[2]]);
    assert p[..3] == p[..2] + [p[2]];
    assert p == p[..3] + [p[3]];
  }

  lemma {:induction false} OutLoopDelay(fadeTime: nat, n: nat)
    requires n <= fadeTime
    ensures DelaySum(OutLoop(fadeTime, n)) == n * fadeTime
    decreases n
  {
    if n > 0 {
      var prev := OutLoop(fadeTime, n - 1);
      var pulse := OutPulse(fadeTime, n - 1);
      assert OutLoop(fadeTime, n) == prev + pulse;
      OutLoopDelay(fadeTime, n - 1);
      PulseDelays(fadeTime, n - 1);
      DelaySumAppend(prev, pulse);
      MulStep(n, fadeTime);
    }
  }

  lemma {:induction false} InLoopDelay(fadeTime: nat, n: nat)
    requires n <= fadeTime
    ensures DelaySum(InLoop(fadeTime, n)) == n * fadeTime
    decreases n
  {
    if n > 0 {
      var prev := InLoop(fadeTime, n - 1);
      var pulse := InPulse(fadeTime, n - 1);
      assert InLoop(fadeTime, n) == prev + pulse;
      InLoopDelay(fadeTime, n - 1);
      PulseDelays(fadeTime, n - 1);
      DelaySumAppend(prev, pulse);
      MulStep(n, fadeTime);
    }
  }

  lemma MulStep(n: nat, f: nat)
    requires n > 0
    ensures (n - 1) * f + f == n * f
  {
  }

  /** After at least one pass the backlight is on: every pass ends by switching it on. */
  lemma {:induction false} OutLoopBacklight(on: bool, fadeTime: nat, n: nat)
    requires n <= fadeTime
    ensures BacklightAfter(on, OutLoop(fadeTime, n)) == (n > 0 || on)
    decreases n
  {
    if n > 0 {
      var prev := OutLoop(fadeTime, n - 1);
      BacklightAfterAppend(on, prev, OutPulse(fadeTime, n - 1));
      PulseBacklight(BacklightAfter(on, prev), fadeTime, n - 1);
    }
  }

  lemma {:induction false} InLoopBacklight(on: bool, fadeTime: nat, n: nat)
    requires n <= fadeTime
    ensures BacklightAfter(on, InLoop(fadeTime, n)) == (n > 0 || on)
    decreases n
  {
    if n > 0 {
      var prev := InLoop(fadeTime, n - 1);
      BacklightAfterAppend(on, prev, InPulse(fadeTime, n - 1));
      PulseBacklight(BacklightAfter(on, prev), fadeTime, n - 1);
    }
  }

  /** fadeOut blocks for fadeTime * fadeTime microseconds in all. */
  lemma FadeOutDelay(fadeTime: nat)
    ensures DelaySum(FadeOut(fadeTime)) == fadeTime * fadeTime
  {
    OutLoopDelay(fadeTime, fadeTime);
    DelaySumAppend(OutLoop(fadeTime, fadeTime), [NoBacklight]);
  }

  /** fadeOut leaves the backlight off whatever its state before. */
  lemma FadeOutBacklight(on: bool, fadeTime: nat)
    ensures !BacklightAfter(on, FadeOut(fadeTime))
  {
    BacklightAfterAppend(on, OutLoop(fadeTime, fadeTime), [NoBacklight]);
  }

  /** fadeOut touches nothing but the backlight and the clock. */
  lemma FadeOutCommands(fadeTime: nat)
    ensures forall k :: 0 <= k < |FadeOut(fadeTime)| ==> IsFadeCommand(FadeOut(fadeTime)[k])
  {
    var t := FadeOut(fadeTime);
    forall k | 0 <= k < |t|
      ensures IsFadeCommand(t[k])
    {
      if k < 4 * fadeTime {
        var j := k / 4;
        assert t[4 * j .. 4 * j + 4] == OutPulse(fadeTime, j);
        assert t[k] == t[4 * j .. 4 * j + 4][k - 4 * j];
      }
    }
  }

  /**
    fadeOut runs `fadeTime` passes of [off, wait i, on, wait fadeTime - i],
    ends with the backlight switched off whatever its state before, and
    blocks for fadeTime * fadeTime microseconds in all.
   */
  lemma FadeOutShape(on: bool, fadeTime: nat)
    ensures |FadeOut(fadeTime)| == 4 * fadeTime + 1
    ensures forall k :: 0 <= k < fadeTime ==>
              FadeOut(fadeTime)[4 * k .. 4 * k + 4]
                == [NoBacklight, Delay(k), Backlight, Delay(fadeTime - k)]
    ensures FadeOut(fadeTime)[4 * fadeTime] == NoBacklight
    ensures DelaySum(FadeOut(fadeTime)) == fadeTime * fadeTime
    ensures !BacklightAfter(on, FadeOut(fadeTime))
    ensures forall k :: 0 <= k < |FadeOut(fadeTime)| ==> IsFadeCommand(FadeOut(fadeTime)[k])
  {
    var loop := OutLoop(fadeTime, fadeTime);
    var t := FadeOut(fadeTime);
    forall k | 0 <= k < fadeTime
      ensures t[4 * k .. 4 * k + 4] == [NoBacklight, Delay(k), Backlight, Delay(fadeTime - k)]
    {
      assert t[4 * k .. 4 * k + 4] == loop[4 * k .. 4 * k + 4] == OutPulse(fadeTime, k);
    }
    FadeOutDelay(fadeTime);
    FadeOutBacklight(on, fadeTime);
    FadeOutCommands(fadeTime);
  }

  /** fadeIn blocks for fadeTime * fadeTime microseconds in all. */
  lemma FadeInDelay(fadeTime: nat)
    ensures DelaySum(FadeIn(fadeTime)) == fadeTime * fadeTime
  {
    InLoopDelay(fadeTime, fadeTime);
  }

  /** fadeIn leaves the backlight on after at least one pass, untouched otherwise. */
  lemma FadeInBacklight(on: bool, fadeTime: nat)
    ensures BacklightAfter(on, FadeIn(fadeTime)) == (fadeTime > 0 || on)
  {
    InLoopBacklight(on, fadeTime, fadeTime);
  }

  /** fadeIn touches nothing but the backlight and the clock. */
  lemma FadeInCommands(fadeTime: nat)
    ensures forall k :: 0 <= k < |FadeIn(fadeTime)| ==> IsFadeCommand(FadeIn(fadeTime)[k])
  {
    var t := FadeIn(fadeTime);
    forall k | 0 <= k < |t|
      ensures IsFadeCommand(t[k])
    {
      var j := k / 4;
      assert t[4 * j .. 4 * j + 4] == InPulse(fadeTime, j);
      assert t[k] == t[4 * j .. 4 * j + 4][k - 4 * j];
    }
  }

  /**
    fadeIn runs `fadeTime` passes of [off, wait fadeTime - i, on, wait i] and
    forces nothing afterwards: with a fade time of 0 it emits nothing and the
    backlight keeps its state, otherwise the backlight ends up on.
   */
  lemma FadeInShape(on: bool, fadeTime: nat)
    ensures |FadeIn(fadeTime)| == 4 * fadeTime
    ensures forall k :: 0 <= k < fadeTime ==>
              FadeIn(fadeTime)[4 * k .. 4 * k + 4]
                == [NoBacklight, Delay(fadeTime - k), Backlight, Delay(k)]
    ensures DelaySum(FadeIn(fadeTime)) == fadeTime * fadeTime
    ensures BacklightAfter(on, FadeIn(fadeTime)) == (fadeTime > 0 || on)
    ensures fadeTime > 0 ==> FadeIn(fadeTime)[4 * fadeTime - 2] == Backlight
    ensures forall k :: 0 <= k < |FadeIn(fadeTime)| ==> IsFadeCommand(FadeIn(fadeTime)[k])
  {
    var t := FadeIn(fadeTime);
    forall k | 0 <= k < fadeTime
      ensures t[4 * k .. 4 * k + 4] == [NoBacklight, Delay(fadeTime - k), Backlight, Delay(k)]
    {
      assert t[4 * k .. 4 * k + 4] == InPulse(fadeTime, k);
    }
    FadeInDelay(fadeTime);
    FadeInBacklight(on, fadeTime);
    if fadeTime > 0 {
      var j := fadeTime - 1;
      assert t[4 * j .. 4 * j + 4] == InPulse(fadeTime, j);
      assert t[4 * fadeTime - 2] == t[4 * j .. 4 * j + 4][2];
    }
    FadeInCommands(fadeTime);
  }

  /**
    The off-phase grows by one microsecond per pass during a fade-out and
    shrinks by one per pass during a fade-in; pass `i` of the fade-in waits
    in the dark exactly as long as pass `fadeTime - i` of the fade-out would.
   */
  lemma DutyCycleMirror(fadeTime: nat, i: nat)
    requires 0 < i < fadeTime
    ensures OutPulse(fadeTime, i)[1].us == OutPulse(fadeTime, i - 1)[1].us + 1
    ensures InPulse(fadeTime, i)[1].us + 1 == InPulse(fadeTime, i - 1)[1].us
    ensures InPulse(fadeTime, i) == OutPulse(fadeTime, fadeTime - i)
  {
  }

  /** The loop of EasyLCD::fadeOut, step by step; its delays add up pass by pass. */
  method RunFadeOut(fadeTime: nat) returns (t: Trace)
    ensures t == FadeOut(fadeTime)
    ensures DelaySum(t) == fadeTime * fadeTime
  {
    t := [];
    var i := 0;
    while i < fadeTime
      invariant 0 <= i <= fadeTime
      invariant t == OutLoop(fadeTime, i)
      invariant DelaySum(t) == i * fadeTime
    {
      var pulse := OutPulse(fadeTime, i);
      assert DelaySum(t + pulse) == (i + 1) * fadeTime by {
        DelaySumAppend(t, pulse);
        PulseDelays(fadeTime, i);
        MulStep(i + 1, fadeTime);
      }
      assert t + pulse == OutLoop(fadeTime, i + 1);
      t := t + pulse;
      i := i + 1;
    }
    assert DelaySum(t + [NoBacklight]) == DelaySum(t) by {
      DelaySumAppend(t, [NoBacklight]);
    }
    t := t + [NoBacklight];
  }
}
