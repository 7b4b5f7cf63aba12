/**
  The line-wrap loop of EasyLCD::write (EasyLCD.cpp), as written.

  The loop walks the string by index. Before handling index i it moves the
  cursor to column 0 of row 1 when `(i==16 & !secondLine) | ch=='\n'` holds,
  and it writes every character that is not a newline. Three details of the
  code are kept exactly:
  - `&` and `|` are the bitwise operators, applied to 0/1 values;
  - `secondLine` is initialised to false and never assigned again, so the
    guard against a second wrap never switches on;
  - the 16 is compared with the input index, not with the current column,
    and is fixed whatever column count the controller was built with.
 */
module Wrap {
  import opened Commands

  /** The index at which the loop wraps, hard-coded in the source. */
  const WrapIndex: nat := 16

  /** The cursor move emitted by a wrap: column 0, row 1. */
  const ToRow1: Command := SetCursor(0, 1)

  /** A C++ `bool` promoted to the integer 0 or 1. */
  function Bit(b: bool): bv1 {
    if b then 1 else 0
  }

  /**
    The wrap condition of the loop with C++'s bitwise `&` and `|`. On 0/1
    values they agree with the logical operators.
   */
  function WrapGuard(i: nat, secondLine: bool, ch: char): (fires: bool)
    ensures fires <==> (i == WrapIndex && !secondLine) || ch == '\n'
  {
    ((Bit(i == WrapIndex) & Bit(!secondLine)) | Bit(ch == '\n')) == 1
  }

  /** The commands the loop emits while handling character `ch` at index `i`. */
  function StepAt(i: nat, ch: char): (t: Trace)
    ensures |t| == (if i == WrapIndex || ch == '\n' then 1 else 0) + (if ch != '\n' then 1 else 0)
    ensures t[0] == ToRow1 <==> i == WrapIndex || ch == '\n'
    ensures t[|t| - 1] == WriteChar(ch) <==> ch != '\n'
    ensures forall k :: 0 <= k < |t| ==> t[k] == ToRow1 || t[k] == WriteChar(ch)
  {
    // secondLine is still false here: nothing in the loop assigns it
    (if WrapGuard(i, false, ch) then [ToRow1] else [])
    + (if ch != '\n' then [WriteChar(ch)] else [])
  }

  /** A trace made of row-1 cursor moves and writes of non-newline characters only. */
  predicate MovesAndText(t: Trace) {
    forall k :: 0 <= k < |t| ==> t[k] == ToRow1 || (t[k].WriteChar? && t[k].ch != '\n')
  }

  /**
    The commands the loop emits for the whole of `s`, in index order: the
    loop over `s` is the loop over all but its last character followed by
    the handling of that character.
   */
  function Body(s: string): (t: Trace)
    ensures |t| <= 2 * |s|
    ensures MovesAndText(t)
    decreases |s|
  {
    if |s| == 0 then []
    else Body(s[..|s| - 1]) + StepAt(|s| - 1, s[|s| - 1])
  }

  /** Position in Body(s) at which the handling of index `i` begins. */
  function Start(s: string, i: nat): nat
    requires i <= |s|
  {
    |Body(s[..i])|
  }

  /** The set of indices before which the loop moves the cursor to row 1. */
  function WrapPoints(s: string): set<nat> {
    set i: nat | i < |s| && (i == WrapIndex || s[i] == '\n')
  }

  lemma BodyExtend(s: string, i: nat)
    requires i < |s|
    ensures Body(s[..i + 1]) == Body(s[..i]) + StepAt(i, s[i])
  {
    assert s[..i + 1][..i] == s[..i];
  }

  /** Handling a prefix of the input emits a prefix of the trace. */
  lemma {:induction false} BodyPrefix(s: string, i: nat)
    requires i <= |s|
    ensures Body(s[..i]) <= Body(s)
    decreases |s| - i
  {
    if i == |s| {
      assert s[..i] == s;
    } else {
      BodyPrefix(s, i + 1);
      BodyExtend(s, i);
    }
  }

  /**
    Body(s) is the blocks StepAt(i, s[i]) laid end to end: the block for
    index i starts right after the block for index i - 1 and begins with the
    cursor move to row 1 exactly when i == 16 or s[i] is a newline. A
    newline at index 16 therefore yields a single cursor move.
   */
  lemma BlockAt(s: string, i: nat)
    requires i < |s|
    ensures Start(s, i) < Start(s, i + 1) <= Start(s, i) + 2
    ensures Start(s, i + 1) <= |Body(s)|
    ensures Body(s)[Start(s, i) .. Start(s, i + 1)] == StepAt(i, s[i])
    ensures Body(s)[Start(s, i)] == ToRow1 <==> i == WrapIndex || s[i] == '\n'
  {
    var before := Body(s[..i]);
    var step := StepAt(i, s[i]);
    var body := Body(s);
    assert Body(s[..i + 1]) == before + step by {
      BodyExtend(s, i);
    }
    assert before + step <= body by {
      BodyPrefix(s, i + 1);
    }
    assert body[|before| .. |before| + |step|] == step by {
      InfixOfPrefix(before, step, body);
    }
    assert Start(s, i) == |before|;
    assert Start(s, i + 1) == |before| + |step|;
    assert body[|before|] == step[0];
  }

  /** If a + b is a prefix of c, then b sits in c right after a. */
  lemma InfixOfPrefix<T>(a: seq<T>, b: seq<T>, c: seq<T>)
    requires a + b <= c
    ensures c[|a| .. |a| + |b|] == b
  {
    assert c[|a| .. |a| + |b|] == (a + b)[|a| ..];
  }

  /** Handling one character writes it unless it is a newline. */
  lemma StepChars(i: nat, ch: char)
    ensures Chars(StepAt(i, ch)) == Strip([ch])
  {
    var t := StepAt(i, ch);
    assert [ch][1..] == [];
    if ch == '\n' {
      assert t == [ToRow1];
      assert t[1..] == [];
    } else if |t| == 1 {
      assert t == [WriteChar(ch)];
      assert t[1..] == [];
    } else {
      assert t == [ToRow1, WriteChar(ch)];
      assert t[1..] == [WriteChar(ch)];
      assert t[1..][1..] == [];
      assert Chars(t[1..]) == [ch] + Chars([]);
      assert Strip([ch]) == [ch] + Strip([]);
    }
  }

  /** The written characters are the input with its newlines removed, in order. */
  lemma {:induction false} BodyChars(s: string)
    ensures Chars(Body(s)) == Strip(s)
    decreases |s|
  {
    if |s| > 0 {
      var n := |s| - 1;
      var init := s[..n];
      var ch := s[n];
      calc {
        Chars(Body(s));
        Chars(Body(init) + StepAt(n, ch));
        { CharsAppend(Body(init), StepAt(n, ch)); }
        Chars(Body(init)) + Chars(StepAt(n, ch));
        { BodyChars(init); StepChars(n, ch); }
        Strip(init) + Strip([ch]);
        { StripAppend(init, [ch]); assert init + [ch] == s; }
        Strip(s);
      }
    }
  }

  lemma StepRow1Count(i: nat, ch: char)
    ensures multiset(StepAt(i, ch))[ToRow1] == if i == WrapIndex || ch == '\n' then 1 else 0
  {
    var t := StepAt(i, ch);
    if |t| == 1 {
      assert t == [t[0]];
    } else {
      assert t == [t[0], t[1]];
    }
  }

  lemma WrapPointsExtend(s: string)
    requires |s| > 0
    ensures |WrapPoints(s)| == |WrapPoints(s[..|s| - 1])|
              + if |s| - 1 == WrapIndex || s[|s| - 1] == '\n' then 1 else 0
  {
    var n := |s| - 1;
    var init := s[..n];
    var all := WrapPoints(s);
    var prev := WrapPoints(init);
    if n == WrapIndex || s[n] == '\n' {
      assert all == prev + {n} by {
        forall x: nat
          ensures x in all <==> x in prev + {n}
        {
          if x < n {
            assert init[x] == s[x];
          }
        }
      }
      assert n !in prev;
    } else {
      assert all == prev by {
        forall x: nat
          ensures x in all <==> x in prev
        {
          if x < n {
            assert init[x] == s[x];
          }
        }
      }
    }
  }

  /** One cursor move to row 1 per wrap point, and no other. */
  lemma {:induction false} WrapCount(s: string)
    ensures multiset(Body(s))[ToRow1] == |WrapPoints(s)|
    decreases |s|
  {
    if |s| > 0 {
      var n := |s| - 1;
      var init := Body(s[..n]);
      var step := StepAt(n, s[n]);
      assert multiset(Body(s))[ToRow1] == multiset(init)[ToRow1] + multiset(step)[ToRow1] by {
        assert Body(s) == init + step;
        assert multiset(init + step) == multiset(init) + multiset(step);
      }
      WrapCount(s[..n]);
      StepRow1Count(n, s[n]);
      WrapPointsExtend(s);
    }
  }

  /** Between two wrap points the loop emits the characters alone. */
  lemma {:induction false} BodyQuiet(s: string, a: nat, b: nat)
    requires a <= b <= |s|
    requires !(a <= WrapIndex < b)
    requires forall i :: a <= i < b ==> s[i] != '\n'
    ensures Body(s[..b]) == Body(s[..a]) + Echo(s[a..b])
    decreases b - a
  {
    if a < b {
      var n := b - 1;
      BodyQuiet(s, a, n);
      QuietStep(s, n);
      EchoSliceSnoc(s, a, b);
      Glue(Body(s[..b]), Body(s[..n]), Body(s[..a]), Echo(s[a..n]), Echo(s[a..b]), WriteChar(s[n]));
    } else {
      assert Echo(s[a..b]) == [];
    }
  }

  lemma Glue(whole: Trace, init: Trace, head: Trace, mid: Trace, tail: Trace, last: Command)
    requires whole == init + [last] && init == head + mid && tail == mid + [last]
    ensures whole == head + tail
  {
    Assoc3(head, mid, [last]);
  }

  /** A character that is neither a newline nor at index 16 is only written. */
  lemma QuietStep(s: string, n: nat)
    requires n < |s| && n != WrapIndex && s[n] != '\n'
    ensures Body(s[..n + 1]) == Body(s[..n]) + [WriteChar(s[n])]
  {
    BodyExtend(s, n);
    assert StepAt(n, s[n]) == [WriteChar(s[n])];
  }

  lemma EchoSliceSnoc(s: string, a: nat, b: nat)
    requires a < b <= |s|
    ensures Echo(s[a..b]) == Echo(s[a..b - 1]) + [WriteChar(s[b - 1])]
  {
    EchoSnoc(s[a..b]);
    assert s[a..b][..b - 1 - a] == s[a..b - 1];
  }

  lemma EchoHasNoCursor(w: string)
    ensures multiset(Echo(w))[ToRow1] == 0
  {
    assert ToRow1 !in Echo(w);
  }

  /** No character before the first wrap point: the body is the characters alone. */
  lemma QuietPrefix(s: string, b: nat)
    requires b <= |s| && b <= WrapIndex
    requires '\n' !in s[..b]
    ensures Body(s[..b]) == Echo(s[..b])
  {
    forall i | 0 <= i < b
      ensures s[i] != '\n'
    {
      assert s[..b][i] == s[i];
    }
    BodyQuiet(s, 0, b);
    assert s[..0] == [];
    assert s[0..b] == s[..b];
  }

  /**
    A wrap point at index a followed by characters only up to b: one cursor
    move to row 1, then the characters from a on, the newline at a excepted.
   */
  lemma WrapThenQuiet(s: string, a: nat, b: nat)
    requires a < b <= |s|
    requires a == WrapIndex || s[a] == '\n'
    requires !(a < WrapIndex < b)
    requires forall i :: a < i < b ==> s[i] != '\n'
    ensures Body(s[..b]) == Body(s[..a]) + [ToRow1] + Echo(if s[a] == '\n' then s[a + 1..b] else s[a..b])
  {
    BodyExtend(s, a);
    BodyQuiet(s, a + 1, b);
    if s[a] != '\n' {
      assert StepAt(a, s[a]) == [ToRow1, WriteChar(s[a])];
      EchoSplit(s[a..b], 1);
      assert s[a..b][..1] == [s[a]];
      assert s[a..b][1..] == s[a + 1..b];
    } else {
      assert StepAt(a, s[a]) == [ToRow1];
    }
  }

  /** Text without newlines that fits on one line is written on row 0 alone. */
  lemma ShortLine(s: string)
    requires '\n' !in s
    requires |s| <= WrapIndex
    ensures Body(s) == Echo(s)
    ensures ToRow1 !in Body(s)
  {
    assert s[..|s|] == s;
    QuietPrefix(s, |s|);
  }

  /**
    Text without newlines that is longer than 16 characters wraps exactly
    once: the first 16 characters are written, then the cursor moves to
    row 1, then the rest are written.
   */
  lemma LongLine(s: string)
    requires '\n' !in s
    requires |s| > WrapIndex
    ensures Body(s) == Echo(s[..WrapIndex]) + [ToRow1] + Echo(s[WrapIndex..])
    ensures multiset(Body(s))[ToRow1] == 1
  {
    assert '\n' !in s[..WrapIndex];
    QuietPrefix(s, WrapIndex);
    WrapThenQuiet(s, WrapIndex, |s|);
    assert s[..|s|] == s;
    assert s[WrapIndex..|s|] == s[WrapIndex..];
    EchoHasNoCursor(s[..WrapIndex]);
    EchoHasNoCursor(s[WrapIndex..]);
  }

  /**
    One newline at index k, and nothing past index 15: the text before it
    goes on row 0 and the text after it on row 1.
   */
  lemma OneNewlineShort(s: string, k: nat)
    requires k < |s| <= WrapIndex
    requires s[k] == '\n'
    requires '\n' !in s[..k] && '\n' !in s[k + 1..]
    ensures Body(s) == Echo(s[..k]) + [ToRow1] + Echo(s[k + 1..])
  {
    QuietPrefix(s, k);
    forall i | k < i < |s|
      ensures s[i] != '\n'
    {
      assert s[k + 1..][i - k - 1] == s[i];
    }
    WrapThenQuiet(s, k, |s|);
    assert s[..|s|] == s;
    assert s[k + 1..|s|] == s[k + 1..];
  }

  /**
    The dead second-line guard: after a newline at index k < 16 has moved
    the cursor to row 1, index 16 moves it to column 0 of row 1 again, so
    the rest of the text is written over what follows the newline.
   */
  lemma OneNewlineLong(s: string, k: nat)
    requires k < WrapIndex < |s|
    requires s[k] == '\n'
    requires '\n' !in s[..k] && '\n' !in s[k + 1..]
    ensures Body(s) == Echo(s[..k]) + [ToRow1] + Echo(s[k + 1..WrapIndex])
                       + [ToRow1] + Echo(s[WrapIndex..])
    ensures multiset(Body(s))[ToRow1] == 2
  {
    QuietPrefix(s, k);
    forall i | k < i < |s|
      ensures s[i] != '\n'
    {
      assert s[k + 1..][i - k - 1] == s[i];
    }
    WrapThenQuiet(s, k, WrapIndex);
    WrapThenQuiet(s, WrapIndex, |s|);
    assert s[..|s|] == s;
    assert s[WrapIndex..|s|] == s[WrapIndex..];
    EchoHasNoCursor(s[..k]);
    EchoHasNoCursor(s[k + 1..WrapIndex]);
    EchoHasNoCursor(s[WrapIndex..]);
  }

  /**
    The index-16 wrap fires whatever came before it: an earlier newline
    does not suppress it, so such an input moves to row 1 at least twice.
   */
  lemma WrapAfterNewline(s: string, k: nat)
    requires k < WrapIndex < |s|
    requires s[k] == '\n'
    ensures Start(s, WrapIndex) < |Body(s)| && Body(s)[Start(s, WrapIndex)] == ToRow1
    ensures multiset(Body(s))[ToRow1] >= 2
  {
    BlockAt(s, WrapIndex);
    WrapCount(s);
    TwoWrapPoints(s, k);
  }

  lemma TwoWrapPoints(s: string, k: nat)
    requires k < WrapIndex < |s|
    requires s[k] == '\n'
    ensures |WrapPoints(s)| >= 2
  {
    var w := WrapPoints(s);
    assert k in w;
    assert WrapIndex in w;
    SubsetCard({k, WrapIndex}, w);
  }

  lemma SubsetCard(a: set<nat>, b: set<nat>)
    requires a <= b
    ensures |a| <= |b|
  {
    assert b == a + (b - a);
  }

  /** The loop of EasyLCD::write as a method, in the order the source runs it. */
  method RunBody(s: string) returns (t: Trace)
    ensures t == Body(s)
    ensures Chars(t) == Strip(s)
  {
    t := [];
    var secondLine := false;
    var i := 0;
    while i < |s|
      invariant 0 <= i <= |s|
      invariant !secondLine
      invariant t == Body(s[..i])
    {
      if (Bit(i == WrapIndex) & Bit(!secondLine)) | Bit(s[i] == '\n') == 1 {
        t := t + [ToRow1];
      }
      if s[i] != '\n' {
        t := t + [WriteChar(s[i])];
      }
      BodyExtend(s, i);
      i := i + 1;
    }
    assert s[..i] == s;
    BodyChars(s);
  }
}
