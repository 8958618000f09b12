/**
 * The TypewriterText component. After a start delay (0 when the prop is
 * absent) an interval ticks every 50 ms; tick number i+1 shows the first i+1
 * characters of the text (clamped to its length, as string slicing is), bumps
 * i, and when i equals the text's length clears the interval and calls the
 * completion callback.
 */
module Typewriter {
  import opened Optional

  const TypingInterval: nat := 50

  /**
   * The displayed text, the closure's index, whether the start delay has
   * elapsed, whether the interval is live, and how many completion callbacks
   * have run.
   */
  datatype TypeState = TypeState(displayed: string, i: nat, started: bool, typing: bool, completions: nat)

  /** Nothing is shown before the first tick. */
  const Mounted: TypeState := TypeState("", 0, false, false, 0)

  /** The start delay: the prop when given, 0 otherwise. */
  function StartDelay(delay: Option<nat>): nat
  {
    delay.GetOr(0)
  }

  /** Characters [start, end) of `s`, with both ends clamped into [0, |s|] and swapped when reversed. */
  function Substring(s: string, start: int, end: int): (r: string)
    ensures |r| <= |s|
    ensures start <= 0 <= end ==> r <= s && |r| == Clamp(end, |s|)
  {
    var a := Clamp(start, |s|);
    var b := Clamp(end, |s|);
    if a <= b then s[a..b] else s[b..a]
  }

  function Clamp(x: int, n: nat): (r: nat)
    ensures r <= n
    ensures 0 <= x <= n ==> r == x
  {
    if x < 0 then 0 else if x > n then n else x
  }

  /** The start delay elapsed: the interval starts with i = 0. */
  function Begin(st: TypeState): TypeState
  {
    st.(i := 0, started := true, typing := true)
  }

  /** One interval tick, with the stop test `i == |text|` as written. */
  function Tick(text: string, st: TypeState): TypeState
  {
    if !st.typing then st
    else
      var shown := Substring(text, 0, st.i + 1);
      var i := st.i + 1;
      if i == |text| then st.(displayed := shown, i := i, typing := false, completions := st.completions + 1)
      else st.(displayed := shown, i := i)
  }

  /** One interval tick with the stop test `i >= |text|`, which also ends an empty text. */
  function TickFixed(text: string, st: TypeState): TypeState
  {
    if !st.typing then st
    else
      var shown := Substring(text, 0, st.i + 1);
      var i := st.i + 1;
      if i >= |text| then st.(displayed := shown, i := i, typing := false, completions := st.completions + 1)
      else st.(displayed := shown, i := i)
  }

  function Ticks(text: string, st: TypeState, n: nat): TypeState
    decreases n
  {
    if n == 0 then st else Ticks(text, Tick(text, st), n - 1)
  }

  function TicksFixed(text: string, st: TypeState, n: nat): TypeState
    decreases n
  {
    if n == 0 then st else TicksFixed(text, TickFixed(text, st), n - 1)
  }

  /** The state after k ticks of a non-empty text, for 0 <= k <= |text|. */
  function Typed(text: string, k: nat): TypeState
    requires k <= |text|
  {
    TypeState(text[..k], k, true, k < |text|, if k == |text| then 1 else 0)
  }

  /**
   * Before the start delay elapses the interval does not exist, so ticks change nothing.
   * A corollary of `StoppedIgnoresTicks`: the mounted state is not typing.
   */
  lemma NoTickBeforeStart(text: string, n: nat)
    ensures Ticks(text, Mounted, n) == Mounted
  {
    StoppedIgnoresTicks(text, Mounted, n);
  }

  /** Starting a non-empty text is the state after zero ticks. */
  lemma BeginIsTypedZero(text: string)
    requires |text| > 0
    ensures Begin(Mounted) == Typed(text, 0)
  {
  }

  /** From k typed characters, j more ticks type j more, up to the whole text. */
  lemma {:induction false} TypedFrom(text: string, k: nat, j: nat)
    requires |text| > 0 && k + j <= |text|
    ensures Ticks(text, Typed(text, k), j) == Typed(text, k + j)
    decreases j
  {
    if j > 0 {
      assert Tick(text, Typed(text, k)) == Typed(text, k + 1);
      TypedFrom(text, k + 1, j - 1);
    }
  }

  /**
   * For a non-empty text, after k ticks (k <= |text|) the shown text is the
   * first k characters, the interval is live until k reaches |text|, and the
   * completion callback has run once exactly when k == |text|.
   */
  lemma PrefixAfterTicks(text: string, k: nat)
    requires 0 < |text| && k <= |text|
    ensures Ticks(text, Begin(Mounted), k).displayed == text[..k]
    ensures Ticks(text, Begin(Mounted), k).typing <==> k < |text|
    ensures Ticks(text, Begin(Mounted), k).completions == if k == |text| then 1 else 0
  {
    TypedFrom(text, 0, k);
  }

  /** A stopped typewriter ignores further ticks. */
  lemma {:induction false} StoppedIgnoresTicks(text: string, st: TypeState, n: nat)
    requires !st.typing
    ensures Ticks(text, st, n) == st
  {
    if n > 0 {
      StoppedIgnoresTicks(text, st, n - 1);
    }
  }

  lemma {:induction false} TicksSplit(text: string, st: TypeState, a: nat, b: nat)
    ensures Ticks(text, st, a + b) == Ticks(text, Ticks(text, st, a), b)
    decreases a
  {
    if a > 0 {
      TicksSplit(text, Tick(text, st), a - 1, b);
    }
  }

  /**
   * A non-empty text stops on tick |text| showing the whole text, and the
   * completion callback has run exactly once however many ticks follow.
   */
  lemma NonEmptyCompletesOnce(text: string, n: nat)
    requires 0 < |text| <= n
    ensures Ticks(text, Begin(Mounted), n).displayed == text
    ensures !Ticks(text, Begin(Mounted), n).typing
    ensures Ticks(text, Begin(Mounted), n).completions == 1
  {
    TypedFrom(text, 0, |text|);
    TicksSplit(text, Begin(Mounted), |text|, n - |text|);
    StoppedIgnoresTicks(text, Typed(text, |text|), n - |text|);
    assert text[..|text|] == text;
  }

  /** Every tick keeps the shown text a prefix of the text. */
  lemma {:induction false} AlwaysPrefix(text: string, st: TypeState, n: nat)
    requires st.displayed <= text
    ensures Ticks(text, st, n).displayed <= text
    ensures |Ticks(text, st, n).displayed| <= |text|
    decreases n
  {
    if n > 0 {
      AlwaysPrefix(text, Tick(text, st), n - 1);
    }
  }

  /**
   * As written, an empty text never stops: after n ticks the index is n, which
   * is never 0, the interval is still live and no completion has run.
   */
  lemma {:induction false} EmptyTextNeverCompletes(n: nat)
    ensures Ticks("", Begin(Mounted), n) == TypeState("", n, true, true, 0)
  {
    if n > 0 {
      EmptyTextNeverCompletes(n - 1);
      TicksSplit("", Begin(Mounted), n - 1, 1);
    }
  }

  lemma {:induction false} FixedStoppedIgnoresTicks(text: string, st: TypeState, n: nat)
    requires !st.typing
    ensures TicksFixed(text, st, n) == st
  {
    if n > 0 {
      FixedStoppedIgnoresTicks(text, st, n - 1);
    }
  }

  /** The corrected stop test agrees with the written one on any state whose index is below the length. */
  lemma {:induction false} FixedAgreesOnNonEmpty(text: string, k: nat, n: nat)
    requires 0 < |text| && k <= |text|
    ensures TicksFixed(text, Typed(text, k), n) == Ticks(text, Typed(text, k), n)
    decreases n
  {
    if n > 0 {
      if k < |text| {
        assert TickFixed(text, Typed(text, k)) == Tick(text, Typed(text, k)) == Typed(text, k + 1);
        FixedAgreesOnNonEmpty(text, k + 1, n - 1);
      } else {
        FixedStoppedIgnoresTicks(text, Typed(text, k), n);
        StoppedIgnoresTicks(text, Typed(text, k), n);
      }
    }
  }

  /**
   * With the corrected stop test every text, the empty one included, stops
   * after max(|text|, 1) ticks showing the whole text, with the completion
   * callback run exactly once.
   */
  lemma FixedAlwaysCompletes(text: string, n: nat)
    requires n >= if |text| == 0 then 1 else |text|
    ensures TicksFixed(text, Begin(Mounted), n).displayed == text
    ensures !TicksFixed(text, Begin(Mounted), n).typing
    ensures TicksFixed(text, Begin(Mounted), n).completions == 1
  {
    if |text| == 0 {
      var once := TickFixed(text, Begin(Mounted));
      assert once == TypeState("", 1, true, false, 1);
      FixedStoppedIgnoresTicks(text, once, n - 1);
    } else {
      FixedAgreesOnNonEmpty(text, 0, n);
      NonEmptyCompletesOnce(text, n);
    }
  }

  /**
   * The component `t` milliseconds after mounting: untouched before the start
   * delay, then one tick every 50 ms from the moment the delay elapses.
   */
  function StateAt(text: string, delay: Option<nat>, t: nat): TypeState
  {
    if t < StartDelay(delay) then Mounted
    else Ticks(text, Begin(Mounted), (t - StartDelay(delay)) / TypingInterval)
  }

  /** Until the first tick, 50 ms after the start delay, nothing is shown and nothing has completed. */
  lemma NothingBeforeFirstTick(text: string, delay: Option<nat>, t: nat)
    requires t < StartDelay(delay) + TypingInterval
    ensures StateAt(text, delay, t).displayed == ""
    ensures StateAt(text, delay, t).completions == 0
  {
    if t >= StartDelay(delay) {
      assert (t - StartDelay(delay)) / TypingInterval == 0;
    }
  }

  /**
   * For a non-empty text, at 50·k ms after the start delay (k <= |text|) the
   * first k characters are shown; the callback has run by then exactly when
   * k == |text|. Without a delay prop that moment is 50·k ms after mounting.
   */
  lemma ShownAtTime(text: string, delay: Option<nat>, k: nat)
    requires 0 < |text| && k <= |text|
    ensures StateAt(text, delay, StartDelay(delay) + TypingInterval * k).displayed == text[..k]
    ensures StateAt(text, delay, StartDelay(delay) + TypingInterval * k).completions ==
              if k == |text| then 1 else 0
    ensures delay == None ==> StateAt(text, delay, TypingInterval * k).displayed == text[..k]
  {
    assert (TypingInterval * k) / TypingInterval == k;
    PrefixAfterTicks(text, k);
  }
}
