/**
 * The PixelGrid reveal loop. When the effect starts it resets the shown count
 * to 0 and starts an interval; every 50 ms tick bumps a local counter and
 * publishes it as `visiblePixels`. On the first tick whose counter reaches the
 * grid's total the interval is cleared and the completion callback is
 * scheduled 500 ms later. Times are milliseconds after the effect started.
 */
module PixelTicks {
  import opened Grids
  import PixelReveal

  const TickInterval: nat := 50
  const SettleDelay: nat := 500

  /**
   * The state of one reveal run: the closure's counter, the published
   * `visiblePixels`, whether the interval is still live, the times at which a
   * completion callback was scheduled, and how many of those have fired.
   */
  datatype Run = Run(count: nat, visiblePixels: nat, ticking: bool, scheduled: seq<nat>, fired: nat)

  /** The effect's reset: counter and shown count at 0, interval live, nothing scheduled. */
  const Start: Run := Run(0, 0, true, [], 0)

  /** One interval tick for a grid with `total` content cells; a stopped run ignores ticks. */
  function Tick(run: Run, total: nat): Run
  {
    if !run.ticking then run
    else
      var count := run.count + 1;
      if count >= total then
        run.(count := count, visiblePixels := count, ticking := false,
             scheduled := run.scheduled + [TickInterval * count + SettleDelay])
      else
        run.(count := count, visiblePixels := count)
  }

  /** The scheduled completion callback runs. */
  function Fire(run: Run): Run
    requires run.fired < |run.scheduled|
  {
    run.(fired := run.fired + 1)
  }

  /** `n` ticks in a row. */
  function Ticks(run: Run, total: nat, n: nat): Run
    decreases n
  {
    if n == 0 then run else Ticks(Tick(run, total), total, n - 1)
  }

  /** The number of ticks a run takes: the first tick already compares against the total. */
  function TicksNeeded(total: nat): nat
  {
    if total == 0 then 1 else total
  }

  /** The state after exactly `k` ticks of a fresh run, for k up to the number needed. */
  function AfterTicks(total: nat, k: nat): Run
    requires k <= TicksNeeded(total)
  {
    var done := k == TicksNeeded(total);
    Run(k, k, !done, if done then [TickInterval * k + SettleDelay] else [], 0)
  }

  /** Every state a run can be in before its completion has been handled by anyone. */
  ghost predicate Reachable(run: Run, total: nat)
  {
    exists k: nat :: k <= TicksNeeded(total) && run.(fired := 0) == AfterTicks(total, k)
                     && run.fired <= |run.scheduled|
  }

  lemma StartIsAfterZero(total: nat)
    ensures Start == AfterTicks(total, 0)
  {
  }

  /** One tick from k ticks gives k + 1 ticks, as long as the run is still needed. */
  lemma TickStep(total: nat, k: nat)
    requires k < TicksNeeded(total)
    ensures Tick(AfterTicks(total, k), total) == AfterTicks(total, k + 1)
  {
  }

  /** From k ticks, j more ticks lead to k + j ticks, as long as the run is still needed. */
  lemma {:induction false} TicksFrom(total: nat, k: nat, j: nat)
    requires k + j <= TicksNeeded(total)
    ensures Ticks(AfterTicks(total, k), total, j) == AfterTicks(total, k + j)
    decreases j
  {
    if j > 0 {
      TickStep(total, k);
      TicksFrom(total, k + 1, j - 1);
    }
  }

  /**
   * After k ticks of a fresh run (k at most the number needed) the counter and
   * `visiblePixels` are both k; the run is still live exactly when k is below
   * max(total, 1), and then nothing is scheduled yet.
   */
  lemma KthTick(total: nat, k: nat)
    requires k <= TicksNeeded(total)
    ensures Ticks(Start, total, k).visiblePixels == k
    ensures Ticks(Start, total, k).count == k
    ensures Ticks(Start, total, k).ticking <==> k < TicksNeeded(total)
    ensures k < TicksNeeded(total) ==> Ticks(Start, total, k).scheduled == []
  {
    TicksFrom(total, 0, k);
  }

  /** A stopped run ignores every further tick. */
  lemma {:induction false} StoppedStaysStopped(run: Run, total: nat, n: nat)
    requires !run.ticking
    ensures Ticks(run, total, n) == run
  {
    if n > 0 {
      StoppedStaysStopped(run, total, n - 1);
    }
  }

  /**
   * Exactly max(total, 1) ticks run: from then on the run is stopped, shows
   * max(total, 1), and holds a single completion scheduled 500 ms after the
   * last tick.
   */
  lemma TickingStops(total: nat, n: nat)
    requires n >= TicksNeeded(total)
    ensures Ticks(Start, total, n) == AfterTicks(total, TicksNeeded(total))
    ensures !Ticks(Start, total, n).ticking
    ensures Ticks(Start, total, n).scheduled ==
              [TickInterval * TicksNeeded(total) + SettleDelay]
  {
    var m := TicksNeeded(total);
    TicksFrom(total, 0, m);
    TicksSplit(Start, total, m, n - m);
    StoppedStaysStopped(AfterTicks(total, m), total, n - m);
  }

  lemma {:induction false} TicksSplit(run: Run, total: nat, a: nat, b: nat)
    ensures Ticks(run, total, a + b) == Ticks(Ticks(run, total, a), total, b)
    decreases a
  {
    if a > 0 {
      TicksSplit(Tick(run, total), total, a - 1, b);
    }
  }

  /** The number of completions scheduled never exceeds one, and is one exactly when ticking has stopped. */
  lemma AtMostOneCompletion(total: nat, n: nat)
    ensures |Ticks(Start, total, n).scheduled| <= 1
    ensures |Ticks(Start, total, n).scheduled| == 1 <==> !Ticks(Start, total, n).ticking
  {
    if n >= TicksNeeded(total) {
      TickingStops(total, n);
    } else {
      TicksFrom(total, 0, n);
    }
  }

  /** When ticking has stopped, every content cell of the grid is drawn. */
  lemma StoppedShowsEverything(g: Grid, n: nat, r: nat, c: nat)
    requires !Ticks(Start, TotalPixels(g), n).ticking
    requires r < |g| && c < |g[r]|
    ensures PixelReveal.IsVisible(g, r, c, Ticks(Start, TotalPixels(g), n).visiblePixels) <==> g[r][c] != 0
  {
    var total := TotalPixels(g);
    if n < TicksNeeded(total) {
      TicksFrom(total, 0, n);
      assert false;
    }
    TickingStops(total, n);
    PixelReveal.GridFullyRevealed(g, Ticks(Start, total, n).visiblePixels, r, c);
  }

  /**
   * An empty grid still runs one tick, which shows 1, draws nothing, stops the
   * interval and schedules the completion at 550 ms.
   */
  lemma EmptyGridCompletes(g: Grid, r: nat, c: nat)
    requires TotalPixels(g) == 0
    requires r < |g| && c < |g[r]|
    ensures Ticks(Start, 0, 1) == Run(1, 1, false, [550], 0)
    ensures !PixelReveal.IsVisible(g, r, c, 1)
  {
    FlattenCell(g, r, c);
    PrefixCountMonotone(Flatten(g), |Flatten(g[..r])| + c + 1, |Flatten(g)|);
    assert Flatten(g)[..|Flatten(g)|] == Flatten(g);
  }

  /** A tick keeps a reachable run reachable. */
  lemma TickKeepsReachable(run: Run, total: nat)
    requires Reachable(run, total)
    ensures Reachable(Tick(run, total), total)
  {
    var k: nat :| k <= TicksNeeded(total) && run.(fired := 0) == AfterTicks(total, k)
                   && run.fired <= |run.scheduled|;
    if k < TicksNeeded(total) {
      assert run.fired == 0;
      assert Tick(run, total) == AfterTicks(total, k + 1);
    } else {
      assert Tick(run, total) == run;
    }
  }

  /** Firing the completion keeps a run reachable; only one completion can fire per run. */
  lemma FireKeepsReachable(run: Run, total: nat)
    requires Reachable(run, total)
    requires run.fired < |run.scheduled|
    ensures Reachable(Fire(run), total)
    ensures Fire(run).fired == 1 && !Fire(run).ticking
  {
    var k: nat :| k <= TicksNeeded(total) && run.(fired := 0) == AfterTicks(total, k)
                   && run.fired <= |run.scheduled|;
    assert Fire(run).(fired := 0) == run.(fired := 0);
  }

  /** A reachable run whose completion has fired has stopped ticking. */
  lemma FiredMeansStopped(run: Run, total: nat)
    requires Reachable(run, total)
    requires run.fired > 0
    ensures !run.ticking && |run.scheduled| == 1
  {
    var k: nat :| k <= TicksNeeded(total) && run.(fired := 0) == AfterTicks(total, k)
                   && run.fired <= |run.scheduled|;
    assert run.scheduled == AfterTicks(total, k).scheduled;
  }

  /** A reachable run whose completion has fired has drawn every content cell. */
  lemma FiredMeansRevealed(g: Grid, run: Run, r: nat, c: nat)
    requires Reachable(run, TotalPixels(g))
    requires run.fired > 0
    requires r < |g| && c < |g[r]|
    ensures !run.ticking
    ensures PixelReveal.IsVisible(g, r, c, run.visiblePixels) <==> g[r][c] != 0
  {
    PixelReveal.GridFullyRevealed(g, run.visiblePixels, r, c);
  }

  /**
   * Drives a fresh run until the interval clears, as the timer would. Returns
   * the number of ticks and the final run.
   */
  method RunToCompletion(total: nat) returns (ticks: nat, run: Run)
    ensures ticks == if total == 0 then 1 else total
    ensures run.visiblePixels == ticks && !run.ticking
    ensures run.scheduled == [TickInterval * ticks + SettleDelay]
    ensures run.fired == 0
  {
    run := Start;
    ticks := 0;
    while run.ticking
      invariant ticks <= TicksNeeded(total)
      invariant run == AfterTicks(total, ticks)
      decreases TicksNeeded(total) - ticks
    {
      run := Tick(run, total);
      ticks := ticks + 1;
    }
  }
}
