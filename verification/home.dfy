/**
 * The Home page: a linear sequence of seven scenes. Scenes 0 to 4 each show a
 * typewriter line and a pixel grid; the "next" button appears once the grid's
 * completion callback has set the animation-complete flag. Scene 5 asks the
 * question with a "yes" button, which submits an accepted response and moves
 * on, and a "no" button that only jumps away. Scene 6 is the closing scene and
 * offers no control. Timer ticks, completion callbacks and clicks are the
 * events; the random numbers behind the "no" button are event parameters.
 */
module Home {
  import opened Grids
  import PixelTicks
  import PixelReveal
  import SceneView

  const DecisionScene: nat := 5
  const FinalScene: nat := 6

  /** The offset of the "no" button from its resting place. */
  datatype ButtonOffset = ButtonOffset(x: real, y: real)

  /** The one payload the page hands to the submission hook. */
  datatype Response = Response(accepted: bool)

  /**
   * The page state: current scene, animation-complete flag, "no" button
   * offset, the responses submitted so far, and the reveal run of the pixel
   * grid mounted in the current scene (meaningful in scenes 0 to 4).
   */
  datatype SeqState = SeqState(scene: nat, animationComplete: bool, noButton: ButtonOffset,
                               submitted: seq<Response>, grid: PixelTicks.Run)

  /**
   * A grid interval tick, the grid's delayed completion callback, a click on
   * "next", a click on "yes", and a hover or click on "no" with the two random
   * numbers it draws.
   */
  datatype Event = GridTick | RevealDone | Next | Yes | NoHover(rx: real, ry: real) | NoClick(rx: real, ry: real)

  /** Scene 0, flag down, "no" button at rest, nothing submitted, the first grid freshly started. */
  const Init: SeqState := SeqState(0, false, ButtonOffset(0.0, 0.0), [], PixelTicks.Start)

  /** The grid kind each of the scenes 0 to 4 asks for. */
  function SceneKind(scene: nat): string
    requires scene < DecisionScene
  {
    ["bear", "heart", "tree", "bird", "penguin"][scene]
  }

  function SceneGrid(scene: nat): Grid
    requires scene < DecisionScene
  {
    SelectGrid(SceneKind(scene))
  }

  function SceneTotal(scene: nat): nat
    requires scene < DecisionScene
  {
    TotalPixels(SceneGrid(scene))
  }

  /** Scene 3's "bird" is not a grid of its own: it shows the penguin, like scene 4. */
  lemma BirdSceneShowsPenguin()
    ensures SceneGrid(3) == PenguinGrid && SceneGrid(4) == PenguinGrid
  {
    BirdIsPenguin();
  }

  /** `handleNext`: one scene on, flag lowered. */
  function HandleNext(s: SeqState): SeqState
  {
    s.(scene := s.scene + 1, animationComplete := false)
  }

  /** `handleAnimationComplete`: flag raised. */
  function HandleAnimationComplete(s: SeqState): SeqState
  {
    s.(animationComplete := true)
  }

  /** `handleYesClick` without the fireworks and the toast: submit an accepted response, then `handleNext`. */
  function HandleYes(s: SeqState): SeqState
  {
    HandleNext(s.(submitted := s.submitted + [Response(true)]))
  }

  /** `moveNoButton`: each coordinate is 200 r - 100 for a random r in [0, 1). */
  function MoveNoButton(s: SeqState, rx: real, ry: real): (r: SeqState)
    requires 0.0 <= rx < 1.0 && 0.0 <= ry < 1.0
    ensures -100.0 <= r.noButton.x < 100.0 && -100.0 <= r.noButton.y < 100.0
    ensures r.(noButton := s.noButton) == s
  {
    s.(noButton := ButtonOffset(rx * 200.0 - 100.0, ry * 200.0 - 100.0))
  }

  /** Entering a scene mounts a fresh pixel grid, whose effect starts a new run. */
  function Remount(s: SeqState): SeqState
  {
    s.(grid := PixelTicks.Start)
  }

  /** Whether the event can happen: its timer is live or its control is on screen. */
  predicate Enabled(s: SeqState, e: Event)
  {
    match e
    case GridTick => s.scene < DecisionScene && s.grid.ticking
    case RevealDone => s.scene < DecisionScene && s.grid.fired < |s.grid.scheduled|
    case Next => s.scene < DecisionScene && s.animationComplete
    case Yes => s.scene == DecisionScene
    case NoHover(rx, ry) => s.scene == DecisionScene && 0.0 <= rx < 1.0 && 0.0 <= ry < 1.0
    case NoClick(rx, ry) => s.scene == DecisionScene && 0.0 <= rx < 1.0 && 0.0 <= ry < 1.0
  }

  /** One event; an event that cannot happen leaves the state alone. */
  function Step(s: SeqState, e: Event): SeqState
  {
    if !Enabled(s, e) then s
    else
      match e
      case GridTick => s.(grid := PixelTicks.Tick(s.grid, SceneTotal(s.scene)))
      case RevealDone => HandleAnimationComplete(s.(grid := PixelTicks.Fire(s.grid)))
      case Next => Remount(HandleNext(s))
      case Yes => Remount(HandleYes(s))
      case NoHover(rx, ry) => MoveNoButton(s, rx, ry)
      case NoClick(rx, ry) => MoveNoButton(s, rx, ry)
  }

  /** A sequence of events, first to last. */
  function RunEvents(s: SeqState, es: seq<Event>): SeqState
    decreases |es|
  {
    if |es| == 0 then s else RunEvents(Step(s, es[0]), es[1..])
  }

  /**
   * What holds of every state the page can reach: the scene is at most 6; in
   * scenes 0 to 4 the grid run is a reachable run of that scene's grid and the
   * flag is up exactly when its completion has fired; from scene 5 on the flag
   * is down; exactly one accepted response exists in scene 6 and none before;
   * the "no" button stays within 100 of its resting place.
   */
  ghost predicate Inv(s: SeqState)
  {
    && s.scene <= FinalScene
    && (s.scene < DecisionScene ==> PixelTicks.Reachable(s.grid, SceneTotal(s.scene)))
    && (s.scene < DecisionScene ==> (s.animationComplete <==> s.grid.fired > 0))
    && (s.scene >= DecisionScene ==> !s.animationComplete)
    && s.submitted == (if s.scene == FinalScene then [Response(true)] else [])
    && -100.0 <= s.noButton.x < 100.0 && -100.0 <= s.noButton.y < 100.0
  }

  lemma InitInv()
    ensures Inv(Init)
  {
    PixelTicks.StartIsAfterZero(SceneTotal(0));
  }

  /** Every event keeps the invariant. */
  lemma StepInv(s: SeqState, e: Event)
    requires Inv(s)
    ensures Inv(Step(s, e))
  {
    if Enabled(s, e) {
      match e
      case GridTick =>
        PixelTicks.TickKeepsReachable(s.grid, SceneTotal(s.scene));
      case RevealDone =>
        PixelTicks.FireKeepsReachable(s.grid, SceneTotal(s.scene));
      case Next =>
        if s.scene + 1 < DecisionScene {
          PixelTicks.StartIsAfterZero(SceneTotal(s.scene + 1));
        }
      case Yes =>
      case NoHover(rx, ry) =>
      case NoClick(rx, ry) =>
    }
  }

  lemma {:induction false} RunInv(s: SeqState, es: seq<Event>)
    requires Inv(s)
    ensures Inv(RunEvents(s, es))
    decreases |es|
  {
    if |es| > 0 {
      StepInv(s, es[0]);
      RunInv(Step(s, es[0]), es[1..]);
    }
  }

  /** Every state reached from the start satisfies the invariant. */
  lemma ReachableInv(es: seq<Event>)
    ensures Inv(RunEvents(Init, es))
    ensures RunEvents(Init, es).scene <= FinalScene
    ensures |RunEvents(Init, es).submitted| <= 1
  {
    InitInv();
    RunInv(Init, es);
  }

  /** An event moves the scene on by one or not at all; only "next" and "yes" move it. */
  lemma StepScene(s: SeqState, e: Event)
    ensures Step(s, e).scene == s.scene || Step(s, e).scene == s.scene + 1
    ensures Step(s, e).scene == s.scene + 1 <==> Enabled(s, e) && (e == Next || e == Yes)
  {
  }

  /** The scene index never decreases along any run. */
  lemma {:induction false} SceneNeverDecreases(s: SeqState, es: seq<Event>)
    ensures RunEvents(s, es).scene >= s.scene
    decreases |es|
  {
    if |es| > 0 {
      StepScene(s, es[0]);
      SceneNeverDecreases(Step(s, es[0]), es[1..]);
    }
  }

  /** The grid's completion callback is the only event that raises the flag. */
  lemma OnlyRevealDoneRaisesFlag(s: SeqState, e: Event)
    requires !s.animationComplete && Step(s, e).animationComplete
    ensures e == RevealDone && s.scene < DecisionScene
  {
  }

  /**
   * In scenes 0 to 4 the scene can only move on through "next", once the
   * completion callback has fired and the reveal has stopped.
   */
  lemma AdvanceOnlyByNext(s: SeqState, e: Event)
    requires Inv(s) && s.scene < DecisionScene
    requires Step(s, e).scene != s.scene
    ensures e == Next && s.animationComplete && s.grid.fired > 0 && !s.grid.ticking
  {
    PixelTicks.FiredMeansStopped(s.grid, SceneTotal(s.scene));
  }

  /** When a scene in 0 to 4 moves on, every content cell of its grid is drawn and no other cell is. */
  lemma AdvanceNeedsReveal(s: SeqState, e: Event, r: nat, c: nat)
    requires Inv(s) && s.scene < DecisionScene
    requires Step(s, e).scene != s.scene
    requires r < |SceneGrid(s.scene)| && c < |SceneGrid(s.scene)[r]|
    ensures (PixelReveal.IsVisible(SceneGrid(s.scene), r, c, s.grid.visiblePixels)
             <==> SceneGrid(s.scene)[r][c] != 0)
  {
    AdvanceOnlyByNext(s, e);
    PixelTicks.FiredMeansRevealed(SceneGrid(s.scene), s.grid, r, c);
  }

  /** A scene's completion callback can fire only once. */
  lemma RevealDoneOnce(s: SeqState)
    requires Inv(s) && s.scene < DecisionScene
    requires Enabled(s, RevealDone)
    ensures !Enabled(Step(s, RevealDone), RevealDone)
  {
    PixelTicks.FireKeepsReachable(s.grid, SceneTotal(s.scene));
  }

  /** "Yes" in the decision scene records one accepted response and moves to the final scene. */
  lemma YesSubmitsAndAdvances(s: SeqState)
    requires Inv(s) && s.scene == DecisionScene
    ensures Step(s, Yes).scene == FinalScene
    ensures Step(s, Yes).submitted == s.submitted + [Response(true)]
    ensures |Step(s, Yes).submitted| == 1 && Step(s, Yes).submitted[0].accepted
    ensures Step(s, Yes).noButton == s.noButton
  {
  }

  predicate IsDecline(e: Event)
  {
    e.NoHover? || e.NoClick?
  }

  /**
   * Any number of "no" hovers and clicks in the decision scene leave the scene,
   * the flag and the submissions alone, and keep the button within bounds.
   */
  lemma {:induction false} DeclinesChangeOnlyOffset(s: SeqState, es: seq<Event>)
    requires s.scene == DecisionScene
    requires -100.0 <= s.noButton.x < 100.0 && -100.0 <= s.noButton.y < 100.0
    requires forall i :: 0 <= i < |es| ==> IsDecline(es[i])
    ensures RunEvents(s, es).(noButton := s.noButton) == s
    ensures -100.0 <= RunEvents(s, es).noButton.x < 100.0 && -100.0 <= RunEvents(s, es).noButton.y < 100.0
    decreases |es|
  {
    if |es| > 0 {
      var t := Step(s, es[0]);
      assert t.(noButton := s.noButton) == s;
      DeclinesChangeOnlyOffset(t, es[1..]);
    }
  }

  /** The final scene offers nothing: every event leaves it unchanged. */
  lemma {:induction false} FinalIsTerminal(s: SeqState, es: seq<Event>)
    requires s.scene == FinalScene
    ensures RunEvents(s, es) == s
    decreases |es|
  {
    if |es| > 0 {
      assert Step(s, es[0]) == s;
      FinalIsTerminal(s, es[1..]);
    }
  }

  /** The `isActive` value each scene branch passes to its wrapper, as written: the last one tests scene 4. */
  function BranchIsActive(current: nat, branch: nat): bool
  {
    if branch == FinalScene then current == 4 else current == branch
  }

  /** The intended `isActive` value: the branch's own scene. */
  function BranchIsActiveFixed(current: nat, branch: nat): bool
  {
    current == branch
  }

  /** The scene branches whose guard holds and whose wrapper lets its content through, as written. */
  function Rendered(current: nat): set<nat>
  {
    set b: nat | b <= FinalScene && current == b && SceneView.SceneGate(BranchIsActive(current, b), b).Some?
  }

  /** The same, with the intended `isActive` values. */
  function RenderedFixed(current: nat): set<nat>
  {
    set b: nat | b <= FinalScene && current == b && SceneView.SceneGate(BranchIsActiveFixed(current, b), b).Some?
  }

  /** As written, scenes 0 to 5 show their own content and the final scene shows nothing. */
  lemma RenderedAsWritten(current: nat)
    requires current <= FinalScene
    ensures current < FinalScene ==> Rendered(current) == {current}
    ensures current == FinalScene ==> Rendered(current) == {}
  {
    if current < FinalScene {
      assert current in Rendered(current);
    }
  }

  /** With the intended values every scene shows exactly its own content. */
  lemma RenderedIsCurrentScene(current: nat)
    requires current <= FinalScene
    ensures RenderedFixed(current) == {current}
  {
    assert current in RenderedFixed(current);
  }

  /** `k` copies of one event. */
  function Repeat(e: Event, k: nat): seq<Event>
  {
    seq(k, _ => e)
  }

  lemma {:induction false} RunAppend(s: SeqState, a: seq<Event>, b: seq<Event>)
    ensures RunEvents(s, a + b) == RunEvents(RunEvents(s, a), b)
    decreases |a|
  {
    if |a| == 0 {
      assert a + b == b;
    } else {
      assert (a + b)[1..] == a[1..] + b;
      RunAppend(Step(s, a[0]), a[1..], b);
    }
  }

  /** A single grid tick in scenes 0 to 4 is one tick of the mounted grid's own loop. */
  lemma GridTickStep(s: SeqState, k: nat)
    requires s.scene < DecisionScene
    requires k < PixelTicks.TicksNeeded(SceneTotal(s.scene))
    requires s.grid == PixelTicks.AfterTicks(SceneTotal(s.scene), k)
    ensures Step(s, GridTick) == s.(grid := PixelTicks.AfterTicks(SceneTotal(s.scene), k + 1))
  {
    PixelTicks.TickStep(SceneTotal(s.scene), k);
  }

  /** In scenes 0 to 4, grid ticks drive the run exactly as the grid's own loop does. */
  lemma {:induction false} RunGridTicks(s: SeqState, k: nat, j: nat)
    requires s.scene < DecisionScene
    requires k + j <= PixelTicks.TicksNeeded(SceneTotal(s.scene))
    requires s.grid == PixelTicks.AfterTicks(SceneTotal(s.scene), k)
    ensures RunEvents(s, Repeat(GridTick, j)) == s.(grid := PixelTicks.AfterTicks(SceneTotal(s.scene), k + j))
    decreases j
  {
    if j > 0 {
      var es := Repeat(GridTick, j);
      GridTickStep(s, k);
      var t := s.(grid := PixelTicks.AfterTicks(SceneTotal(s.scene), k + 1));
      assert es[0] == GridTick && es[1..] == Repeat(GridTick, j - 1);
      assert RunEvents(s, es) == RunEvents(t, es[1..]);
      RunGridTicks(t, k + 1, j - 1);
    }
  }

  /** The events that take scene i to scene i + 1: every grid tick, the completion callback, "next". */
  function StagePath(scene: nat): seq<Event>
    requires scene < DecisionScene
  {
    Repeat(GridTick, PixelTicks.TicksNeeded(SceneTotal(scene))) + [RevealDone, Next]
  }

  lemma StageAdvances(s: SeqState)
    requires s.scene < DecisionScene
    requires s.grid == PixelTicks.Start && !s.animationComplete
    ensures RunEvents(s, StagePath(s.scene)) == s.(scene := s.scene + 1)
  {
    var total := SceneTotal(s.scene);
    var n := PixelTicks.TicksNeeded(total);
    PixelTicks.StartIsAfterZero(total);
    RunGridTicks(s, 0, n);
    RunAppend(s, Repeat(GridTick, n), [RevealDone, Next]);
    var t := RunEvents(s, Repeat(GridTick, n));
    assert [RevealDone, Next][1..] == [Next];
    assert RunEvents(t, [RevealDone, Next]) == RunEvents(Step(t, RevealDone), [Next]);
  }

  /** From scene i on: every remaining grid revealed and "next" clicked, then "yes". */
  function PathFrom(scene: nat): seq<Event>
    requires scene <= DecisionScene
    decreases DecisionScene - scene
  {
    if scene == DecisionScene then [Yes] else StagePath(scene) + PathFrom(scene + 1)
  }

  /** The full path through the page, from the first scene. */
  function HappyPath(): seq<Event>
  {
    PathFrom(0)
  }

  lemma {:induction false} PathFromReachesFinal(s: SeqState)
    requires s.scene <= DecisionScene
    requires s.grid == PixelTicks.Start && !s.animationComplete && s.submitted == []
    ensures RunEvents(s, PathFrom(s.scene)) == s.(scene := FinalScene, submitted := [Response(true)])
    decreases DecisionScene - s.scene
  {
    if s.scene == DecisionScene {
      assert RunEvents(s, [Yes]) == RunEvents(Step(s, Yes), []);
    } else {
      StageAdvances(s);
      RunAppend(s, StagePath(s.scene), PathFrom(s.scene + 1));
      PathFromReachesFinal(s.(scene := s.scene + 1));
    }
  }

  /** The happy path ends in the final scene with one accepted response. */
  lemma HappyPathReachesFinal()
    ensures RunEvents(Init, HappyPath()).scene == FinalScene
    ensures RunEvents(Init, HappyPath()).submitted == [Response(true)]
  {
    PathFromReachesFinal(Init);
  }

  /** As written, the page can reach its final scene, and there it renders nothing at all. */
  lemma FinalSceneRendersNothing()
    ensures exists es :: RunEvents(Init, es).scene == FinalScene && Rendered(RunEvents(Init, es).scene) == {}
  {
    HappyPathReachesFinal();
    RenderedAsWritten(FinalScene);
    var es := HappyPath();
    assert RunEvents(Init, es).scene == FinalScene && Rendered(RunEvents(Init, es).scene) == {};
  }

  /** With the intended `isActive` values every reachable state shows its own scene. */
  lemma ReachableShowsCurrentScene(es: seq<Event>)
    ensures RenderedFixed(RunEvents(Init, es).scene) == {RunEvents(Init, es).scene}
  {
    ReachableInv(es);
    RenderedIsCurrentScene(RunEvents(Init, es).scene);
  }
}
