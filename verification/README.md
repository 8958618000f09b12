# Valentin greeting page — a Dafny model of its reveal animations and scene sequencer

The page is a seven-scene animated greeting. Scenes 0 to 4 each type out a line of
text (`TypewriterText`) and draw a pixel-art picture cell by cell (`PixelGrid`);
the "Siguiente" (next) button appears once the picture's completion callback
has fired. Scene 5 asks the question: "yes" submits one accepted response and
moves to scene 6, "no" only jumps to a random nearby position. Scene 6 is the
closing scene.

This project models, as pure functions over immutable datatypes:

- `Grids` (grids.dfy): the five pixel-art grids, the `type` prop that selects one,
  row-major flattening, the content-cell filter and `totalPixels`.
- `PixelReveal` (pixel_reveal.dfy): the per-cell visibility rule of the render
  (a running counter over content cells in row-major order), the render loop
  itself as a method, and what the drawn set looks like for a given count.
- `PixelTicks` (pixel_ticks.dfy): the 50 ms interval that raises `visiblePixels`
  one step per tick and schedules the completion callback 500 ms after the last
  tick, as a step function with iterated-tick lemmas.
- `Typewriter` (typewriter.dfy): the start delay and the prefix-reveal tick loop.
- `SceneView` (scene.dfy): the `Scene` wrapper's visibility gate.
- `Home` (home.dfy): the scene state machine — `handleNext`,
  `handleAnimationComplete`, `handleYesClick`, `moveNoButton`, the per-scene
  gating of the controls, the pixel grid remounted on every scene change, and
  what each scene branch renders.
- `Optional` (option.dfy): an `Option` type for props that may be absent.

Timer ticks, the delayed completion callback and user clicks are discrete
events. `Math.random` is an event parameter in [0, 1), and offsets are exact
reals. The submission hook is reduced to appending a `Response(accepted)` to a log.
Times are whole milliseconds counted from the start of the effect.

Three behaviours of the code worth knowing:

- A grid with no content cells still runs one tick, which sets `visiblePixels` to 1,
  and its completion is scheduled 550 ms after the start.
- The "no" button's offset is never reset when a scene is entered; it simply persists.
- Scene 3 asks for a `"bird"` grid. No branch names that grid, so it falls through
  to the penguin grid.

## Model

| member | source | states |
|---|---|---|
| Grids.UnknownKindIsPenguin | client/src/components/PixelGrid.tsx:86-91 | any `type` other than bear, heart, tree and kitty selects the penguin grid |
| Grids.BirdIsPenguin | client/src/components/PixelGrid.tsx:86-91 | the name "bird" selects the same grid as "penguin" |
| Home.BirdSceneShowsPenguin | client/src/pages/Home.tsx:267 | scene 3 ("bird") draws the penguin grid, the same picture as scene 4 |
| Grids.TotalPixelsCountsContent | client/src/components/PixelGrid.tsx:93-94 | `totalPixels` equals the number of positions of the row-major flattening that hold a non-zero cell, and is at most the cell count |
| Grids.CountIsContentPositions | client/src/components/PixelGrid.tsx:94 | the length of the non-zero filter equals the number of non-zero positions |
| Grids.NonZeroContents | client/src/components/PixelGrid.tsx:94 | the filter's multiset of cells is the input's with every zero removed (each non-zero cell kept as often as it occurs), every kept cell is non-zero, and it is no longer than its input |
| Grids.FlattenCell | client/src/components/PixelGrid.tsx:93 | cell (r, c) lies at offset (cells of rows above) + c of the flattening, and the flattening up to it is the rows above followed by the row up to c |
| PixelReveal.Render | client/src/components/PixelGrid.tsx:156-161 | the render loop draws cell (r, c) exactly when it is non-zero and its 1-based row-major rank among non-zero cells is at most `visiblePixels`; the output has the grid's shape |
| PixelReveal.RenderRow | client/src/components/PixelGrid.tsx:157-161 | one row of the render continues the running counter of the rows above and leaves it at the count of content cells up to the end of that row |
| Grids.OffsetInjective | client/src/components/PixelGrid.tsx:93 | two cells at the same position of the flattening are the same cell |
| Grids.OffsetOnto | client/src/components/PixelGrid.tsx:93 | every position of the flattening is the position of some cell |
| PixelReveal.FlatVisibleIsGridCell | client/src/components/PixelGrid.tsx:156-161 | every drawn position of the flattening is the position of exactly one drawn grid cell, so the count of drawn positions is the count of drawn cells |
| PixelReveal.GridVisibleIsFlatVisible | client/src/components/PixelGrid.tsx:156-161 | the per-cell grid rule agrees with the same rule applied to the cell's position in the flattening |
| PixelReveal.ZeroNeverVisible | client/src/components/PixelGrid.tsx:158-161 | a zero cell is never drawn |
| PixelReveal.VisibleMonotone | client/src/components/PixelGrid.tsx:161 | raising `visiblePixels` never hides a drawn cell |
| PixelReveal.VisibleIsDownwardClosed | client/src/components/PixelGrid.tsx:159-161 | every content cell before a drawn cell is drawn: the drawn cells are the first content cells |
| PixelReveal.VisibleCountIsMin | client/src/components/PixelGrid.tsx:159-161 | exactly min(`visiblePixels`, `totalPixels`) cells are drawn |
| PixelReveal.AllContentVisible | client/src/components/PixelGrid.tsx:161 | once `visiblePixels` reaches the total, the drawn positions are exactly the non-zero positions |
| PixelReveal.GridFullyRevealed | client/src/components/PixelGrid.tsx:161 | once `visiblePixels` reaches the total, a grid cell is drawn if and only if it is non-zero |
| PixelTicks.TickStep | client/src/components/PixelGrid.tsx:129-134 | one tick of a run that is still needed moves it from k to k + 1 ticks |
| PixelTicks.TicksFrom | client/src/components/PixelGrid.tsx:129-134 | from the state after k ticks, j more ticks give the state after k + j ticks, up to max(total, 1) |
| PixelTicks.KthTick | client/src/components/PixelGrid.tsx:126-134 | after the reset, the k-th tick sets counter and `visiblePixels` to k; the interval is live exactly while k < max(total, 1), and nothing is scheduled until then |
| PixelTicks.StoppedStaysStopped | client/src/components/PixelGrid.tsx:134 | once the interval is cleared, further ticks change nothing |
| PixelTicks.TickingStops | client/src/components/PixelGrid.tsx:133-135 | exactly max(total, 1) ticks run; afterwards the run is stopped with one completion scheduled 500 ms after the last tick |
| PixelTicks.AtMostOneCompletion | client/src/components/PixelGrid.tsx:133-135 | at most one completion is ever scheduled, and one is scheduled exactly when ticking has stopped |
| PixelTicks.StoppedShowsEverything | client/src/components/PixelGrid.tsx:133-161 | when ticking stops, a grid cell is drawn if and only if it is non-zero |
| PixelTicks.EmptyGridCompletes | client/src/components/PixelGrid.tsx:128-135 | an empty grid runs one tick showing 1, stops, schedules completion at 550 ms and draws no cell |
| PixelTicks.TickKeepsReachable | client/src/components/PixelGrid.tsx:129-137 | a tick takes a reachable run to a reachable run |
| PixelTicks.FireKeepsReachable | client/src/components/PixelGrid.tsx:135 | the completion fires at most once per run, and only after ticking has stopped |
| PixelTicks.FiredMeansRevealed | client/src/components/PixelGrid.tsx:133-161 | once the completion has fired, ticking has stopped and every content cell is drawn |
| PixelTicks.RunToCompletion | client/src/components/PixelGrid.tsx:124-137 | driving the interval until it clears takes max(total, 1) ticks, ends showing that count, with a single completion scheduled at 50·ticks + 500 ms |
| Typewriter.NothingBeforeFirstTick | client/src/components/TypewriterText.tsx:11-24 | until 50 ms after the start delay (0 when the prop is absent) the shown text is empty and no callback has run |
| Typewriter.ShownAtTime | client/src/components/TypewriterText.tsx:11-24 | for a non-empty text, 50·k ms after the start delay the first k characters are shown, and the callback has run exactly when k equals the length; with no delay prop that moment is 50·k ms after mounting |
| Typewriter.NoTickBeforeStart | client/src/components/TypewriterText.tsx:12-15 | before the start delay elapses the shown text stays empty and nothing completes |
| Typewriter.Substring | client/src/components/TypewriterText.tsx:18 | a slice from 0 is a prefix of the text whose length is the end clamped to the text's length |
| Typewriter.TypedFrom | client/src/components/TypewriterText.tsx:17-19 | from k typed characters, j more ticks type exactly j more, up to the whole text |
| Typewriter.PrefixAfterTicks | client/src/components/TypewriterText.tsx:16-23 | for a non-empty text, after k ≤ length ticks the shown text is the first k characters, and the callback has run once only when k equals the length |
| Typewriter.AlwaysPrefix | client/src/components/TypewriterText.tsx:18 | the shown text is always a prefix of the text, no longer than it |
| Typewriter.StoppedIgnoresTicks | client/src/components/TypewriterText.tsx:21 | once the interval is cleared, further ticks change nothing |
| Typewriter.NonEmptyCompletesOnce | client/src/components/TypewriterText.tsx:20-23 | a non-empty text stops on the tick numbered by its length, showing the whole text, with the callback run exactly once |
| Typewriter.EmptyTextNeverCompletes | client/src/components/TypewriterText.tsx:17-23 | as written, an empty text never stops ticking and never runs the callback |
| Typewriter.FixedAgreesOnNonEmpty | client/src/components/TypewriterText.tsx:20 | the corrected stop test behaves like the written one on every non-empty text |
| Typewriter.FixedAlwaysCompletes | client/src/components/TypewriterText.tsx:17-23 | with the corrected stop test every text, empty included, stops showing the whole text with the callback run exactly once |
| Home.MoveNoButton | client/src/pages/Home.tsx:99-103 | each offset coordinate lies in [-100, 100) and nothing but the offset changes |
| Home.InitInv | client/src/pages/Home.tsx:13-15 | the initial state (scene 0, flag down, offset (0, 0), nothing submitted, fresh grid run) satisfies the page invariant |
| Home.StepInv | client/src/pages/Home.tsx:25-103 | every handler keeps the page invariant |
| Home.ReachableInv | client/src/pages/Home.tsx:13-103 | in every reachable state the scene index is at most 6 and at most one response has been submitted |
| Home.StepScene | client/src/pages/Home.tsx:25-28 | an event moves the scene by exactly one or not at all, and it moves only on an enabled "next" or "yes" |
| Home.SceneNeverDecreases | client/src/pages/Home.tsx:25-28 | the scene index never decreases along any run of events |
| Home.OnlyRevealDoneRaisesFlag | client/src/pages/Home.tsx:30-31 | the grid's completion callback is the only event that raises the animation-complete flag |
| Home.AdvanceOnlyByNext | client/src/pages/Home.tsx:154 | in scenes 0 to 4 the scene moves only through "next" with the flag up, after the grid's completion has fired and its ticking has stopped |
| PixelTicks.FiredMeansStopped | client/src/components/PixelGrid.tsx:133-135 | a run whose completion has fired has stopped ticking and scheduled exactly one completion |
| Home.AdvanceNeedsReveal | client/src/pages/Home.tsx:154 | when a scene in 0 to 4 moves on, a cell of its grid is drawn exactly when it is non-zero |
| Home.RevealDoneOnce | client/src/pages/Home.tsx:150 | a scene's completion callback can be delivered only once |
| Home.YesSubmitsAndAdvances | client/src/pages/Home.tsx:43-45 | "yes" in scene 5 appends exactly one accepted response and moves to scene 6 |
| Home.DeclinesChangeOnlyOffset | client/src/pages/Home.tsx:361-364 | any number of hovers and clicks on "no" in scene 5 change only the offset, which stays within bounds |
| Home.FinalIsTerminal | client/src/pages/Home.tsx:375-401 | scene 6 offers no control: every run of events leaves its state unchanged |
| Home.RenderedAsWritten | client/src/components/Scene.tsx:11 | the wrapper renders only when its `isActive` is true; with the values the page passes (Home.tsx:142-376), scenes 0 to 5 render their own content and scene 6 renders nothing |
| Home.RenderedIsCurrentScene | client/src/pages/Home.tsx:376 | with `isActive` tied to the branch's own scene, every scene renders exactly its own content |
| Home.GridTickStep | client/src/pages/Home.tsx:150 | in scenes 0 to 4 one grid tick of the page is one tick of the mounted grid's loop |
| Home.RunGridTicks | client/src/pages/Home.tsx:150 | in scenes 0 to 4 the page's grid ticks advance the mounted grid exactly as its own loop does |
| Home.StageAdvances | client/src/pages/Home.tsx:150-161 | all of a scene's ticks, its completion callback and "next" take scene i to scene i + 1 with a fresh grid |
| Home.HappyPathReachesFinal | client/src/pages/Home.tsx:141-376 | the path that reveals every grid, clicks every "next" and then "yes" reaches scene 6 with one accepted response |
| Home.FinalSceneRendersNothing | client/src/components/Scene.tsx:11 | some run of events from the start reaches scene 6, whose wrapper gets `isActive` false (Home.tsx:376) and so renders nothing |
| Home.ReachableShowsCurrentScene | client/src/pages/Home.tsx:376 | with the corrected `isActive`, every reachable state renders exactly its current scene |

## Findings

| source | as written | input that shows it | evidently intended | confidence | as-written member | corrected member |
|---|---|---|---|---|---|---|
| client/src/components/TypewriterText.tsx:20 | the interval stops only when the index equals the text length, and the index is already 1 after the first tick | `text = ""`: ticks continue forever and the callback never runs | stop when the index reaches or passes the length, so an empty text completes after one tick | medium (the page never passes an empty text); not executed | Typewriter.EmptyTextNeverCompletes | Typewriter.FixedAlwaysCompletes |
| client/src/pages/Home.tsx:376 | the scene-6 branch passes `isActive={currentScene === 4}` to its wrapper | the happy path (`Home.HappyPath`) reaches scene 6, where the wrapper receives false and returns nothing | `isActive={currentScene === 6}`, so the closing heart shows | high; not executed | Home.FinalSceneRendersNothing | Home.ReachableShowsCurrentScene |

## Left out

- Fireworks and confetti (Home.tsx:33-40, 48-87): cosmetic, driven by wall-clock time and floating-point particle counts.
- The success toast (Home.tsx:92-96) and the submission hook's HTTP request and schema (use-response.ts, shared/schema.ts). Submission is an entry appended to a log, and its result never affects the page.
- The colour map (PixelGrid.tsx:96-121), and the file's syntax as written. The `}` at the start of PixelGrid.tsx:117 closes the component's own body, which leaves the penguin colour branch, the effect and the render (lines 117-189) outside any function, so the file as written does not parse. Every PixelGrid row describes the component with that brace removed. Removing it changes nothing in the grid selection, `totalPixels`, the tick loop or the render. The colour map itself is not modelled: colours do not decide which cells are drawn.
- The floating-heart background, framer-motion animation values and easing: cosmetic.
- Home.ReachableInv: controls of a scene that is animating out are not modelled. The page's exit animation keeps a removed scene on screen for its 0.8 s transition, and during that time its buttons still respond. A second click on "next" would then skip a scene, and a second "yes" would submit again and reach a scene 7 with no branch. The model enables a control only in its own scene, so "scene at most 6, at most one response" holds only under that abstraction.
- Home.FinalIsTerminal: for the same reason, it does not cover clicks on the exiting scene-5 buttons after scene 6 has been entered.
- The mute toggle (Home.tsx:16, 410): it has no audio logic behind it.
- Timer cancellation on unmount. The interval cleanup does not clear the 500 ms timeout, and the typewriter's inner cleanup is discarded. Ticks are modelled as discrete sequential steps within one mounted component, so stale callbacks after a scene change are not modelled.
- The typewriters in scenes 0 to 4 receive no completion callback, so they cannot affect the sequencer. `Home` does not carry their state.
- Home.MoveNoButton: `Math.random` is an exact real in [0, 1). IEEE-754 rounding of `200·r − 100` is not modelled.
- PixelTicks.TickingStops: times count from the start of the effect on an ideal 50 ms clock. Timer drift and clamping are not modelled.
- Typewriter.ShownAtTime: the delay is a natural number of milliseconds on an ideal clock. Negative or fractional delays and timer drift are not modelled.
- Typewriter.NonEmptyCompletesOnce: a character of the model is one Unicode scalar value, while the component's length and slicing count UTF-16 code units. Text with characters outside the Basic Multilingual Plane is not modelled; every text the page passes lies inside it.
- Typewriter.PrefixAfterTicks: same character unit as above, so it does not cover text outside the Basic Multilingual Plane.
