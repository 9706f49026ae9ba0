# Reveal-mask controller and Lottie scroll mapping, modelled in Dafny

This project models the two pieces of logic in the portfolio site that can be
stated apart from the animation and rendering libraries it uses.

**The cursor "flashlight" reveal controller** (`src/app/page.tsx`). The home
page overlays a second copy of its content and shows it only through a mask
that follows the pointer. Four variables captured by the page's effect
(`pointerClientX`, `pointerClientY`, `hasPointerMoved`, `currentHoverTarget`)
are updated by a mouse-move handler, and a scroll listener re-syncs the cursor.
Each event hands target values to the tweening engine for three CSS custom
properties, `--cursor-x`, `--cursor-y` and `--mask-scale`; the first mouse-move
also snaps the cursor and fades the overlay in. Hovering an element that
carries `data-mask-size` (found with `closest`) resizes the mask to that size
over 100.

- `wrappers.dfy`: `Option`, standing for a nullable reference.
- `reveal_mask.dfy` (module `RevealMask`): the controller as a pure state
  machine. `Closest` is the ancestor search, `MaskScaleFor` the size-to-scale
  rule, `Step` the reaction to one event (new state plus the values pushed, in
  order), `Run` a sequence of events. Lemmas state what one event does, and
  `Consistent` is the relation between the state and the whole log of pushes
  that every event preserves.
- `reveal_controller.dfy` (module `RevealController`): the class `Controller`
  with the four variables as fields and the log of pushes as a `seq<Push>`
  field. Its handlers are written step by step like the source and are proved
  to do exactly what `RevealMask.Step` says and to keep `Consistent`.

Element identity is an `ElementId`; an element on the target's
ancestor-or-self path carries its `data-mask-size` value as read during that
event (`None` absent, `Empty` the empty string, `Num(v)` a numeric string).
The hover target is compared by id only, as the source compares references.
The window's scroll offset at the moment an event is handled is a parameter
of the event.

**The scroll-progress mapping of the Lottie section**
(`src/components/LottieScroll.tsx`): the frame count with its fallback of
300, the frame shown at scroll progress `p`, and the overlay's opacity and
scale, which stay at (0, 0.4) until `p = 0.90` and then rise linearly to
(1, 1). Module `LottieScroll` in `lottie_scroll.dfy`, over exact reals.

## Model

| member | source | states |
|---|---|---|
| `RevealMask.Closest` | src/app/page.tsx:77 | the result is absent exactly when no element on the ancestor-or-self path carries `data-mask-size`; otherwise it is the first element on the path that carries it, and none before it does |
| `RevealMask.MaskScaleFor` | src/app/page.tsx:80-87 | no hover target gives scale 1; a missing or empty attribute reads as "100" and gives 1; a numeric size `v` gives the scale `s` with `s * 100 == v` |
| `RevealMask.PageScales` | src/app/page.tsx:81-84 | the sizes the page declares give the declared size over 100: 1200 to 12, 300 to 3, 0 to 0; separately, the fallback of line 82 gives an empty value (declared nowhere on the page) scale 1 |
| `RevealMask.MoveEndsWithCursorTargets` | src/app/page.tsx:60-91 | every mouse-move ends with the two eased cursor targets `clientX + scrollX` and `clientY + scrollY`, records the client coordinates and marks the pointer as moved |
| `RevealMask.FirstMoveReveals` | src/app/page.tsx:65-73 | the first mouse-move begins with the snap to pointer plus scroll, the fade-in and a scale-1 target, in that order |
| `RevealMask.NoRevealAfterFirstMove` | src/app/page.tsx:65-73 | once the pointer has moved, no event snaps or fades in again and the pointer stays moved |
| `RevealMask.MoveRecordsClosest` | src/app/page.tsx:77-79 | after a mouse-move the recorded hover target has the identity of the nearest sized ancestor-or-self, and is absent exactly when no element on the path is sized |
| `RevealMask.SameHoverPushesOnlyCursor` | src/app/page.tsx:78-90 | a later mouse-move whose hover target has the same identity pushes the two cursor targets and nothing else, and keeps the recorded target |
| `RevealMask.HoverChangePushesScale` | src/app/page.tsx:78-88 | when the hover target changes identity it is recorded and one scale is pushed just before the cursor targets: size over 100 for a numeric size, 1 when nothing sized is under the pointer |
| `RevealMask.ScrollOnlyMovesCursor` | src/app/page.tsx:94 | a scroll event leaves the state unchanged and pushes only the cursor targets from the last client coordinates plus the new offset |
| `RevealMask.ScrollBeforeMove` | src/app/page.tsx:50-58 | before any mouse-move, a scroll targets the scroll offset itself, the client coordinates being 0 |
| `RevealMask.CursorTargetsInert` | src/app/page.tsx:55-58 | cursor re-syncs never snap, fade in or change the scale target |
| `RevealMask.FirstMovePushesEffect` | src/app/page.tsx:65-73 | the first-move block pushes one snap, one fade-in and leaves scale 1 as the latest target, and pushes nothing once the pointer has moved |
| `RevealMask.HoverPushesEffect` | src/app/page.tsx:78-88 | the hover block never snaps or fades in; its latest scale target is the new target's scale on a change of identity, and it pushes no scale otherwise |
| `RevealMask.InitialConsistent` | src/app/page.tsx:50-53 | the state at mount, with nothing pushed, satisfies the history invariant |
| `RevealMask.MoveKeepsConsistent` | src/app/page.tsx:60-91 | a mouse-move preserves the history invariant: snap and fade-in counted once exactly when moved, latest scale target equal to the scale of the current hover target |
| `RevealMask.StepKeepsConsistent` | src/app/page.tsx:55-94 | every event, mouse-move or scroll, preserves the history invariant |
| `RevealMask.RunKeepsConsistent` | src/app/page.tsx:50-94 | any sequence of events preserves the history invariant |
| `RevealMask.RunHasMoved` | src/app/page.tsx:65-66 | after a sequence of events the pointer counts as moved exactly when it had moved before or the sequence holds a mouse-move |
| `RevealMask.RevealOnceAndScaleTracksHover` | src/app/page.tsx:50-94 | from mount, the snap and the fade-in each happen once if any mouse-move happened and never otherwise; after the first move the mask's latest scale target is always the scale of the current hover target (1 when none); before it no scale is pushed and nothing is hovered |
| `RevealController.Controller.constructor` | src/app/page.tsx:50-53 | the controller starts at pointer (0, 0), not moved, nothing hovered, nothing pushed, and satisfies the history invariant |
| `RevealController.Controller.SyncCursorPosition` | src/app/page.tsx:55-58 | appends the cursor targets for the recorded client position plus the given scroll offset, changes nothing else, and keeps the invariant (this is also the scroll listener of line 94) |
| `RevealController.Controller.MouseMove` | src/app/page.tsx:60-91 | the new fields and the appended pushes are exactly those of `RevealMask.Step` for the event, and the history invariant is kept |
| `LottieScroll.TotalFrames` | src/components/LottieScroll.tsx:94 | the frame count is never 0: the reported count when it is present and non-zero, otherwise 300 |
| `LottieScroll.FrameBounds` | src/components/LottieScroll.tsx:104 | for progress in [0, 1] the frame lies in [0, totalFrames - 1], is 0 at progress 0 and the last frame at progress 1 |
| `LottieScroll.FrameMonotone` | src/components/LottieScroll.tsx:104 | the frame never decreases as the progress grows |
| `LottieScroll.OverlayAt` | src/components/LottieScroll.tsx:108-115 | scale is always 0.4 + 0.6 times opacity; below 0.90 the overlay is (0, 0.4); on [0.90, 1] opacity lies in [0, 1] and scale in [0.4, 1] |
| `LottieScroll.OverlayEndpoints` | src/components/LottieScroll.tsx:108-115 | at the threshold 0.90 the upper branch gives (0, 0.4), matching the lower branch; at progress 1 it gives (1, 1) |
| `LottieScroll.OverlayMonotone` | src/components/LottieScroll.tsx:108-115 | opacity and scale never decrease as the progress grows |
| `LottieScroll.OverlayContinuous` | src/components/LottieScroll.tsx:108-115 | opacity changes by at most ten times the change in progress and scale by at most six times, so the mapping is continuous everywhere, threshold included |

## Left out

- The tweening itself: `gsap.quickTo`, `gsap.to`, `gsap.set`, their durations and easing curves (`slow(0.1, 0.4, true)`, `power2.out`). Only the target values handed to the engine are modelled, as the `Push` log.
- Smooth scrolling, the ticker wiring and the teardown (src/app/page.tsx:27-29 and 96-100): library lifecycle, not controller logic. Listener removal on unmount is therefore not modelled; the removal at line 98 names a different function than the one added at line 28.
- Non-numeric `data-mask-size` strings: `parseFloat` yields NaN there and the code has no fallback for it, so no value is modelled.
- Fractional pointer and scroll coordinates: coordinates are `int` pixels; browsers may report fractions.
- Floating-point rounding: scales, frames and the overlay use exact `real`; in JavaScript `(1 - 0.90) / 0.10` is not exactly 1.
- ScrollTrigger creation, pinning and scrubbing, loading the Lottie JSON, `goToAndStop` and `play`, and the check that the overlay element is mounted (src/components/LottieScroll.tsx:43-50, 96-142): I/O and calls into libraries. The frame and the overlay values are computed as functions of the progress.
- `LottieScroll.FrameBounds`: stated only for frame counts of at least 1; for a reported count below 1 the last frame is negative.
- `LottieScroll.FrameMonotone`: stated only for frame counts of at least 1; below 1 the frame decreases as the progress grows.
- The rest of the site (3D scene, per-item hover tweens, parallax multiplications, page markup, fullscreen handling): rendering and library calls with no state to model.
