/**
 * The cursor "flashlight" reveal controller of the home page (src/app/page.tsx),
 * stated as a pure state machine.
 *
 * The controller keeps four pieces of state: the last pointer client
 * coordinates, whether the pointer has moved yet, and the element currently
 * hovered for sizing. Each mouse-move or scroll event hands a few target values
 * to an external tweening engine; the model records those hand-overs as a
 * sequence of `Push` values and leaves the easing itself out.
 *
 * The class `RevealController.Controller` is the imperative counterpart of
 * `Step`; this module holds the specification and what is proved about it.
 */
module RevealMask {
  import opened Wrappers

  /** Identity of a DOM element: two element references are the same object exactly when their ids are equal. */
  type ElementId = nat

  /** The value of a present `data-mask-size` attribute: the empty string, or a string that parses to a number. */
  datatype SizeAttr = Empty | Num(size: real)

  /**
   * One element on the event target's ancestor-or-self path, with its
   * `data-mask-size` attribute as read during that event (`None` when absent).
   */
  datatype Element = Element(id: ElementId, maskSize: Option<SizeAttr>)

  /** A value handed to the animation engine. */
  datatype Push =
    | SnapCursor(x: int, y: int)  // `--cursor-x`/`--cursor-y` set at once, without easing
    | FadeIn                      // the overlay's opacity tweened to 1
    | CursorX(x: int)             // eased target for `--cursor-x`
    | CursorY(y: int)             // eased target for `--cursor-y`
    | MaskScale(scale: real)      // eased target for `--mask-scale`

  /** The attribute value that stands for "no resize": a declared size of 100 gives scale 1. */
  const BaseMaskSize: real := 100.0

  // ---------------------------------------------------------------------------
  // Finding the hover target: `target.closest("[data-mask-size]")`
  // ---------------------------------------------------------------------------

  /** Position `i` holds the first element of `chain` that carries the attribute. */
  ghost predicate IsClosest(chain: seq<Element>, i: int)
  {
    0 <= i < |chain| && chain[i].maskSize.Some? &&
    forall j :: 0 <= j < i ==> chain[j].maskSize.None?
  }

  /**
   * The nearest ancestor-or-self of the event target carrying `data-mask-size`,
   * where `chain` lists the target first and then its ancestors outward.
   */
  function Closest(chain: seq<Element>): (r: Option<Element>)
    ensures r.None? <==> forall j :: 0 <= j < |chain| ==> chain[j].maskSize.None?
    ensures r.Some? ==> exists i :: IsClosest(chain, i) && chain[i] == r.value
  {
    if |chain| == 0 then None
    else if chain[0].maskSize.Some? then
      assert IsClosest(chain, 0);
      Some(chain[0])
    else
      assert forall i :: IsClosest(chain[1..], i) ==> IsClosest(chain, i + 1);
      Closest(chain[1..])
  }

  // ---------------------------------------------------------------------------
  // The mask scale: `parseFloat(getAttribute("data-mask-size") || "100") / 100`
  // ---------------------------------------------------------------------------

  /** The declared size: a missing or empty attribute reads as "100". */
  function DeclaredSize(attr: Option<SizeAttr>): real
  {
    match attr
    case None => BaseMaskSize
    case Some(Empty) => BaseMaskSize
    case Some(Num(v)) => v
  }

  /** The scale target for a hover target; no hover target means scale 1. */
  function MaskScaleFor(hover: Option<Element>): (s: real)
    ensures hover.None? ==> s == 1.0
    ensures hover.Some? && hover.value.maskSize in {None, Some(Empty)} ==> s == 1.0
    ensures hover.Some? && hover.value.maskSize.Some? && hover.value.maskSize.value.Num? ==>
              s * BaseMaskSize == hover.value.maskSize.value.size
  {
    match hover
    case None => 1.0
    case Some(e) => DeclaredSize(e.maskSize) / BaseMaskSize
  }

  /**
   * The sizes declared on the page's own elements give the declared size over
   * 100; separately, an empty attribute (declared nowhere on the page) takes
   * the fallback "100" and gives 1.
   */
  lemma PageScales()
    ensures MaskScaleFor(Some(Element(0, Some(Num(1200.0))))) == 12.0  // motto words, hero and about headings
    ensures MaskScaleFor(Some(Element(0, Some(Num(300.0))))) == 3.0    // showreel section
    ensures MaskScaleFor(Some(Element(0, Some(Num(0.0))))) == 0.0      // navigation list, service names
    ensures MaskScaleFor(Some(Element(0, Some(Empty)))) == 1.0         // the `|| "100"` fallback
  {
  }

  // ---------------------------------------------------------------------------
  // The state machine
  // ---------------------------------------------------------------------------

  /** `pointerClientX`, `pointerClientY`, `hasPointerMoved`, `currentHoverTarget`. */
  datatype State = State(clientX: int, clientY: int, hasMoved: bool, hover: Option<Element>)

  /** The state when the page mounts. */
  const Initial: State := State(0, 0, false, None)

  /** An input event, with the window's scroll offset at the time it is handled. */
  datatype Event =
    | Move(clientX: int, clientY: int, chain: seq<Element>, scrollX: int, scrollY: int)
    | Scroll(scrollX: int, scrollY: int)

  /** The state after an event and the values the event handed to the engine, in order. */
  datatype Reaction = Reaction(next: State, pushes: seq<Push>)

  /** Reference identity of two possibly-null element references (`===`). */
  predicate SameTarget(a: Option<Element>, b: Option<Element>)
  {
    (a.None? && b.None?) || (a.Some? && b.Some? && a.value.id == b.value.id)
  }

  /** `syncCursorPosition`: eased cursor targets from the recorded client position plus scroll. */
  function CursorTargets(st: State, scrollX: int, scrollY: int): seq<Push>
  {
    [CursorX(st.clientX + scrollX), CursorY(st.clientY + scrollY)]
  }

  /** The one-time snap, fade-in and scale-1 target of the first mouse-move; nothing afterwards. */
  function FirstMovePushes(st: State, x: int, y: int, sx: int, sy: int): seq<Push>
  {
    if st.hasMoved then [] else [SnapCursor(x + sx, y + sy), FadeIn, MaskScale(1.0)]
  }

  /** A scale target when the hover target changes identity; nothing when it stays the same. */
  function HoverPushes(st: State, hoverElement: Option<Element>): seq<Push>
  {
    if SameTarget(hoverElement, st.hover) then [] else [MaskScale(MaskScaleFor(hoverElement))]
  }

  /** What the controller does with one event. */
  function Step(st: State, ev: Event): Reaction
  {
    match ev
    case Scroll(sx, sy) => Reaction(st, CursorTargets(st, sx, sy))
    case Move(x, y, chain, sx, sy) =>
      var hoverElement := Closest(chain);
      var hover := if SameTarget(hoverElement, st.hover) then st.hover else hoverElement;
      var next := State(x, y, true, hover);
      Reaction(next, FirstMovePushes(st, x, y, sx, sy) + HoverPushes(st, hoverElement) + CursorTargets(next, sx, sy))
  }

  /**
   * The Move branch of `Step` restated part by part. It adds no property: it
   * only hands the prover this shape inside `Controller.MouseMove`.
   */
  lemma MoveStep(st: State, x: int, y: int, chain: seq<Element>, sx: int, sy: int)
    ensures var h := Closest(chain);
      var next := State(x, y, true, if SameTarget(h, st.hover) then st.hover else h);
      Step(st, Move(x, y, chain, sx, sy)) ==
        Reaction(next, FirstMovePushes(st, x, y, sx, sy) + HoverPushes(st, h) + CursorTargets(next, sx, sy))
  {
  }

  /** A sequence of events handled one after the other. */
  function Run(st: State, evs: seq<Event>): Reaction
    decreases |evs|
  {
    if evs == [] then Reaction(st, [])
    else
      var first := Step(st, evs[0]);
      var rest := Run(first.next, evs[1..]);
      Reaction(rest.next, first.pushes + rest.pushes)
  }

  // ---------------------------------------------------------------------------
  // One event
  // ---------------------------------------------------------------------------

  /** Every mouse-move ends with the two cursor targets: client coordinate plus scroll offset. */
  lemma MoveEndsWithCursorTargets(st: State, x: int, y: int, chain: seq<Element>, sx: int, sy: int)
    ensures var r := Step(st, Move(x, y, chain, sx, sy));
      |r.pushes| >= 2 &&
      r.pushes[|r.pushes| - 2] == CursorX(x + sx) &&
      r.pushes[|r.pushes| - 1] == CursorY(y + sy) &&
      r.next.clientX == x && r.next.clientY == y && r.next.hasMoved
  {
  }

  /** The first mouse-move snaps the cursor, fades the overlay in and targets scale 1, in that order. */
  lemma FirstMoveReveals(st: State, x: int, y: int, chain: seq<Element>, sx: int, sy: int)
    requires !st.hasMoved
    ensures var r := Step(st, Move(x, y, chain, sx, sy));
      |r.pushes| >= 3 &&
      r.pushes[..3] == [SnapCursor(x + sx, y + sy), FadeIn, MaskScale(1.0)]
  {
  }

  /** Once the pointer has moved, no event snaps the cursor or fades the overlay in again. */
  lemma NoRevealAfterFirstMove(st: State, ev: Event)
    requires st.hasMoved
    ensures var r := Step(st, ev);
      r.next.hasMoved &&
      forall k :: 0 <= k < |r.pushes| ==> !r.pushes[k].SnapCursor? && !r.pushes[k].FadeIn?
  {
  }

  /** After a mouse-move the recorded hover target is, by identity, the nearest sized ancestor-or-self. */
  lemma MoveRecordsClosest(st: State, x: int, y: int, chain: seq<Element>, sx: int, sy: int)
    ensures var h := Step(st, Move(x, y, chain, sx, sy)).next.hover;
      SameTarget(h, Closest(chain)) &&
      (h.None? <==> forall j :: 0 <= j < |chain| ==> chain[j].maskSize.None?)
  {
  }

  /** A later mouse-move over the same hover target pushes the two cursor targets and nothing else. */
  lemma SameHoverPushesOnlyCursor(st: State, x: int, y: int, chain: seq<Element>, sx: int, sy: int)
    requires st.hasMoved && SameTarget(Closest(chain), st.hover)
    ensures Step(st, Move(x, y, chain, sx, sy)).pushes == [CursorX(x + sx), CursorY(y + sy)]
    ensures Step(st, Move(x, y, chain, sx, sy)).next.hover == st.hover
  {
  }

  /**
   * A mouse-move that changes the hover target pushes exactly one scale for it,
   * right before the cursor targets: the declared size over 100, or 1 when no
   * sized element is under the pointer.
   */
  lemma HoverChangePushesScale(st: State, x: int, y: int, chain: seq<Element>, sx: int, sy: int)
    requires !SameTarget(Closest(chain), st.hover)
    ensures var r := Step(st, Move(x, y, chain, sx, sy));
      var h := Closest(chain);
      r.next.hover == h &&
      |r.pushes| >= 3 &&
      r.pushes[|r.pushes| - 3] == MaskScale(MaskScaleFor(h)) &&
      (h.None? ==> r.pushes[|r.pushes| - 3] == MaskScale(1.0)) &&
      (h.Some? && h.value.maskSize.value.Num? ==>
         r.pushes[|r.pushes| - 3] == MaskScale(h.value.maskSize.value.size / BaseMaskSize))
  {
  }

  /** A scroll event moves only the cursor targets, from the last client position plus the new offset. */
  lemma ScrollOnlyMovesCursor(st: State, sx: int, sy: int)
    ensures Step(st, Scroll(sx, sy)) == Reaction(st, [CursorX(st.clientX + sx), CursorY(st.clientY + sy)])
  {
  }

  /** Before any mouse-move, scrolling targets the page's scroll offset itself (client position 0,0). */
  lemma ScrollBeforeMove(sx: int, sy: int)
    ensures Step(Initial, Scroll(sx, sy)).pushes == [CursorX(sx), CursorY(sy)]
  {
  }

  // ---------------------------------------------------------------------------
  // Counting pushes in a log
  // ---------------------------------------------------------------------------

  function SnapCount(log: seq<Push>): nat
  {
    if log == [] then 0 else (if log[0].SnapCursor? then 1 else 0) + SnapCount(log[1..])
  }

  function FadeInCount(log: seq<Push>): nat
  {
    if log == [] then 0 else (if log[0].FadeIn? then 1 else 0) + FadeInCount(log[1..])
  }

  /** The last scale target in the log, if any: what the mask is easing toward. */
  function LastScale(log: seq<Push>): Option<real>
  {
    if log == [] then None
    else if log[|log| - 1].MaskScale? then Some(log[|log| - 1].scale)
    else LastScale(log[..|log| - 1])
  }

  lemma {:induction false} CountsAppend(a: seq<Push>, b: seq<Push>)
    ensures SnapCount(a + b) == SnapCount(a) + SnapCount(b)
    ensures FadeInCount(a + b) == FadeInCount(a) + FadeInCount(b)
  {
    if a != [] {
      assert (a + b)[1..] == a[1..] + b;
      CountsAppend(a[1..], b);
    } else {
      assert a + b == b;
    }
  }

  lemma {:induction false} LastScaleAppend(a: seq<Push>, b: seq<Push>)
    ensures LastScale(a + b) == if LastScale(b).Some? then LastScale(b) else LastScale(a)
    decreases |b|
  {
    if b != [] {
      assert (a + b)[..|a + b| - 1] == a + b[..|b| - 1];
      LastScaleAppend(a, b[..|b| - 1]);
    } else {
      assert a + b == a;
    }
  }

  /** Cursor targets neither snap, fade in nor rescale. */
  lemma CursorTargetsInert(st: State, sx: int, sy: int)
    ensures var c := CursorTargets(st, sx, sy);
      SnapCount(c) == 0 && FadeInCount(c) == 0 && LastScale(c) == None
  {
    var c := CursorTargets(st, sx, sy);
    assert c[1..][1..] == [];
    assert SnapCount(c[1..]) == 0 && FadeInCount(c[1..]) == 0;
    assert c[..1][..0] == [];
    assert LastScale(c[..1]) == None;
  }

  // ---------------------------------------------------------------------------
  // What holds of the controller's whole history
  // ---------------------------------------------------------------------------

  /**
   * The relation between the state and everything pushed so far: the snap and
   * the fade-in have happened once exactly when the pointer has moved, and from
   * then on the mask is easing toward the scale of the current hover target;
   * before that no hover target is recorded and no scale has been pushed.
   */
  ghost predicate Consistent(st: State, log: seq<Push>)
  {
    SnapCount(log) == FadeInCount(log) == (if st.hasMoved then 1 else 0) &&
    (st.hasMoved ==> LastScale(log) == Some(MaskScaleFor(st.hover))) &&
    (!st.hasMoved ==> st.hover.None? && LastScale(log).None?)
  }

  lemma InitialConsistent()
    ensures Consistent(Initial, [])
  {
  }

  lemma FirstMovePushesEffect(st: State, x: int, y: int, sx: int, sy: int)
    ensures var m := FirstMovePushes(st, x, y, sx, sy);
      SnapCount(m) == FadeInCount(m) == (if st.hasMoved then 0 else 1) &&
      LastScale(m) == (if st.hasMoved then None else Some(1.0))
  {
    var m := FirstMovePushes(st, x, y, sx, sy);
    if !st.hasMoved {
      assert m[1..][1..][1..] == [];
      assert SnapCount(m[1..][1..]) == 0 && FadeInCount(m[1..][1..]) == 0;
      assert SnapCount(m[1..]) == 0 && FadeInCount(m[1..]) == 1;
    }
  }

  lemma HoverPushesEffect(st: State, h: Option<Element>)
    ensures var p := HoverPushes(st, h);
      SnapCount(p) == FadeInCount(p) == 0 &&
      LastScale(p) == (if SameTarget(h, st.hover) then None else Some(MaskScaleFor(h)))
  {
  }

  /** Every mouse-move keeps the state consistent with the log it extends. */
  lemma MoveKeepsConsistent(st: State, log: seq<Push>, x: int, y: int, chain: seq<Element>, sx: int, sy: int)
    requires Consistent(st, log)
    ensures var r := Step(st, Move(x, y, chain, sx, sy));
      Consistent(r.next, log + r.pushes)
  {
    var r := Step(st, Move(x, y, chain, sx, sy));
    var h := Closest(chain);
    var m := FirstMovePushes(st, x, y, sx, sy);
    var p := HoverPushes(st, h);
    var c := CursorTargets(r.next, sx, sy);
    FirstMovePushesEffect(st, x, y, sx, sy);
    HoverPushesEffect(st, h);
    CursorTargetsInert(r.next, sx, sy);
    CountsAppend(m, p);
    CountsAppend(m + p, c);
    CountsAppend(log, m + p + c);
    LastScaleAppend(m, p);
    LastScaleAppend(m + p, c);
    LastScaleAppend(log, m + p + c);
  }

  /** Every event keeps the state consistent with the log it extends. */
  lemma StepKeepsConsistent(st: State, log: seq<Push>, ev: Event)
    requires Consistent(st, log)
    ensures Consistent(Step(st, ev).next, log + Step(st, ev).pushes)
  {
    match ev
    case Scroll(sx, sy) =>
      CursorTargetsInert(st, sx, sy);
      CountsAppend(log, CursorTargets(st, sx, sy));
      LastScaleAppend(log, CursorTargets(st, sx, sy));
    case Move(x, y, chain, sx, sy) =>
      MoveKeepsConsistent(st, log, x, y, chain, sx, sy);
  }

  /** Any sequence of events keeps the state consistent with its log. */
  lemma {:induction false} RunKeepsConsistent(st: State, log: seq<Push>, evs: seq<Event>)
    requires Consistent(st, log)
    ensures Consistent(Run(st, evs).next, log + Run(st, evs).pushes)
    decreases |evs|
  {
    if evs != [] {
      var first := Step(st, evs[0]);
      var rest := Run(first.next, evs[1..]);
      StepKeepsConsistent(st, log, evs[0]);
      RunKeepsConsistent(first.next, log + first.pushes, evs[1..]);
      assert Run(st, evs) == Reaction(rest.next, first.pushes + rest.pushes);
      assert (log + first.pushes) + rest.pushes == log + (first.pushes + rest.pushes);
    } else {
      assert log + Run(st, evs).pushes == log;
    }
  }

  /** The pointer counts as moved after a run exactly when it had moved before or the run holds a mouse-move. */
  lemma {:induction false} RunHasMoved(st: State, evs: seq<Event>)
    ensures Run(st, evs).next.hasMoved <==> st.hasMoved || exists k :: 0 <= k < |evs| && evs[k].Move?
    decreases |evs|
  {
    if evs != [] {
      var first := Step(st, evs[0]);
      RunHasMoved(first.next, evs[1..]);
      if exists k :: 0 <= k < |evs[1..]| && evs[1..][k].Move? {
        var k :| 0 <= k < |evs[1..]| && evs[1..][k].Move?;
        assert evs[k + 1].Move?;
      }
      if exists k :: 0 <= k < |evs| && evs[k].Move? {
        var k :| 0 <= k < |evs| && evs[k].Move?;
        if k > 0 {
          assert evs[1..][k - 1].Move?;
        }
      }
    }
  }

  /**
   * From page mount on: the snap to the pointer and the fade-in each happen
   * exactly once if there was any mouse-move and never otherwise, and once the
   * pointer has moved the last scale target is the scale of the current hover
   * target (1 when there is none).
   */
  lemma RevealOnceAndScaleTracksHover(evs: seq<Event>)
    ensures var r := Run(Initial, evs);
      var moved := exists k :: 0 <= k < |evs| && evs[k].Move?;
      SnapCount(r.pushes) == FadeInCount(r.pushes) == (if moved then 1 else 0) &&
      (moved ==> LastScale(r.pushes) == Some(MaskScaleFor(r.next.hover))) &&
      (!moved ==> r.next.hover.None? && LastScale(r.pushes).None?)
  {
    InitialConsistent();
    RunKeepsConsistent(Initial, [], evs);
    RunHasMoved(Initial, evs);
    assert [] + Run(Initial, evs).pushes == Run(Initial, evs).pushes;
  }
}
