/**
 * The reveal controller as the page wires it up (src/app/page.tsx): four
 * mutable variables captured by two event handlers, and the values those
 * handlers hand to the tweening engine, kept here as the log `pushes`.
 *
 * Each handler is proved to do exactly what `RevealMask.Step` says, and to
 * keep `Valid()`, the whole-history relation `RevealMask.Consistent`.
 */
module RevealController {
  import opened Wrappers
  import opened RevealMask

  class Controller {
    var pointerClientX: int
    var pointerClientY: int
    var hasPointerMoved: bool
    var currentHoverTarget: Option<Element>
    /** Every value handed to the engine since mount, oldest first. */
    var pushes: seq<Push>

    /** The four captured variables as a `RevealMask.State`. */
    function Snapshot(): State
      reads this
    {
      State(pointerClientX, pointerClientY, hasPointerMoved, currentHoverTarget)
    }

    ghost predicate Valid()
      reads this
    {
      Consistent(Snapshot(), pushes)
    }

    /** Page mount: pointer at (0, 0), not yet moved, nothing hovered, nothing pushed. */
    constructor ()
      ensures Snapshot() == Initial && pushes == []
      ensures Valid()
    {
      pointerClientX := 0;
      pointerClientY := 0;
      hasPointerMoved := false;
      currentHoverTarget := None;
      pushes := [];
      new;
      InitialConsistent();
    }

    /**
     * `syncCursorPosition`, which is also the scroll listener: eased cursor
     * targets from the recorded client position plus the current scroll offset.
     */
    method SyncCursorPosition(scrollX: int, scrollY: int)
      modifies this`pushes
      ensures pushes == old(pushes) + [CursorX(pointerClientX + scrollX), CursorY(pointerClientY + scrollY)]
      ensures old(Snapshot()) == Snapshot()
      ensures pushes == old(pushes) + Step(Snapshot(), Scroll(scrollX, scrollY)).pushes
      ensures old(Valid()) ==> Valid()
    {
      ghost var st := Snapshot();
      ghost var log := pushes;
      pushes := pushes + [CursorX(pointerClientX + scrollX)];
      pushes := pushes + [CursorY(pointerClientY + scrollY)];
      assert pushes == log + Step(st, Scroll(scrollX, scrollY)).pushes;
      if Consistent(st, log) {
        StepKeepsConsistent(st, log, Scroll(scrollX, scrollY));
      }
    }

    /** `handleMouseMove`, with the event target's ancestor-or-self path and the scroll offset at that moment. */
    method MouseMove(clientX: int, clientY: int, chain: seq<Element>, scrollX: int, scrollY: int)
      requires Valid()
      modifies this
      ensures Snapshot() == Step(old(Snapshot()), Move(clientX, clientY, chain, scrollX, scrollY)).next
      ensures pushes == old(pushes) + Step(old(Snapshot()), Move(clientX, clientY, chain, scrollX, scrollY)).pushes
      ensures Valid()
    {
      ghost var st := Snapshot();
      ghost var log := pushes;
      pointerClientX := clientX;
      pointerClientY := clientY;

      if !hasPointerMoved {
        hasPointerMoved := true;
        pushes := pushes + [SnapCursor(pointerClientX + scrollX, pointerClientY + scrollY), FadeIn];
        pushes := pushes + [MaskScale(1.0)];
      }
      ghost var afterFirst := pushes;
      assert afterFirst == log + FirstMovePushes(st, clientX, clientY, scrollX, scrollY);

      var hoverElement := Closest(chain);
      if !SameTarget(hoverElement, currentHoverTarget) {
        currentHoverTarget := hoverElement;
        if hoverElement.Some? {
          var newSize := DeclaredSize(hoverElement.value.maskSize);
          pushes := pushes + [MaskScale(newSize / BaseMaskSize)];
        } else {
          pushes := pushes + [MaskScale(1.0)];
        }
      }
      assert pushes == afterFirst + HoverPushes(st, hoverElement);

      SyncCursorPosition(scrollX, scrollY);
      MoveStep(st, clientX, clientY, chain, scrollX, scrollY);
      MoveKeepsConsistent(st, log, clientX, clientY, chain, scrollX, scrollY);
    }
  }
}
