/**
 * The seamless carousel: the track holds the real slides with a copy of the last one in
 * front and a copy of the first one behind. Moving is allowed only when no transition
 * is running; when a transition ends on a copy, the track jumps without animation to the
 * real slide that shows the same picture.
 */
module Carousel {

  /** The track: [last, ...orig, first]. */
  function Slides<T>(orig: seq<T>): (r: seq<T>)
    requires |orig| > 0
    ensures |r| == |orig| + 2
    ensures r[0] == orig[|orig| - 1] && r[|orig| + 1] == orig[0]
    ensures forall k :: 1 <= k <= |orig| ==> r[k] == orig[k - 1]
  {
    [orig[|orig| - 1]] + orig + [orig[0]]
  }

  /** The indicator to highlight for track position `index` of a track over n real slides. */
  function ActiveIndex(n: nat, index: int): int {
    if index == n + 1 then 0
    else if index == 0 then n - 1
    else index - 1
  }

  /** Every track position names a real slide, and the one it shows. */
  lemma ActiveIndexShown<T>(orig: seq<T>, index: int)
    requires |orig| > 0 && 0 <= index <= |orig| + 1
    ensures 0 <= ActiveIndex(|orig|, index) < |orig|
    ensures Slides(orig)[index] == orig[ActiveIndex(|orig|, index)]
  {
  }

  /** Where handleTransitionEnd leaves the track: off the two copies, elsewhere unchanged. */
  function Snap(n: nat, index: int): int {
    if index == n + 1 then 1
    else if index == 0 then n
    else index
  }

  /** The jump never changes the picture on screen, and it lands on a real slide. */
  lemma SnapKeepsSlide<T>(orig: seq<T>, index: int)
    requires |orig| > 0 && 0 <= index <= |orig| + 1
    ensures 1 <= Snap(|orig|, index) <= |orig|
    ensures Slides(orig)[Snap(|orig|, index)] == Slides(orig)[index]
    ensures ActiveIndex(|orig|, Snap(|orig|, index)) == ActiveIndex(|orig|, index)
  {
  }

  /** The copies sit exactly where the jump expects them. */
  lemma ClonesMatch<T>(orig: seq<T>)
    requires |orig| > 0
    ensures Slides(orig)[|orig| + 1] == Slides(orig)[1]
    ensures Slides(orig)[0] == Slides(orig)[|orig|]
  {
  }

  class Carousel<T> {
    const orig: seq<T>
    const slides: seq<T>
    var currentIndex: int
    var isTransitioning: bool

    /**
     * The track position stays on the track, and at rest it is on a real slide: a move
     * from rest goes at most one step onto a copy, and the end of that move jumps back.
     */
    ghost predicate Valid()
      reads this
    {
      && |orig| > 0
      && slides == Slides(orig)
      && 0 <= currentIndex <= |orig| + 1
      && (!isTransitioning ==> 1 <= currentIndex <= |orig|)
    }

    /** The picture on screen. */
    function Shown(): T
      reads this
      requires Valid()
    {
      slides[currentIndex]
    }

    /** The initial state: the first real slide, at rest. */
    constructor(original: seq<T>)
      requires |original| > 0
      ensures Valid()
      ensures orig == original && currentIndex == 1 && !isTransitioning
      ensures Shown() == original[0]
    {
      orig := original;
      slides := Slides(original);
      currentIndex := 1;
      isTransitioning := false;
    }

    /** nextSlide: locked while transitioning; otherwise start a move one slide on. */
    method NextSlide()
      requires Valid()
      modifies this
      ensures Valid()
      ensures old(isTransitioning) ==> currentIndex == old(currentIndex) && isTransitioning
      ensures !old(isTransitioning) ==> currentIndex == old(currentIndex) + 1 && isTransitioning
    {
      if isTransitioning {
        return;
      }
      isTransitioning := true;
      currentIndex := currentIndex + 1;
    }

    /** prevSlide: locked while transitioning; otherwise start a move one slide back. */
    method PrevSlide()
      requires Valid()
      modifies this
      ensures Valid()
      ensures old(isTransitioning) ==> currentIndex == old(currentIndex) && isTransitioning
      ensures !old(isTransitioning) ==> currentIndex == old(currentIndex) - 1 && isTransitioning
    {
      if isTransitioning {
        return;
      }
      isTransitioning := true;
      currentIndex := currentIndex - 1;
    }

    /** handleTransitionEnd: come to rest, jumping off a copy onto its real slide. */
    method HandleTransitionEnd()
      requires Valid()
      modifies this
      ensures Valid()
      ensures !isTransitioning
      ensures currentIndex == Snap(|orig|, old(currentIndex))
      ensures Shown() == old(Shown())
    {
      SnapKeepsSlide(orig, currentIndex);
      isTransitioning := false;
      if currentIndex == |slides| - 1 {
        currentIndex := 1;
      } else if currentIndex == 0 {
        currentIndex := |slides| - 2;
      }
    }

    /** goToSlide: start a move to real slide i, whether or not one is running. */
    method GoToSlide(i: nat)
      requires Valid() && i < |orig|
      modifies this
      ensures Valid()
      ensures currentIndex == i + 1 && isTransitioning
      ensures Shown() == orig[i]
    {
      isTransitioning := true;
      currentIndex := i + 1;
    }
  }
}
