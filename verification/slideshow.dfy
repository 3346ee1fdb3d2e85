/**
 The slideshow's pure rules: where next and previous go, what the counter
 shows, which slide is active and which way a swipe navigates.
 */
module Slideshow {

  import opened Doctors

  /** The last valid slide index of a doctor with `len` images, and 0 when there are none. */
  function MaxSlide(len: nat): (m: nat)
    ensures len == 0 ==> m == 0
    ensures 0 < len ==> m < len && len <= m + 1
  {
    if len == 0 then 0 else len - 1
  }

  function Min(a: int, b: int): int { if a <= b then a else b }

  function Max(a: int, b: int): int { if a <= b then b else a }

  /** The next button: moves one slide on unless already at the last one (no wraparound). */
  function NextSlide(slide: nat, len: nat): (r: nat)
    ensures r == slide || r == slide + 1
    ensures r == slide <==> MaxSlide(len) <= slide
    ensures slide <= MaxSlide(len) ==> r <= MaxSlide(len)
  {
    if slide < len - 1 then slide + 1 else slide
  }

  /** The previous button: moves one slide back unless already at the first one. */
  function PrevSlide(slide: nat): (r: nat)
    ensures r == slide || r + 1 == slide
    ensures r == slide <==> slide == 0
    ensures r <= slide
  {
    if slide > 0 then slide - 1 else slide
  }

  /** The slide shown after `n` clicks on next. */
  function NextTimes(slide: nat, len: nat, n: nat): nat
    decreases n
  {
    if n == 0 then slide else NextTimes(NextSlide(slide, len), len, n - 1)
  }

  /** The slide shown after `n` clicks on previous. */
  function PrevTimes(slide: nat, n: nat): nat
    decreases n
  {
    if n == 0 then slide else PrevTimes(PrevSlide(slide), n - 1)
  }

  /** Clicking next `n` times advances `n` slides but never past the last one. */
  lemma {:induction false} NextTimesStopsAtLast(slide: nat, len: nat, n: nat)
    requires slide <= MaxSlide(len)
    ensures NextTimes(slide, len, n) == Min(slide + n, MaxSlide(len))
    decreases n
  {
    if n > 0 {
      NextTimesStopsAtLast(NextSlide(slide, len), len, n - 1);
    }
  }

  /** Clicking previous `n` times goes back `n` slides but never before the first one. */
  lemma {:induction false} PrevTimesStopsAtFirst(slide: nat, n: nat)
    ensures PrevTimes(slide, n) == Max(slide - n, 0)
    decreases n
  {
    if n > 0 {
      PrevTimesStopsAtFirst(PrevSlide(slide), n - 1);
    }
  }

  /** As long as the last slide is not hit, `n` nexts are undone by `n` previouses. */
  lemma NextThenPrevReturns(slide: nat, len: nat, n: nat)
    requires slide + n <= MaxSlide(len)
    ensures PrevTimes(NextTimes(slide, len, n), n) == slide
  {
    NextTimesStopsAtLast(slide, len, n);
    PrevTimesStopsAtFirst(slide + n, n);
  }

  /**
   The text of the slide counter, "position / total": "0 / 0" for a doctor
   without images, otherwise the 1-based position of the current slide.
   */
  datatype Counter = Counter(position: nat, total: nat)

  function SlideCounter(slide: nat, len: nat): (c: Counter)
    ensures c.total == len
    ensures c.position == 0 <==> len == 0
    ensures 0 < len ==> c.position == slide + 1
    ensures slide <= MaxSlide(len) ==> c.position <= c.total
  {
    if len == 0 then Counter(0, 0) else Counter(slide + 1, len)
  }

  /** The image on the slide marked active, if any slide is. */
  function ActiveSlide(images: seq<string>, slide: nat): (r: Option<string>)
    ensures r.Some? <==> slide < |images|
    ensures 0 < |images| && slide <= MaxSlide(|images|) ==> r == Some(images[slide])
  {
    if slide < |images| then Some(images[slide]) else None
  }

  /** How many slides carry the active mark. */
  function CountActive(flags: seq<bool>): nat
  {
    if flags == [] then 0 else (if flags[0] then 1 else 0) + CountActive(flags[1..])
  }

  /** If exactly the flag at `slide` is set, one slide is active when `slide` is in range and none otherwise. */
  lemma {:induction false} OneSlideActive(flags: seq<bool>, slide: nat)
    requires forall k :: 0 <= k < |flags| ==> (flags[k] <==> k == slide)
    ensures CountActive(flags) == (if slide < |flags| then 1 else 0)
    decreases |flags|
  {
    if flags != [] {
      var rest := flags[1..];
      var shifted := if slide == 0 then |flags| else slide - 1;
      assert forall k :: 0 <= k < |rest| ==> (rest[k] <==> k == shifted) by {
        forall k | 0 <= k < |rest| ensures rest[k] <==> k == shifted {
          assert rest[k] == flags[k + 1];
        }
      }
      OneSlideActive(rest, shifted);
    }
  }

  /** Which button a horizontal swipe clicks. */
  datatype Swipe = SwipeNext | SwipePrev | NoSwipe

  /** Horizontal distance a swipe must exceed, in CSS pixels. */
  const SwipeThreshold: real := 50.0

  /**
   A swipe clicks next when the finger ends more than the threshold to the
   left of where it started, previous when it ends more than the threshold
   to the right, and nothing otherwise.
   */
  function SwipeAction(startX: real, endX: real): (r: Swipe)
    ensures r == SwipeNext <==> endX < startX - SwipeThreshold
    ensures r == SwipePrev <==> endX > startX + SwipeThreshold
    ensures r == NoSwipe <==> startX - SwipeThreshold <= endX <= startX + SwipeThreshold
  {
    if endX < startX - SwipeThreshold then SwipeNext
    else if endX > startX + SwipeThreshold then SwipePrev
    else NoSwipe
  }

  /** The slide a swipe leads to, given the doctor's number of images. */
  function SwipedSlide(slide: nat, len: nat, startX: real, endX: real): (r: nat)
    ensures endX < startX - SwipeThreshold ==> r == NextSlide(slide, len)
    ensures endX > startX + SwipeThreshold ==> r == PrevSlide(slide)
    ensures startX - SwipeThreshold <= endX <= startX + SwipeThreshold ==> r == slide
    ensures slide <= MaxSlide(len) ==> r <= MaxSlide(len)
    ensures r == slide || r == slide + 1 || r + 1 == slide
  {
    match SwipeAction(startX, endX)
    case SwipeNext => NextSlide(slide, len)
    case SwipePrev => PrevSlide(slide)
    case NoSwipe => slide
  }

  /**
   The slide reached when `listeners` touchend handlers are registered and
   each applies the same swipe in turn: every entry into or exit from
   fullscreen registers one more, on top of the one from start-up.
   */
  function StackedSwipe(slide: nat, len: nat, startX: real, endX: real, listeners: nat): (r: nat)
    ensures listeners == 1 ==> r == SwipedSlide(slide, len, startX, endX)
    ensures slide <= MaxSlide(len) ==> r <= MaxSlide(len)
    decreases listeners
  {
    if listeners == 0 then slide
    else StackedSwipe(SwipedSlide(slide, len, startX, endX), len, startX, endX, listeners - 1)
  }

  /** Every stacked handler of a left swipe acts as one more click on next. */
  lemma {:induction false} StackedSwipeIsNextTimes(slide: nat, len: nat, startX: real, endX: real, listeners: nat)
    requires endX < startX - SwipeThreshold
    ensures StackedSwipe(slide, len, startX, endX, listeners) == NextTimes(slide, len, listeners)
    decreases listeners
  {
    if listeners > 0 {
      StackedSwipeIsNextTimes(NextSlide(slide, len), len, startX, endX, listeners - 1);
    }
  }

  /** With stacked handlers one left swipe advances once per handler, up to the last slide. */
  lemma StackedSwipeOversteps(slide: nat, len: nat, startX: real, endX: real, listeners: nat)
    requires endX < startX - SwipeThreshold
    requires slide <= MaxSlide(len)
    ensures StackedSwipe(slide, len, startX, endX, listeners) == Min(slide + listeners, MaxSlide(len))
  {
    StackedSwipeIsNextTimes(slide, len, startX, endX, listeners);
    NextTimesStopsAtLast(slide, len, listeners);
  }

  /**
   After one trip into fullscreen and back (three handlers), a 100-pixel left
   swipe from the first of five slides lands on the fourth; one handler would
   land on the second.
   */
  lemma StackedSwipeAfterFullscreenTrip()
    ensures StackedSwipe(0, 5, 200.0, 100.0, 3) == 3
    ensures SwipedSlide(0, 5, 200.0, 100.0) == 1
  {
  }
}
