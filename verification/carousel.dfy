/** The image carousel of one product card: an index into its `n` images,
    moved by the arrows, by a swipe, and by a periodic timer. */
module Carousel {

  /** A swipe must travel strictly more than this many pixels to count. */
  const SwipeThreshold: int := 50

  /** A valid state for a card with `n` images. */
  predicate Valid(i: int, n: int) {
    0 <= i < n
  }

  /** The "next" arrow: one image forward, wrapping from the last to the first. */
  function Next(i: int, n: int): (r: int)
    requires Valid(i, n)
    ensures Valid(r, n)
  {
    if i == n - 1 then 0 else i + 1
  }

  /** The "previous" arrow: one image back, wrapping from the first to the last. */
  function Prev(i: int, n: int): (r: int)
    requires Valid(i, n)
    ensures Valid(r, n)
  {
    if i == 0 then n - 1 else i - 1
  }

  /** "Next" is the page's `(index + 1) % n`. */
  lemma NextIsRemainder(i: int, n: int)
    requires Valid(i, n)
    ensures Next(i, n) == (i + 1) % n
  {
    if i == n - 1 {
      assert (i + 1) % n == n % n == 0;
    } else {
      assert 0 <= i + 1 < n;
    }
  }

  /** "Previous" is the page's `(index - 1 + n) % n`. The dividend is never
      negative here, so JavaScript's `%` and Dafny's agree. */
  lemma PrevIsRemainder(i: int, n: int)
    requires Valid(i, n)
    ensures Prev(i, n) == (i - 1 + n) % n
  {
    if i == 0 {
      assert 0 <= i - 1 + n < n;
    } else {
      assert (i - 1 + n) == 1 * n + (i - 1);
    }
  }

  /** The timer tick, every 5 seconds, advances like "next". */
  function Tick(i: int, n: int): (r: int)
    requires Valid(i, n)
    ensures Valid(r, n)
  {
    Next(i, n)
  }

  /** The end of a touch: a swipe right of more than the threshold goes
      back, then a swipe left of more than the threshold goes forward. */
  function Swipe(i: int, n: int, startX: int, endX: int): (r: int)
    requires Valid(i, n)
    ensures Valid(r, n)
    ensures -SwipeThreshold <= endX - startX <= SwipeThreshold ==> r == i
    ensures endX - startX > SwipeThreshold ==> r == Prev(i, n)
    ensures startX - endX > SwipeThreshold ==> r == Next(i, n)
  {
    var afterRight := if endX - startX > SwipeThreshold then Prev(i, n) else i;
    if startX - endX > SwipeThreshold then Next(afterRight, n) else afterRight
  }

  /** "Previous" undoes "next", and "next" undoes "previous". */
  lemma PrevNextInverse(i: int, n: int)
    requires Valid(i, n)
    ensures Prev(Next(i, n), n) == i
    ensures Next(Prev(i, n), n) == i
  {
  }

  /** The state after `k` presses of "next" (or `k` timer ticks). */
  function NextTimes(i: int, n: int, k: nat): (r: int)
    requires Valid(i, n)
    ensures Valid(r, n)
  {
    if k == 0 then i else Next(NextTimes(i, n, k - 1), n)
  }

  /** Steps forward that do not reach the end just count up. */
  lemma {:induction false} NextTimesCountsUp(i: int, n: int, k: nat)
    requires Valid(i, n) && i + k < n
    ensures NextTimes(i, n, k) == i + k
  {
    if k > 0 {
      NextTimesCountsUp(i, n, k - 1);
    }
  }

  /** Stepping `a` times and then `b` times is stepping `c = a + b` times.
      The total is a parameter of its own so that a caller can name it by
      the term it already has (`n` in FullCycle) instead of as `a + b`,
      which keeps the solver from searching for the arithmetic link. */
  lemma {:induction false} NextTimesAdd(i: int, n: int, a: nat, b: nat, c: nat)
    requires Valid(i, n)
    requires c == a + b
    ensures NextTimes(i, n, c) == NextTimes(NextTimes(i, n, a), n, b)
  {
    if b > 0 {
      NextTimesAdd(i, n, a, b - 1, c - 1);
    }
  }

  /** Stepping from image `i` until past the last image lands on the first. */
  lemma NextTimesWraps(i: int, n: int)
    requires Valid(i, n)
    ensures NextTimes(i, n, n - i) == 0
  {
    NextTimesCountsUp(i, n, n - i - 1);
  }

  /** `n` steps forward (a full turn of the timer) return to the starting image. */
  lemma FullCycle(i: int, n: int)
    requires Valid(i, n)
    ensures NextTimes(i, n, n) == i
  {
    NextTimesAdd(i, n, n - i, i, n);
    NextTimesWraps(i, n);
    NextTimesCountsUp(0, n, i);
  }

  /** A card with one image never changes image. */
  lemma SingleImageFixed(i: int, startX: int, endX: int)
    requires Valid(i, 1)
    ensures Next(i, 1) == 0 && Prev(i, 1) == 0 && Tick(i, 1) == 0 && Swipe(i, 1, startX, endX) == 0
  {
  }
}
