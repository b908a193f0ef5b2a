/**
 * The featured-book carousel: a buffer of slides with one clone at each end,
 * advanced one slide per timer tick, with an unanimated jump back to the
 * first real slide after it has slid onto the clone at the end.
 *
 * The two timers are modelled as one discrete step: the 500 ms reset that a
 * tick may schedule always completes before the next 2000 ms tick, so `Tick`
 * applies it in the same step and reports the slot the animation went to.
 */
module Carousel {
  import opened ArrayOps
  import opened Catalog

  /** One slide: the cover image of a book, tagged with its id. */
  datatype Slide = Slide(bookId: nat, title: string, cover: string)

  function SlideOf(b: Book): Slide
  {
    Slide(b.id, b.title, b.cover)
  }

  function IsFeatured(): Book -> bool
  {
    (b: Book) => b.featured
  }

  /**
   * The index after one tick and the reset it may trigger. With `n` real
   * slides and a clone at each end, every real slide moves on to the next
   * and the last one moves back to the first.
   */
  function NextIndex(index: int, totalSlides: nat): (r: int)
    requires totalSlides > 0
    ensures 3 <= totalSlides && 1 <= index <= totalSlides - 2 ==>
      r == if index == totalSlides - 2 then 1 else index + 1
  {
    var next := (index + 1) % totalSlides;
    if next == totalSlides - 1 then 1 else next
  }

  /** `(index + 1) % totalSlides` is `index + 1` while that is below `totalSlides`. */
  lemma StaysBelow(x: int, m: int)
    requires 0 <= x < m
    ensures x % m == x
  {
  }

  /** The index after `ticks` ticks from `index`. */
  function AfterTicks(index: int, totalSlides: nat, ticks: nat): int
    requires totalSlides > 0
  {
    if ticks == 0 then index else NextIndex(AfterTicks(index, totalSlides, ticks - 1), totalSlides)
  }

  /** Ticking `a` times and then `b` times is ticking `a + b` times. */
  lemma {:induction false} AfterTicksAdd(index: int, totalSlides: nat, a: nat, b: nat)
    requires totalSlides > 0
    ensures AfterTicks(AfterTicks(index, totalSlides, a), totalSlides, b) == AfterTicks(index, totalSlides, a + b)
  {
    if b > 0 {
      AfterTicksAdd(index, totalSlides, a, b - 1);
    }
  }

  /** From the first real slide, the first `n` ticks visit the real slides 2..n and then slide 1 again. */
  lemma {:induction false} FirstRound(n: nat, k: nat)
    requires n >= 1 && k <= n
    ensures AfterTicks(1, n + 2, k) == if k == n then 1 else 1 + k
  {
    if k > 0 {
      FirstRound(n, k - 1);
    }
  }

  /** One more round of `n` ticks is `n` more ticks. */
  lemma MoreRounds(rounds: nat, n: nat)
    requires rounds >= 1
    ensures rounds * n == (rounds - 1) * n + n
  {
  }

  /** After every whole number of rounds of `n` ticks the carousel is back on the first real slide. */
  lemma {:induction false} BackToFirstSlide(n: nat, rounds: nat)
    requires n >= 1
    ensures AfterTicks(1, n + 2, rounds * n) == 1
  {
    if rounds > 0 {
      var before := (rounds - 1) * n;
      MoreRounds(rounds, n);
      calc {
        AfterTicks(1, n + 2, rounds * n);
        AfterTicks(1, n + 2, before + n);
        { AfterTicksAdd(1, n + 2, before, n); }
        AfterTicks(AfterTicks(1, n + 2, before), n + 2, n);
        { BackToFirstSlide(n, rounds - 1); }
        AfterTicks(1, n + 2, n);
        { FirstRound(n, n); }
        1;
      }
    }
  }

  /**
   * From the first real slide, `rounds * n + r` ticks (with `r < n`) show
   * real slide `1 + r`: the carousel cycles through the `n` featured books
   * in order, round after round.
   */
  lemma TicksCycle(n: nat, rounds: nat, r: nat)
    requires n >= 1 && r < n
    ensures AfterTicks(1, n + 2, rounds * n + r) == 1 + r
  {
    calc {
      AfterTicks(1, n + 2, rounds * n + r);
      { AfterTicksAdd(1, n + 2, rounds * n, r); }
      AfterTicks(AfterTicks(1, n + 2, rounds * n), n + 2, r);
      { BackToFirstSlide(n, rounds); }
      AfterTicks(1, n + 2, r);
      { FirstRound(n, r); }
      1 + r;
    }
  }

  class Carousel {
    /** The children of 'book-slider', in order. */
    var slides: seq<Slide>
    /** Whether the auto-scroll timer was started. */
    var running: bool
    /** The width of one slide, `offsetWidth` of the first one. */
    var slideWidth: int
    var currentIndex: int
    /** Whether the offset changes are animated. */
    var transitionOn: bool
    /** The horizontal translation of the slider. */
    var offset: int
    /** How many ticks have fired. */
    ghost var ticks: nat

    /**
     * While the timer runs: the buffer has a real slide with a clone at each
     * end, the last slot looks like the first real slide, the index is on a
     * real slide, the offset shows that slide, and the transition is off
     * exactly when it stands on the first real slide.
     */
    ghost predicate Valid()
      reads this
    {
      running ==>
        && |slides| >= 3
        && slides[|slides| - 1] == slides[1]
        && currentIndex == AfterTicks(1, |slides|, ticks)
        && 1 <= currentIndex <= |slides| - 2
        && offset == -currentIndex * slideWidth
        && transitionOn == (currentIndex != 1)
    }

    /**
     * `displayFeaturedBooksInSlider` followed by `autoScrollSlider`, as run on
     * page load. Without featured books there is no first slide to clone,
     * the handler stops with an error, and the slider stays empty.
     */
    constructor (books: seq<Book>, width: int)
      ensures Valid() && ticks == 0
      ensures var featured := Filter(books, IsFeatured());
        && (featured == [] ==> slides == [] && !running)
        && (featured != [] ==>
              && running
              && |slides| == |featured| + 2
              && slides[0] == SlideOf(featured[0])
              && (forall i :: 0 <= i < |featured| ==> slides[i + 1] == SlideOf(featured[i]))
              && slides[|featured| + 1] == SlideOf(featured[0])
              && slideWidth == width && currentIndex == 1 && offset == -width && !transitionOn)
    {
      var featured := Filter(books, IsFeatured());
      var slider := AppendSlides(featured);
      ticks := 0;
      transitionOn := false;
      if |slider| == 0 {
        slides, running := [], false;
        slideWidth, currentIndex, offset := width, 0, 0;
      } else {
        var firstSlideClone := slider[0];
        slider := slider + [firstSlideClone];
        var lastSlideClone := slider[|slider| - 1];
        slider := [lastSlideClone] + slider;
        slides := slider;
        // autoScrollSlider
        slideWidth := width;
        currentIndex := 1;
        offset := -width;
        running := true;
      }
    }

    /** The `forEach` that appends one slide per featured book to the cleared slider. */
    static method AppendSlides(featured: seq<Book>) returns (slider: seq<Slide>)
      ensures |slider| == |featured|
      ensures forall j :: 0 <= j < |featured| ==> slider[j] == SlideOf(featured[j])
    {
      slider := [];
      for i := 0 to |featured|
        invariant |slider| == i
        invariant forall j :: 0 <= j < i ==> slider[j] == SlideOf(featured[j])
      {
        slider := slider + [SlideOf(featured[i])];
      }
    }

    /**
     * One firing of the 2000 ms timer, with the reset it schedules. Returns
     * the slot the animation slid to; when that is the clone at the end, the
     * jump back to the first real slide is unanimated and lands on a slide
     * that looks the same.
     */
    method Tick() returns (shown: int)
      requires Valid() && running
      modifies this`currentIndex, this`transitionOn, this`offset, this`ticks
      ensures Valid() && ticks == old(ticks) + 1
      ensures shown == (old(currentIndex) + 1) % |slides| && 2 <= shown <= |slides| - 1
      ensures currentIndex == NextIndex(old(currentIndex), |slides|)
      ensures shown == |slides| - 1 ==>
        && slides[shown] == slides[currentIndex]
        && currentIndex == 1 && !transitionOn && offset == -slideWidth
      ensures shown < |slides| - 1 ==>
        currentIndex == shown && transitionOn && offset == -shown * slideWidth
    {
      ghost var before := currentIndex;
      StaysBelow(before + 1, |slides|);
      currentIndex := (currentIndex + 1) % |slides|;
      offset := -currentIndex * slideWidth;
      transitionOn := true;
      shown := currentIndex;

      if currentIndex == |slides| - 1 {
        // The deferred reset: no animation, back to the first real slide.
        transitionOn := false;
        offset := -slideWidth;
        currentIndex := 1;
      }
      ticks := ticks + 1;
      assert currentIndex == NextIndex(before, |slides|);
    }
  }
}
