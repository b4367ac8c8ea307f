/**
 * Moving through the deck: a jump to a slide number is ignored outside
 * 1..20, and the previous/next controls (buttons and arrow keys alike) step
 * one slide or, at the first and last slide, leave the deck for the intake
 * page or the help page.
 */
module Navigation {
  import Catalog

  /** Where a previous/next action takes the learner. */
  datatype Outcome =
    | InDeck(slide: int)  // still in the deck, now on this slide
    | ToIntro             // `window.location.href = 'index.html'`
    | ToHelp              // `window.location.href = 'help.html'`

  predicate InRange(n: int)
  {
    1 <= n <= Catalog.TotalSlides
  }

  /** The current slide after `goToSlide(n)` from `current`. */
  function GoTo(current: int, n: int): (next: int)
    ensures InRange(n) ==> next == n
    ensures !InRange(n) ==> next == current
    ensures InRange(current) ==> InRange(next)
  {
    if n < 1 || n > Catalog.TotalSlides then current else n
  }

  /** The previous control (button or ArrowLeft/ArrowUp). */
  function Back(current: int): (o: Outcome)
    ensures o == ToIntro <==> current <= 1
    ensures o.InDeck? ==> o.slide == GoTo(current, current - 1)
    ensures o != ToHelp
  {
    if current <= 1 then ToIntro else InDeck(GoTo(current, current - 1))
  }

  /** The next control (button or ArrowRight/ArrowDown). */
  function Forward(current: int): (o: Outcome)
    ensures o == ToHelp <==> current >= Catalog.TotalSlides
    ensures o.InDeck? ==> o.slide == GoTo(current, current + 1)
    ensures o != ToIntro
  {
    if current >= Catalog.TotalSlides then ToHelp else InDeck(GoTo(current, current + 1))
  }

  /** Inside the deck, the previous and next controls move exactly one slide and stay in range. */
  lemma StepsByOne(current: int)
    requires InRange(current)
    ensures current > 1 ==> Back(current) == InDeck(current - 1) && InRange(current - 1)
    ensures current < Catalog.TotalSlides ==> Forward(current) == InDeck(current + 1) && InRange(current + 1)
  {
  }

  /** Next then previous returns to the starting slide, and so does previous then next. */
  lemma ForwardBackRoundTrip(current: int)
    requires InRange(current)
    ensures Forward(current).InDeck? ==> Back(Forward(current).slide) == InDeck(current)
    ensures Back(current).InDeck? ==> Forward(Back(current).slide) == InDeck(current)
  {
  }

  /** Pressing next `k` times from slide 1 visits slide `1 + k`, while `k` is below 20. */
  lemma {:induction false} WalkThroughDeck(k: nat)
    requires k < Catalog.TotalSlides
    ensures Walk(1, k) == InDeck(1 + k)
  {
    if k > 0 {
      WalkThroughDeck(k - 1);
    }
  }

  /** The twentieth press of next from slide 1 leaves the deck for the help page. */
  lemma LeavesForHelp()
    ensures Walk(1, Catalog.TotalSlides) == ToHelp
  {
    WalkThroughDeck(Catalog.TotalSlides - 1);
  }

  /** The position after `k` presses of next, starting from `current`. */
  function Walk(current: int, k: nat): Outcome
  {
    if k == 0 then InDeck(current)
    else
      match Walk(current, k - 1)
      case InDeck(s) => Forward(s)
      case other => other
  }
}
