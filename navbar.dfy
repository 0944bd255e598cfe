/** The auto-hiding header of `initNavbar`: the `scroll-up` and
    `scroll-down` classes, the inline transform and `lastScroll`, updated by
    every scroll event. */
module Navbar {

  /** `header.style.transform`: untouched, `translate(-50%, -150%)` (hidden)
      or `translate(-50%, 0)` (shown). */
  datatype Transform = NoTransform | HiddenTransform | ShownTransform

  datatype HeaderState = HeaderState(scrollUp: bool, scrollDown: bool, transform: Transform, lastScroll: int)

  /** The page as loaded: neither class, no transform, `lastScroll = 0`. */
  const Initial := HeaderState(false, false, NoTransform, 0)

  /** The scroll handler on offset `y`. At the top (`y <= 0`) it only removes
      `scroll-up` and returns before `lastScroll` is updated. */
  function Step(s: HeaderState, y: int): HeaderState
  {
    if y <= 0 then s.(scrollUp := false)
    else if y > s.lastScroll && !s.scrollDown then HeaderState(false, true, HiddenTransform, y)
    else if y < s.lastScroll && s.scrollDown then HeaderState(true, false, ShownTransform, y)
    else s.(lastScroll := y)
  }

  /** A sequence of scroll events, first to last. */
  function Run(s: HeaderState, ys: seq<int>): HeaderState
    decreases |ys|
  {
    if ys == [] then s else Run(Step(s, ys[0]), ys[1..])
  }

  /** The two classes are exclusive, `scroll-down` goes with the hiding
      transform, and `scroll-up` with the showing one. */
  predicate Consistent(s: HeaderState)
  {
    !(s.scrollUp && s.scrollDown)
    && (s.scrollDown <==> s.transform == HiddenTransform)
    && (s.scrollUp ==> s.transform == ShownTransform)
  }

  lemma StepKeepsConsistent(s: HeaderState, y: int)
    requires Consistent(s)
    ensures Consistent(Step(s, y))
  {
  }

  /** From the loaded page, no scroll sequence puts both classes on the header. */
  lemma {:induction false} RunKeepsConsistent(s: HeaderState, ys: seq<int>)
    requires Consistent(s)
    ensures Consistent(Run(s, ys))
    ensures !(Run(s, ys).scrollUp && Run(s, ys).scrollDown)
    decreases |ys|
  {
    if ys != [] {
      StepKeepsConsistent(s, ys[0]);
      RunKeepsConsistent(Step(s, ys[0]), ys[1..]);
    }
  }

  lemma NeverBothClasses(ys: seq<int>)
    ensures !(Run(Initial, ys).scrollUp && Run(Initial, ys).scrollDown)
  {
    RunKeepsConsistent(Initial, ys);
  }

  /** At the top of the page only `scroll-up` goes; `scroll-down`, the
      transform and `lastScroll` stay as they were. */
  lemma TopOfPageOnlyClearsScrollUp(s: HeaderState, y: int)
    requires y <= 0
    ensures !Step(s, y).scrollUp
    ensures Step(s, y).scrollDown == s.scrollDown
    ensures Step(s, y).transform == s.transform && Step(s, y).lastScroll == s.lastScroll
  {
  }

  /** Below the top, scrolling further down leaves the header hidden,
      scrolling back up leaves it not hidden, and the offset is recorded. */
  lemma StepFollowsDirection(s: HeaderState, y: int)
    requires Consistent(s) && y > 0
    ensures Step(s, y).lastScroll == y
    ensures y > s.lastScroll ==> Step(s, y).scrollDown && Step(s, y).transform == HiddenTransform
    ensures y < s.lastScroll ==> !Step(s, y).scrollDown && Step(s, y).transform != HiddenTransform
  {
  }

  /** Offsets 0, 50, 100 hide the header; a lower offset then shows it. */
  lemma ScrollDownThenUp()
    ensures Run(Initial, [0, 50, 100]).scrollDown && !Run(Initial, [0, 50, 100]).scrollUp
    ensures Run(Initial, [0, 50, 100, 60]).scrollUp && !Run(Initial, [0, 50, 100, 60]).scrollDown
    ensures Run(Initial, [0, 50, 100, 60]).transform == ShownTransform
  {
  }

  /** Jumping from 100 straight to the top leaves the header hidden: the top
      branch does not clear `scroll-down` or the hiding transform. */
  lemma JumpToTopKeepsHeaderHidden()
    ensures Run(Initial, [100, 0]).scrollDown
    ensures Run(Initial, [100, 0]).transform == HiddenTransform
  {
  }

  /** `header` and the closure's `lastScroll`. */
  class Header {
    var scrollUp: bool
    var scrollDown: bool
    var transform: Transform
    var lastScroll: int

    function State(): HeaderState
      reads this
    {
      HeaderState(scrollUp, scrollDown, transform, lastScroll)
    }

    constructor ()
      ensures State() == Initial
    {
      scrollUp, scrollDown, transform, lastScroll := false, false, NoTransform, 0;
    }

    /** One `scroll` event at offset `currentScroll` (`window.pageYOffset`). */
    method OnScroll(currentScroll: int)
      modifies this
      ensures State() == Step(old(State()), currentScroll)
      ensures old(Consistent(State())) ==> Consistent(State())
    {
      if currentScroll <= 0 {
        scrollUp := false;
        return;
      }
      if currentScroll > lastScroll && !scrollDown {
        scrollUp := false;
        scrollDown := true;
        transform := HiddenTransform;
      } else if currentScroll < lastScroll && scrollDown {
        scrollDown := false;
        scrollUp := true;
        transform := ShownTransform;
      }
      lastScroll := currentScroll;
    }
  }
}
