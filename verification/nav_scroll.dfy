/** The navigation bar hides while the page scrolls down past its first 100 pixels
    and shows again otherwise. Scroll events are coalesced: the scroll
    listener requests an animation frame only when none is pending, and the
    frame callback, which reads the scroll offset current at that frame,
    clears the guard. A requested frame is counted in `pendingFrames`; the
    browser running it is a call of OnFrame / NavController.HandleNavScroll. */
module NavScroll {

  /** Offsets at or below this many pixels never hide the bar. */
  const HideThreshold := 100

  datatype Scroll = Scroll(lastScrollY: int, ticking: bool, hidden: bool, pendingFrames: nat)

  /** The guard is set exactly while one frame is pending (so never more than
      one is), and the bar is hidden only when the last offset is past 100. */
  predicate Valid(s: Scroll) {
    s.pendingFrames == (if s.ticking then 1 else 0) &&
    (s.hidden ==> s.lastScrollY > HideThreshold)
  }

  /** The scroll listener. */
  function OnScroll(s: Scroll): (r: Scroll)
    ensures r.ticking && r.lastScrollY == s.lastScrollY && r.hidden == s.hidden
    ensures r.pendingFrames == if s.ticking then s.pendingFrames else s.pendingFrames + 1
    ensures Valid(s) ==> Valid(r) && r.pendingFrames == 1
  {
    if !s.ticking then s.(pendingFrames := s.pendingFrames + 1, ticking := true) else s
  }

  /** The frame callback, run with the scroll offset at that frame. */
  function OnFrame(s: Scroll, current: int): (r: Scroll)
    requires s.pendingFrames > 0
    ensures current > s.lastScrollY && current > HideThreshold ==> r.hidden
    ensures current <= s.lastScrollY ==> !r.hidden
    ensures current <= HideThreshold ==> !r.hidden
    ensures r.lastScrollY == current && !r.ticking && r.pendingFrames == s.pendingFrames - 1
    ensures Valid(s) ==> Valid(r) && r.pendingFrames == 0
  {
    Scroll(current, false, current > s.lastScrollY && current > HideThreshold, s.pendingFrames - 1)
  }

  /** What reaches the page: a scroll event, or an animation frame with the
      scroll offset current at that frame. */
  datatype Event = ScrollEvent | Frame(scrollY: int)

  /** The page after a run of events. A frame with no callback requested
      runs nothing. */
  function Replay(s: Scroll, events: seq<Event>): Scroll
    decreases |events|
  {
    if events == [] then s
    else
      var next := match events[0]
        case ScrollEvent => OnScroll(s)
        case Frame(y) => if s.pendingFrames > 0 then OnFrame(s, y) else s;
      Replay(next, events[1..])
  }

  function ScrollCount(events: seq<Event>): nat {
    if events == [] then 0 else (if events[0].ScrollEvent? then 1 else 0) + ScrollCount(events[1..])
  }

  /** How many frame callbacks a run of events executes. */
  function CallbacksRun(s: Scroll, events: seq<Event>): nat
    decreases |events|
  {
    if events == [] then 0
    else match events[0]
      case ScrollEvent => CallbacksRun(OnScroll(s), events[1..])
      case Frame(y) =>
        if s.pendingFrames > 0 then 1 + CallbacksRun(OnFrame(s, y), events[1..])
        else CallbacksRun(s, events[1..])
  }

  /** Whatever the events, at most one frame is ever pending and a hidden bar
      means the last offset is past 100. */
  lemma {:induction false} ReplayKeepsValid(s: Scroll, events: seq<Event>)
    requires Valid(s)
    ensures Valid(Replay(s, events)) && Replay(s, events).pendingFrames <= 1
    decreases |events|
  {
    if events != [] {
      match events[0]
      case ScrollEvent =>
        ReplayKeepsValid(OnScroll(s), events[1..]);
      case Frame(y) =>
        if s.pendingFrames > 0 {
          ReplayKeepsValid(OnFrame(s, y), events[1..]);
        } else {
          ReplayKeepsValid(s, events[1..]);
        }
    }
  }

  /** No frame callback runs without a scroll event having requested it:
      callbacks run, plus those still pending, never outnumber the scroll
      events plus those pending at the start. */
  lemma {:induction false} CallbacksCoalesce(s: Scroll, events: seq<Event>)
    ensures CallbacksRun(s, events) + Replay(s, events).pendingFrames
      <= ScrollCount(events) + s.pendingFrames
    decreases |events|
  {
    if events != [] {
      match events[0]
      case ScrollEvent =>
        CallbacksCoalesce(OnScroll(s), events[1..]);
      case Frame(y) =>
        if s.pendingFrames > 0 {
          CallbacksCoalesce(OnFrame(s, y), events[1..]);
        } else {
          CallbacksCoalesce(s, events[1..]);
        }
    }
  }

  /** What the guard adds: a burst of scroll events with no frame between
      them, however long, leaves exactly one frame pending, so the next
      frame runs one callback for the whole burst. */
  lemma {:induction false} ScrollBurstCoalesces(s: Scroll, events: seq<Event>)
    requires Valid(s)
    requires |events| > 0 && forall k :: 0 <= k < |events| ==> events[k] == ScrollEvent
    ensures Replay(s, events).pendingFrames == 1 && Replay(s, events).ticking
    decreases |events|
  {
    if |events| > 1 {
      ScrollBurstCoalesces(OnScroll(s), events[1..]);
    }
  }

  /** The two callbacks and the variables they share. */
  class NavController {
    var lastScrollY: int
    var ticking: bool
    /** Whether the bar carries the hidden class. */
    var hidden: bool
    /** Frame callbacks requested and not yet run. */
    var pendingFrames: nat

    function State(): Scroll
      reads this
    {
      Scroll(lastScrollY, ticking, hidden, pendingFrames)
    }

    constructor (initialScrollY: int)
      ensures State() == Scroll(initialScrollY, false, false, 0) && Valid(State())
    {
      lastScrollY := initialScrollY;
      ticking := false;
      hidden := false;
      pendingFrames := 0;
    }

    /** The scroll listener: request a frame unless one is pending. */
    method HandleScroll()
      modifies this
      ensures State() == OnScroll(old(State()))
      ensures old(Valid(State())) ==> Valid(State()) && pendingFrames == 1
    {
      if !ticking {
        pendingFrames := pendingFrames + 1;
        ticking := true;
      }
    }

    /** handleNavScroll, run by the browser as the requested frame. */
    method HandleNavScroll(currentScrollY: int)
      requires pendingFrames > 0
      modifies this
      ensures State() == OnFrame(old(State()), currentScrollY)
      ensures hidden <==> currentScrollY > old(lastScrollY) && currentScrollY > HideThreshold
      ensures old(Valid(State())) ==> Valid(State()) && pendingFrames == 0
    {
      pendingFrames := pendingFrames - 1;
      if currentScrollY > lastScrollY && currentScrollY > HideThreshold {
        hidden := true;
      } else {
        hidden := false;
      }
      lastScrollY := currentScrollY;
      ticking := false;
    }
  }
}
