/** The sticky header and the scroll-to-top button: threshold decisions on
    the page's vertical scroll offset, made by two listeners of the same
    scroll event.  The header's frame callback
    (`updateHeader`) remembers the offset it last saw, `lastScrollTop`, to
    tell scrolling down from scrolling up; it is scheduled through the
    `ticking` flag of FrameScheduler. */
module StickyHeader {
  import opened Options
  import opened FrameScheduler

  /** Above this offset the header takes its opaque, shadowed style. */
  const ScrolledThreshold: real := 100.0
  /** Above this offset, while scrolling down, the header slides out of view. */
  const HideThreshold: real := 200.0
  /** Above this offset the scroll-to-top button is shown. */
  const ScrollTopThreshold: real := 300.0

  /** The two style decisions `updateHeader` writes: the "scrolled" style set
      (background, shadow, blur) and the hiding transform. */
  datatype HeaderLook = HeaderLook(scrolled: bool, hidden: bool)

  /** What one run of `updateHeader` applies when the offset is `offset` and
      the previous run saw `last`. */
  function Look(offset: real, last: real): (r: HeaderLook)
    ensures r.hidden ==> r.scrolled
    ensures offset <= last ==> !r.hidden
    ensures offset <= HideThreshold ==> !r.hidden
  {
    HeaderLook(offset > ScrolledThreshold, offset > last && offset > HideThreshold)
  }

  /** Visibility of the scroll-to-top button for an offset; its listener
      re-evaluates it from `window.pageYOffset` on every scroll event,
      without a frame flag. */
  function ScrollTopVisible(offset: real): bool {
    offset > ScrollTopThreshold
  }

  /** The looks applied by successive runs of `updateHeader` that read the
      offsets `ys`, the first run seeing `lastScrollTop = last`; each run
      stores the offset it read as the next run's `lastScrollTop`. */
  function Looks(ys: seq<real>, last: real): (r: seq<HeaderLook>)
    ensures |r| == |ys|
    decreases |ys|
  {
    if ys == [] then [] else [Look(ys[0], last)] + Looks(ys[1..], ys[0])
  }

  /** Run `k` decides from its own offset and the offset of run `k - 1` (the
      initial `lastScrollTop` for the first run): the header is hidden
      exactly when the offset grew since the previous run and exceeds 200,
      and has its scrolled style exactly when the offset exceeds 100. */
  lemma {:induction false} LooksAt(ys: seq<real>, last: real, k: nat)
    requires k < |ys|
    ensures Looks(ys, last)[k].hidden <==> ys[k] > (if k == 0 then last else ys[k - 1]) && ys[k] > HideThreshold
    ensures Looks(ys, last)[k].scrolled <==> ys[k] > ScrolledThreshold
    decreases k
  {
    if k > 0 {
      LooksAt(ys[1..], ys[0], k - 1);
    }
  }

  /** Scrolling steadily down from the top of the page (`lastScrollTop`
      starts at 0): every run past the 200 threshold hides the header. */
  lemma {:induction false} DescentHides(ys: seq<real>, k: nat)
    requires forall j :: 0 < j < |ys| ==> ys[j - 1] < ys[j]
    requires k < |ys| && ys[k] > HideThreshold
    ensures Looks(ys, 0.0)[k].hidden
  {
    LooksAt(ys, 0.0, k);
  }

  /** Any run that reads an offset not above the previous one shows the
      header again. */
  lemma {:induction false} AscentShows(ys: seq<real>, last: real, k: nat)
    requires 0 < k < |ys| && ys[k] <= ys[k - 1]
    ensures !Looks(ys, last)[k].hidden
  {
    LooksAt(ys, last, k);
  }

  /** The page's two scroll listeners together: the window's scroll offset,
      the button's visibility, the header's frame gate and `lastScrollTop`,
      and the header look last applied (`None` until the first frame runs:
      until then the stylesheet decides). */
  datatype Page = Page(offset: real, buttonVisible: bool, gate: Gate, lastScrollTop: real, look: Option<HeaderLook>)

  /** The page when `initStickyHeader` runs, on DOMContentLoaded: the window
      is at offset `y`, the header's gate is idle with `lastScrollTop = 0`
      and no look applied.  The button's listener has been live since the
      script itself ran, so scroll events during loading (a fragment jump,
      scroll restoration) may already have shown the button: its visibility
      is whatever those events left. */
  function Installed(y: real, buttonVisible: bool): Page {
    Page(y, buttonVisible, Idle, 0.0, None)
  }

  /** The button is never shown at or below 300; once no header frame is
      pending, the header's style reflects the current offset, and before
      the first frame the button has not been shown. */
  predicate PageCoherent(p: Page) {
    Coherent(p.gate)
    && (p.buttonVisible ==> ScrollTopVisible(p.offset))
    && (!p.gate.ticking && p.look.Some? ==> (p.look.value.scrolled <==> p.offset > ScrolledThreshold))
    && (!p.gate.ticking && p.look.None? ==> !p.buttonVisible)
  }

  /** The window scrolled to `y` and fires `scroll`: the button listener
      shows the button exactly when `y > 300`, at once; the header listener
      only requests a frame, so the header's look is not touched yet.  From
      any coherent gate this makes the page coherent, whatever the button
      showed before. */
  function ScrollTo(p: Page, y: real): (r: Page)
    ensures r.offset == y && (r.buttonVisible <==> y > ScrollTopThreshold)
    ensures r.lastScrollTop == p.lastScrollTop && r.look == p.look
    ensures Coherent(p.gate) ==> r.gate.ticking && r.gate.pending == 1
    ensures Coherent(p.gate) ==> PageCoherent(r)
  {
    Page(y, ScrollTopVisible(y), OnScroll(p.gate), p.lastScrollTop, p.look)
  }

  /** The offset changes to `y` without a scroll event being dispatched yet:
      `smoothScrollTo`'s frame callback calls `window.scrollTo`, and the
      scroll event for it comes with a later rendering update, so a header
      frame run in between reads `y` while the button still shows the
      previous decision. */
  function MoveTo(p: Page, y: real): (r: Page)
    ensures r.offset == y
    ensures r.buttonVisible == p.buttonVisible && r.gate == p.gate
    ensures r.lastScrollTop == p.lastScrollTop && r.look == p.look
  {
    Page(y, p.buttonVisible, p.gate, p.lastScrollTop, p.look)
  }

  /** A display refresh: the pending `updateHeader`, if any, runs with the
      current offset, applies `Look` and stores the offset in
      `lastScrollTop`; the button is not touched. */
  function Repaint(p: Page): (r: Page)
    ensures r.offset == p.offset && r.buttonVisible == p.buttonVisible
    ensures p.gate.pending > 0 ==> r.look == Some(Look(p.offset, p.lastScrollTop)) && r.lastScrollTop == p.offset
    ensures p.gate.pending == 0 ==> r == p
    ensures Coherent(p.gate) ==> r.gate == Idle
    ensures PageCoherent(p) ==> PageCoherent(r)
  {
    if p.gate.pending > 0 then
      Page(p.offset, p.buttonVisible, OnRefresh(p.gate), p.offset, Some(Look(p.offset, p.lastScrollTop)))
    else p
  }

  datatype PageEvent = ScrolledTo(y: real) | MovedTo(y: real) | Repainted

  /** The trace has no offset change whose scroll event is still to come. */
  predicate Announced(es: seq<PageEvent>) {
    forall j :: 0 <= j < |es| ==> !es[j].MovedTo?
  }

  /** The page after a trace of scroll events, unannounced offset changes
      and display refreshes. */
  function AfterEvents(p: Page, es: seq<PageEvent>): (r: Page)
    ensures Coherent(p.gate) ==> Coherent(r.gate)
    ensures PageCoherent(p) && Announced(es) ==> PageCoherent(r)
    decreases |es|
  {
    if es == [] then p
    else
      assert Announced(es) ==> Announced(es[1..]) by {
        if Announced(es) {
          forall j | 0 <= j < |es[1..]| ensures !es[1..][j].MovedTo? {
            assert es[1..][j] == es[j + 1];
          }
        }
      }
      match es[0]
      case ScrolledTo(y) => AfterEvents(ScrollTo(p, y), es[1..])
      case MovedTo(y) => AfterEvents(MoveTo(p, y), es[1..])
      case Repainted => AfterEvents(Repaint(p), es[1..])
  }

  /** Running a trace in two parts. */
  lemma {:induction false} AfterEventsAppend(p: Page, es: seq<PageEvent>, fs: seq<PageEvent>)
    ensures AfterEvents(p, es + fs) == AfterEvents(AfterEvents(p, es), fs)
    decreases |es|
  {
    if es == [] {
      assert es + fs == fs;
    } else {
      assert (es + fs)[1..] == es[1..] + fs;
      match es[0]
      case ScrolledTo(y) => AfterEventsAppend(ScrollTo(p, y), es[1..], fs);
      case MovedTo(y) => AfterEventsAppend(MoveTo(p, y), es[1..], fs);
      case Repainted => AfterEventsAppend(Repaint(p), es[1..], fs);
    }
  }

  /** Once a scroll event has reached both listeners, and no offset change
      after it is still unannounced, a visible scroll-to-top button goes with
      the header's scrolled style whenever no header frame is pending:
      whatever the offset and button state at installation, and whatever the
      direction of scrolling. */
  lemma ButtonImpliesScrolledStyle(y: real, b: bool, es: seq<PageEvent>, k: nat)
    requires k < |es| && es[k].ScrolledTo?
    requires Announced(es[k + 1..])
    ensures var p := AfterEvents(Installed(y, b), es);
      !p.gate.ticking && p.buttonVisible ==> p.look.Some? && p.look.value.scrolled
  {
    var start := Installed(y, b);
    assert es[..k] + es[k..] == es;
    AfterEventsAppend(start, es[..k], es[k..]);
    var pre := AfterEvents(start, es[..k]);
    assert es[k..][0] == es[k] && es[k..][1..] == es[k + 1..];
    assert PageCoherent(ScrollTo(pre, es[k].y));
  }

  /** Without a scroll event since installation the implication can fail:
      a button shown during loading sits beside a header that has no look
      yet.  The first scroll event and its refresh bring them together. */
  lemma InstallGap()
    ensures var p := Installed(400.0, true);
      !p.gate.ticking && p.buttonVisible && p.look.None?
    ensures var q := AfterEvents(Installed(400.0, true), [ScrolledTo(400.0), Repainted]);
      !q.gate.ticking && q.buttonVisible && q.look == Some(HeaderLook(true, true))
  {
  }

  /** An unannounced offset change before the header's frame breaks the
      implication until its scroll event arrives: the frame reads 50 while
      the button still shows the decision for 400. */
  lemma MoveGap()
    ensures var p := AfterEvents(Installed(0.0, false), [ScrolledTo(400.0), MovedTo(50.0), Repainted]);
      !p.gate.ticking && p.buttonVisible && p.look == Some(HeaderLook(false, false))
    ensures var q := AfterEvents(Installed(0.0, false), [ScrolledTo(400.0), MovedTo(50.0), Repainted, ScrolledTo(50.0), Repainted]);
      !q.gate.ticking && !q.buttonVisible && q.look == Some(HeaderLook(false, false))
  {
  }

  /** Between a scroll event and the refresh it schedules, the two can
      disagree: the button is already shown while the header still has the
      look of the previous frame (here, none). */
  lemma ButtonAheadOfHeader()
    ensures var p := AfterEvents(Installed(0.0, false), [ScrolledTo(400.0)]);
      p.buttonVisible && p.gate.ticking && p.look == None
    ensures AfterEvents(Installed(0.0, false), [ScrolledTo(400.0), Repainted]).look == Some(HeaderLook(true, true))
  {
  }

  /** A scroll to `y` followed by a refresh settles the page: no frame is
      pending, the header's look is `Look(y, lastScrollTop)` and the button
      is shown exactly when `y > 300`. */
  lemma ScrollThenRepaint(p: Page, y: real)
    requires Coherent(p.gate)
    ensures var q := Repaint(ScrollTo(p, y));
      !q.gate.ticking && q.look == Some(Look(y, p.lastScrollTop)) && q.lastScrollTop == y
      && (q.buttonVisible <==> y > ScrollTopThreshold) && PageCoherent(q)
  {
  }

  /** The page's scroll listeners: the scroll-to-top button and the header
      effect with its directional memory, its frame flag and the browser's
      pending callbacks.  `offset` is the window's scroll offset; `settled`
      records that a scroll event has reached both listeners since
      installation and no offset change since is unannounced. */
  class Header {
    var offset: real
    var buttonVisible: bool
    var lastScrollTop: real
    var ticking: bool
    var pending: nat
    var look: Option<HeaderLook>
    ghost var settled: bool

    function State(): Page
      reads this
    {
      Page(offset, buttonVisible, Gate(ticking, pending), lastScrollTop, look)
    }

    ghost predicate Valid()
      reads this
    {
      Coherent(State().gate) && (settled ==> PageCoherent(State()))
    }

    /** `initStickyHeader` on a page at offset `y` whose button listener has
        left the button showing `buttonVisible`. */
    constructor (y: real, buttonVisible: bool)
      ensures Valid() && State() == Installed(y, buttonVisible) && !settled
    {
      offset, this.buttonVisible := y, buttonVisible;
      lastScrollTop, ticking, pending, look := 0.0, false, 0, None;
      settled := false;
    }

    /** The window scrolled to `y` and fires `scroll`: both listeners run. */
    method Scroll(y: real)
      requires Valid()
      modifies this
      ensures Valid() && State() == ScrollTo(old(State()), y) && settled
      ensures ticking && pending == 1
    {
      offset := y;
      buttonVisible := y > ScrollTopThreshold;  // the scroll-to-top listener
      if !ticking {
        pending := pending + 1;  // requestAnimationFrame(updateHeader)
        ticking := true;
      }
      settled := true;
    }

    /** `window.scrollTo(0, y)` from another frame callback; its scroll
        event comes later. */
    method Move(y: real)
      requires Valid()
      modifies this
      ensures Valid() && State() == MoveTo(old(State()), y) && !settled
    {
      offset := y;
      settled := false;
    }

    /** A display refresh: the pending `updateHeader`, if any, runs. */
    method Frame()
      requires Valid()
      modifies this
      ensures Valid() && State() == Repaint(old(State())) && !ticking && pending == 0
      ensures settled == old(settled)
      ensures settled ==> (buttonVisible ==> look.Some? && look.value.scrolled)
    {
      if pending > 0 {
        UpdateHeader();
        pending := pending - 1;
      }
    }

    /** `updateHeader`, reading the current offset. */
    method UpdateHeader()
      modifies this
      ensures look == Some(HeaderLook(offset > ScrolledThreshold, offset > old(lastScrollTop) && offset > HideThreshold))
      ensures lastScrollTop == offset && !ticking
      ensures offset == old(offset) && buttonVisible == old(buttonVisible) && pending == old(pending)
      ensures settled == old(settled)
    {
      var scrollTop := offset;
      var scrolled := scrollTop > ScrolledThreshold;
      var hidden := scrollTop > lastScrollTop && scrollTop > HideThreshold;
      look := Some(HeaderLook(scrolled, hidden));
      lastScrollTop := scrollTop;
      ticking := false;
    }
  }
}
