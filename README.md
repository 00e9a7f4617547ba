# Landing-page behaviour script: verified model of its state machines

`script.js` wires a marketing landing page to the browser. Most of it is DOM
construction and styling, but a few small state machines and decision rules
sit inside the event listeners. This project models them in Dafny, without the
browser, and proves what they promise:

- **FAQ accordion** (`initFAQAccordion`, and the Escape branch of
  `initAccessibility`). The panels are an `array<Panel>`. Each panel holds its
  `active` class, its question's `aria-expanded` attribute and its answer's
  `max-height`. `Click(i, scrollHeight)` closes every other open panel and
  then toggles panel `i`. `Escape()` closes the first open panel in document
  order. Proved: after a click, at most one panel is open (none if `i` was
  open, exactly `i` otherwise). A click or an Escape keeps `aria-expanded`
  mirroring `active`. Escape changes only the first open panel, and does
  nothing when none is open.
- **Frame coalescing** (the `ticking` flag in `initStickyHeader`,
  `initParallaxEffects` and `initAdvancedParallax`). The flag is modelled
  together with the browser's queue of requested frame callbacks. Proved:
  `ticking` is set exactly when one callback is pending, and never more than
  one is. The recomputation runs once per burst of scroll events and at most
  once per display refresh.
- **Sticky header and scroll-to-top button** (`updateHeader` and
  `createScrollToTopButton`). The scrolled style is applied above offset 100.
  The header is hidden when the offset grew since the previous frame and is
  above 200. `lastScrollTop` carries the offset from one frame to the next.
  The button is shown above 300, by its own scroll listener, at once, while the
  header waits for the frame its scroll event requests. Proved about a run of
  frames: each frame decides from its own offset and the previous frame's
  offset. Scrolling steadily down hides the header past 200, and any frame
  that does not scroll down shows it. The button's listener is installed when
  the script runs (script.js:476), the header's only on DOMContentLoaded
  (script.js:2-4), so the header starts beside a button that loading-time
  scroll events may already have shown. A `window.scrollTo` from
  `smoothScrollTo`'s frame callback can also move the offset before its
  scroll event is dispatched. Proved about the two listeners together: once a
  scroll event has reached both, and no offset change since is unannounced, a
  visible button goes with the header's scrolled style whenever no header
  frame is pending. Before that, or between a scroll event and its frame, the
  two can disagree, and concrete traces show each case.
- **`throttle`**: a call is forwarded to `func` exactly when the flag is clear.
  Proved: dropped calls are never replayed. `func` sees a subsequence of the
  calls. Only a timer expiry clears the flag, so the number of forwarded
  calls is at most one more than the number of expiries.
- **`debounce`**: the browser's timer table is explicit. Proved: at most one
  timer is ever pending, and it carries the arguments of the latest call. A
  burst of calls followed by that timer's expiry delivers the last arguments
  exactly once. The expiry of a cancelled timer delivers nothing.
- **Typewriter** (`initTypewriterEffect`). Proved: after `k` interval ticks
  the element shows the first `min(k, |text|)` characters. The interval is
  cleared on tick `max(1, |text|)` and not before.
- **Text reveal** (`initTextRevealAnimation`). Proved: there is one span per
  character, in order. A space becomes U+00A0 and every other character is
  unchanged. The callback does not check whether the element is still
  observed, so a batch holding several intersecting entries for one element
  rebuilds it once per entry; because the mapping is idempotent, the element
  always ends up holding the spans of its original text. On text without
  U+00A0 the mapping can be undone.

Browser events become method calls:
- `Scroll()`, `Frame(offset)`, `Scroll(y)`, `Move(y)`, `Frame()`, `Call(args)`,
  `TimerFires()`, `Fire(id)`, `Tick()`, `Entry(isIntersecting)` and
  `Callback(entries)`.
- Layout reads are state or parameters. The page's scroll offset is carried by
  each scroll event and read by the header's frame (`updateHeader` reads
  `window.pageYOffset || document.documentElement.scrollTop`; the model has a
  single offset for both). A parallax frame receives the offset it reads
  (`window.pageYOffset`). The answer's `scrollHeight` is a parameter of a
  click.

Each class method is tied to a pure step function: its new state is that
function of its old state. The lemmas are stated about those functions and
about traces of events.

Modules:
- `Options` (options.dfy)
- `FrameScheduler` (frame_scheduler.dfy)
- `StickyHeader` (sticky_header.dfy)
- `Accordion` (accordion.dfy)
- `Throttling` (throttle.dfy)
- `Debouncing` (debounce.dfy)
- `Typewriter` (typewriter.dfy)
- `TextReveal` (text_reveal.dfy)

## Model

| member | source | states |
|---|---|---|
| FrameScheduler.OnScroll | script.js:48-53 | a scroll while `ticking` changes nothing; from a coherent state, a scroll leaves `ticking` set with exactly one callback pending |
| FrameScheduler.OnRefresh | script.js:295-304 | after a refresh no callback is pending; from a coherent state the flag is clear again (`ticking = false` at the end of the callback) |
| FrameScheduler.Updates | script.js:295-311 | the number of recomputations over a trace of scroll events and refreshes; a trace without a refresh runs none |
| FrameScheduler.UpdatesAreBursts | script.js:306-311 | over any trace, the recomputation runs exactly as often as there are refreshes preceded by at least one scroll since the previous refresh |
| FrameScheduler.AtMostOnePerRefresh | script.js:714-719 | over any trace, the recomputation runs no more often than there are display refreshes |
| FrameScheduler.BurstCoalesces | script.js:48-53 | any number of scroll events before one refresh yields exactly one update if at least one scroll happened (or a frame was pending), else none |
| FrameScheduler.FrameCoalescer.constructor | script.js:293 | the parallax wrapper starts with `ticking = false`, no callback pending, no run |
| FrameScheduler.FrameCoalescer.Scroll | script.js:306-311 | a scroll requests a frame only when `ticking` is false; afterwards `ticking` is set with one callback pending |
| FrameScheduler.FrameCoalescer.Frame | script.js:702-712 | a refresh runs the pending parallax update once with the offset read then, records nothing if none was pending, and clears `ticking` |
| StickyHeader.Look | script.js:27-42 | the hiding transform is never applied without the scrolled style, never while scrolling up or staying put, never at or below 200 |
| StickyHeader.Looks | script.js:24-46 | one header look per frame run, each run passing its offset on as the next run's `lastScrollTop` |
| StickyHeader.LooksAt | script.js:24-46 | run k is hidden iff its offset exceeds the previous run's (the initial `lastScrollTop` for the first) and 200, and has the scrolled style iff its offset exceeds 100 |
| StickyHeader.DescentHides | script.js:38-44 | scrolling steadily down from `lastScrollTop = 0`, every run past 200 hides the header |
| StickyHeader.AscentShows | script.js:38-42 | any run whose offset is not above the previous run's shows the header |
| StickyHeader.ScrollTo | script.js:464-472 | a scroll event to y shows the button iff y > 300 at once and only requests the header's frame (look and `lastScrollTop` untouched, one callback pending); from any coherent gate the page is coherent afterwards |
| StickyHeader.Repaint | script.js:24-46 | a refresh with a pending callback applies `Look(offset, lastScrollTop)`, stores the offset and leaves the gate idle, button untouched; without one nothing changes; it keeps the page coherent |
| StickyHeader.MoveTo | script.js:89-90 | a programmatic `window.scrollTo` changes only the offset: button, gate, `lastScrollTop` and look are untouched until its scroll event |
| StickyHeader.AfterEvents | script.js:24-53 | any trace keeps the header's gate coherent; a trace without unannounced offset changes keeps the page coherent: button only above 300, header style matching the offset once no frame is pending |
| StickyHeader.AfterEventsAppend | script.js:24-53 | running a trace of page events in two parts gives the same page as running it whole |
| StickyHeader.ButtonImpliesScrolledStyle | script.js:464-472 | from any offset and button state at the header's installation, after any trace in which some scroll event is followed by no unannounced offset change, whenever no header frame is pending a visible button goes with the header's scrolled style |
| StickyHeader.InstallGap | script.js:476 | a button shown during loading sits beside a header with no look and no pending frame; one scroll event and its refresh give the scrolled look |
| StickyHeader.MoveGap | script.js:89-90 | a scroll to 400, an unannounced move to 50 and a refresh leave the button shown beside an unscrolled header; the move's own scroll event and refresh hide the button |
| StickyHeader.ButtonAheadOfHeader | script.js:464-472 | after a scroll to 400 from the top the button is shown while the header's frame is still pending with no look; the next refresh applies the scrolled, hidden look |
| StickyHeader.ScrollThenRepaint | script.js:24-53 | from any coherent gate, a scroll to y followed by a refresh settles the page: nothing pending, look `Look(y, lastScrollTop)`, `lastScrollTop = y`, button shown iff y > 300, page coherent |
| StickyHeader.Header.constructor | script.js:20-22 | `initStickyHeader` at offset y beside a button in whatever state loading left it: `lastScrollTop = 0`, `ticking = false`, no frame pending, no look applied yet, not yet settled |
| StickyHeader.Header.Scroll | script.js:48-53 | both scroll listeners run: the page state becomes `ScrollTo(old state, y)`, with exactly one header callback pending, and the page is settled |
| StickyHeader.Header.Move | script.js:89-90 | the page state becomes `MoveTo(old state, y)` and is no longer settled |
| StickyHeader.Header.Frame | script.js:24-53 | the page state becomes `Repaint(old state)`: nothing pending afterwards, and on a settled page a visible button goes with the scrolled style |
| StickyHeader.Header.UpdateHeader | script.js:24-46 | scrolled style iff offset > 100, hidden iff offset > `lastScrollTop` and > 200; then `lastScrollTop = offset` and `ticking = false`; offset, button and queue untouched |
| Accordion.AfterClick | script.js:111-136 | the click handler on panel i: every panel other than i ends closed, and i's `active` class is toggled |
| Accordion.ClickActiveSet | script.js:111-136 | after a click on panel i the set of open panels is empty if i was open and exactly {i} otherwise, so at most one panel is open |
| Accordion.ClickKeepsConsistent | script.js:115-135 | from a state where `aria-expanded` mirrors `active`, a click keeps it so; the opened answer gets its `scrollHeight`, closed ones 0; closed panels other than i are untouched |
| Accordion.ClickTwice | script.js:127-135 | two clicks on one question leave nothing open if it was closed, and only it open if it was open |
| Accordion.FirstActiveFrom | script.js:382 | the result is the lowest open index at or after the start, or none when no panel there is open |
| Accordion.FirstActive | script.js:382 | `querySelector('.faq-item.active')` finds nothing iff no panel is open, else the open panel with the lowest index |
| Accordion.AfterEscape | script.js:381-388 | the Escape key: no panel opens, and when some panel is open exactly one fewer is open afterwards |
| Accordion.EscapeWithoutOpenPanel | script.js:381-388 | Escape changes nothing when no panel is open |
| Accordion.EscapeClosesFirst | script.js:381-388 | when panel k is the first open panel in document order, Escape closes exactly it (not active, "false", height 0), leaves every other panel as it was, and removes k from the set of open panels |
| Accordion.EscapeKeepsConsistent | script.js:383-387 | Escape keeps `aria-expanded` mirroring `active`; when at most one panel is open (as after any click) it leaves none open |
| Accordion.FAQ.constructor | script.js:105 | the accordion holds the page's panels in document order |
| Accordion.FAQ.Click | script.js:111-136 | the in-place loop over the panels yields the clicked state: open set empty or {i}, consistency preserved |
| Accordion.FAQ.Escape | script.js:381-388 | the in-place update yields the Escape state and preserves consistency |
| Throttling.OnCall | script.js:502-506 | after any call the flag is set (a call never clears it); a call while the flag is set changes nothing |
| Throttling.OnTimer | script.js:505 | from a coherent state, the expiry of the timer clears the flag and leaves no timer pending |
| Throttling.Invocations | script.js:499-507 | the arguments `func` is applied to over a trace, never more lists than there were calls |
| Throttling.NeverReplayed | script.js:499-507 | the arguments `func` receives are a subsequence of the calls' arguments: dropped calls are never replayed, and an expiry invokes nothing |
| Throttling.BurstForwardsFirstOnly | script.js:502-506 | of a burst of calls without an expiry only the first is forwarded, and only if the flag was clear |
| Throttling.AllDropped | script.js:502 | while the flag is set, every call of a burst is dropped |
| Throttling.RateBound | script.js:497-508 | over any trace, forwarded calls are at most the expiries plus one (plus zero if the flag starts set) |
| Throttling.Throttle.constructor | script.js:498 | flag falsy, no timer, nothing invoked |
| Throttling.Throttle.Call | script.js:499-507 | `func` is applied to the arguments iff the flag was clear; the flag is set and one expiry timer started |
| Throttling.Throttle.TimerFires | script.js:505 | the expiry clears the flag and invokes nothing |
| Debouncing.OnCall | script.js:492-493 | from a coherent state, after a call exactly one timer is pending, it is the one `timeout` names, and it carries this call's arguments |
| Debouncing.Fired | script.js:488-491 | firing a timer delivers iff that timer is live |
| Debouncing.OnFire | script.js:488-491 | firing the live timer leaves no timer pending; firing a cancelled or already fired timer changes nothing |
| Debouncing.Delivery | script.js:488-491 | firing a timer delivers at most one argument list, that timer's own, and only if it is live |
| Debouncing.After | script.js:485-494 | the wrapper after a trace of calls and expiries: coherence is kept and timer ids only grow |
| Debouncing.Delivered | script.js:487-494 | the arguments `func` is applied to over a trace: at most one argument list per expiry, none for a call |
| Debouncing.AtMostOnePending | script.js:485-494 | a coherent debounce wrapper never has more than one pending timer |
| Debouncing.BurstArmsLatest | script.js:487-494 | after a burst of calls exactly one timer is pending, the last call's, carrying the last arguments; nothing was delivered |
| Debouncing.BurstDeliversLatest | script.js:485-494 | a burst followed by the last timer's expiry delivers the last arguments once; any other expiry delivers nothing |
| Debouncing.Debouncer.constructor | script.js:486 | no timer, nothing delivered |
| Debouncing.Debouncer.Call | script.js:487-494 | the previous timer is cancelled and one new timer carrying the arguments is the only live one |
| Debouncing.Debouncer.Fire | script.js:488-491 | a live timer's expiry delivers its arguments and leaves no timer; a stale id does nothing |
| Typewriter.CharAt | script.js:616 | `charAt` gives the character at i as a one-character string, or the empty string past the end |
| Typewriter.OnTick | script.js:615-625 | a running tick appends `charAt(i)` and advances i; a cleared interval does not tick |
| Typewriter.AfterTicks | script.js:615-625 | the state after k ticks: same text, counter advanced by at most k, the earlier shown text extended, never rewritten |
| Typewriter.TypedAfter | script.js:609-625 | after k ticks the element shows the first min(k, len(text)) characters, i = min(k, max(1, len(text))), and the interval runs iff k < max(1, len(text)) |
| Typewriter.ShownIsPrefix | script.js:616 | the shown text is always a prefix of the original text |
| Typewriter.ClearedOnLastTick | script.js:619-620 | the interval is cleared on tick max(1, len(text)) with the whole text shown, and runs on every earlier tick |
| Typewriter.Typewriter.constructor | script.js:610-614 | the text is captured, the element emptied, the counter 0, the interval installed |
| Typewriter.Typewriter.Tick | script.js:615-625 | each tick keeps the element showing the first min(ticks, len(text)) characters, running iff ticks < max(1, len(text)) |
| TextReveal.RevealChar | script.js:784 | a space becomes U+00A0, so a span never holds a plain space; every other character is kept |
| TextReveal.Spans | script.js:782-784 | one span per character of the text, in order, span k holding `RevealChar(text[k])` |
| TextReveal.RevealedText | script.js:779-793 | the revealed element's text has the original's length, character k being `RevealChar(text[k])` |
| TextReveal.RevealIdempotent | script.js:782-784 | revealing the revealed text again would build the same spans |
| TextReveal.Restore | script.js:784 | the inverse character map: U+00A0 back to a space, every other character kept |
| TextReveal.RestoreReveal | script.js:784 | for text without U+00A0, restoring the revealed text gives the original |
| TextReveal.Intersecting | script.js:777-778 | the number of intersecting entries in a batch: zero iff none intersects |
| TextReveal.RevealTarget.constructor | script.js:800 | the element is observed and holds its original text |
| TextReveal.RevealTarget.Entry | script.js:778-796 | an intersecting entry, whether or not the element is still observed, rebuilds it into the spans of its original text and unobserves it; a non-intersecting entry changes nothing |
| TextReveal.RevealTarget.Callback | script.js:776-797 | for a batch of entries, the loop rebuilds the element once per intersecting entry; if any intersects the element ends unobserved holding the spans of its original text, otherwise nothing changes |

## Left out

- Easing (`easeInOutCubic` in `smoothScrollTo`, `easeOutCubic` in the counter) and `Math.floor` in the counter: floating-point numerics.
- The parallax rates, magnetic offsets, cursor-follower and trail smoothing, and stagger and reveal delays: floating-point arithmetic over style strings. `FrameCoalescer.Frame` records the offset each parallax update reads but not the transform it computes.
- The scroll-progress and video progress ratios: floating-point values that depend on layout reads.
- `requestAnimationFrame`, `setTimeout`, `setInterval` and `IntersectionObserver`: these scheduling APIs are not modelled. Only the events they deliver are: a refresh, a timer expiry, an interval tick and an intersection entry. Timer durations (`limit`, `wait`, 50 ms, 1000 ms) and the 0.5 visibility threshold are not modelled. Timer order does not matter to the properties, because at most one timer per wrapper is ever pending.
- `animateFollower` and `animateTrail`: infinite loops over layout reads and float smoothing.
- The analytics stub, performance logging, loader and scroll-to-top markup, the screen-reader announcer's DOM node, `smoothScrollTo`'s `window.scrollTo` calls, and video play/pause: I/O, logging or DOM construction.
- The element styles themselves: a header look is the pair of decisions (scrolled style, hiding transform) rather than the CSS strings. The typewriter caret border and its removal are not modelled.
- `this`/`context` in `throttle` and the identity of `func`: the model records the argument lists passed to `func`.
- Throttling.Throttle.Call: `func` is assumed to return normally and not to call the wrapper again. The source applies `func` before it sets `inThrottle` and starts the timer. If `func` throws, the flag stays clear and no timer starts, so later calls are forwarded too. If `func` calls the wrapper, that nested call is forwarded as well. In both cases `RateBound` does not hold.
- Missing elements (`getElementById` or `querySelector` returning null): the source throws; the model assumes every element exists.
- StickyHeader.Header.UpdateHeader: without a `#header` element, `updateHeader` throws at `header.style` before `ticking = false`. The flag then stays set and the header is never scheduled again. The model always has the header.
- Strings are sequences of Unicode scalar values. JavaScript's `split('')`, `charAt` and `length` work on UTF-16 code units, so text outside the Basic Multilingual Plane is counted differently.
- Scroll offsets are `real`: numbers compared with the 100, 200 and 300 thresholds. NaN and infinities are not modelled.
- Text reveal is modelled per element. A batch's entries for other elements are not modelled, because each element is handled independently. The animation restart caused by a repeated rebuild is counted (`revealCount`) but its timing is not modelled.
