/** The `ticking` flag that every scroll-driven effect of the page wraps
    around its recomputation: a scroll event requests a display-refresh
    callback only when none is pending, and the callback clears the flag when
    it runs.  The browser's own queue of requested callbacks is made explicit
    as `pending`, so that "at most one recomputation per refresh" can be
    stated and proved. */
module FrameScheduler {

  /** The flag of one effect together with the number of refresh callbacks
      the browser holds for that effect. */
  datatype Gate = Gate(ticking: bool, pending: nat)

  /** The state right after the effect is installed: `ticking = false` and no
      callback requested. */
  const Idle := Gate(false, 0)

  /** The flag mirrors the browser's queue: it is set exactly when one
      callback, and never more than one, is pending. */
  predicate Coherent(g: Gate) {
    g.pending <= 1 && (g.ticking <==> g.pending == 1)
  }

  /** The scroll listener: request a frame unless one is already pending. */
  function OnScroll(g: Gate): (r: Gate)
    ensures g.ticking ==> r == g
    ensures Coherent(g) ==> Coherent(r) && r.ticking && r.pending == 1
  {
    if !g.ticking then Gate(true, g.pending + 1) else g
  }

  /** One display refresh: the browser runs every pending callback, and each
      run ends with `ticking = false`. */
  function OnRefresh(g: Gate): (r: Gate)
    ensures r.pending == 0
    ensures Coherent(g) ==> r == Idle
  {
    if g.pending > 0 then Idle else g
  }

  /** The abstract events the browser delivers to one effect. */
  datatype FrameEvent = Scroll | Refresh

  /** How many times the effect's recomputation runs over a trace of events. */
  function Updates(g: Gate, es: seq<FrameEvent>): (r: nat)
    ensures Refreshes(es) == 0 ==> r == 0
    decreases |es|
  {
    if es == [] then 0
    else match es[0]
      case Scroll => Updates(OnScroll(g), es[1..])
      case Refresh => g.pending + Updates(OnRefresh(g), es[1..])
  }

  /** Reference count, independent of the flag: the number of refreshes that
      follow at least one scroll since the previous refresh (`dirty` says
      whether such a scroll is already outstanding). */
  function Bursts(dirty: bool, es: seq<FrameEvent>): nat
    decreases |es|
  {
    if es == [] then 0
    else match es[0]
      case Scroll => Bursts(true, es[1..])
      case Refresh => (if dirty then 1 else 0) + Bursts(false, es[1..])
  }

  /** Number of refreshes in a trace. */
  function Refreshes(es: seq<FrameEvent>): nat
    decreases |es|
  {
    if es == [] then 0
    else (if es[0] == Refresh then 1 else 0) + Refreshes(es[1..])
  }

  /** A burst of `n` scroll events. */
  function Scrolls(n: nat): (r: seq<FrameEvent>)
    ensures |r| == n
    ensures forall k :: 0 <= k < n ==> r[k] == Scroll
  {
    if n == 0 then [] else [Scroll] + Scrolls(n - 1)
  }

  /** The flag-based wrapper runs the recomputation exactly once per burst of
      scroll events, whatever the lengths and spacing of the bursts. */
  lemma {:induction false} UpdatesAreBursts(g: Gate, es: seq<FrameEvent>)
    requires Coherent(g)
    ensures Updates(g, es) == Bursts(g.ticking, es)
    decreases |es|
  {
    if es != [] {
      match es[0]
      case Scroll =>
        UpdatesAreBursts(OnScroll(g), es[1..]);
      case Refresh =>
        UpdatesAreBursts(OnRefresh(g), es[1..]);
    }
  }

  /** Never more than one recomputation per display refresh. */
  lemma {:induction false} AtMostOnePerRefresh(g: Gate, es: seq<FrameEvent>)
    requires Coherent(g)
    ensures Updates(g, es) <= Refreshes(es)
    decreases |es|
  {
    if es != [] {
      match es[0]
      case Scroll =>
        AtMostOnePerRefresh(OnScroll(g), es[1..]);
      case Refresh =>
        AtMostOnePerRefresh(OnRefresh(g), es[1..]);
    }
  }

  /** Any number of scroll events before one refresh yields one update if at
      least one scroll happened (or a frame was already pending), else none. */
  lemma {:induction false} BurstCoalesces(g: Gate, n: nat)
    requires Coherent(g)
    ensures Updates(g, Scrolls(n) + [Refresh]) == if n > 0 || g.ticking then 1 else 0
    decreases n
  {
    if n == 0 {
      assert Scrolls(0) + [Refresh] == [Refresh];
      assert Updates(OnRefresh(g), []) == 0;
    } else {
      var es := Scrolls(n) + [Refresh];
      assert es[0] == Scroll;
      assert es[1..] == Scrolls(n - 1) + [Refresh];
      BurstCoalesces(OnScroll(g), n - 1);
    }
  }

  /** The `ticking` wrapper of the two parallax effects: the recomputation
      reads the scroll offset when its frame runs.  `runs` records, in order,
      the offsets the recomputation ran with. */
  class FrameCoalescer {
    var ticking: bool
    var pending: nat
    var runs: seq<real>

    function State(): Gate
      reads this
    {
      Gate(ticking, pending)
    }

    predicate Valid()
      reads this
    {
      Coherent(State())
    }

    constructor ()
      ensures Valid() && State() == Idle && runs == []
    {
      ticking, pending, runs := false, 0, [];
    }

    /** A raw scroll event. */
    method Scroll()
      requires Valid()
      modifies this
      ensures Valid() && State() == OnScroll(old(State()))
      ensures ticking && pending == 1
      ensures runs == old(runs)
    {
      if !ticking {
        pending := pending + 1;  // requestAnimationFrame(update)
        ticking := true;
      }
    }

    /** A display refresh at which the page's scroll offset is `offset`. */
    method Frame(offset: real)
      requires Valid()
      modifies this
      ensures Valid() && State() == OnRefresh(old(State())) && State() == Idle
      ensures runs == old(runs) + (if old(ticking) then [offset] else [])
    {
      if pending > 0 {
        runs := runs + [offset];
        ticking := false;
        pending := pending - 1;
      }
    }
  }
}
