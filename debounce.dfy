/** `debounce(func, wait)`: every call cancels the wrapper's pending timer
    (`clearTimeout(timeout)`) and starts a new one carrying that call's
    arguments; when a timer fires it clears `timeout` and applies `func` to
    the arguments it carries.  The browser's timer table is made explicit:
    `live` maps the id of every timer not yet fired or cancelled to the
    arguments its callback captured, and `nextId` is the id the next
    `setTimeout` returns. */
module Debouncing {
  import opened Options

  datatype DebounceState<A> = DebounceState(timeout: Option<nat>, live: map<nat, A>, nextId: nat)

  /** `let timeout;` before any call: no timer. */
  function Start<A>(): DebounceState<A> {
    DebounceState(None, map[], 0)
  }

  /** The set holding only the id in `timeout`, if there is one. */
  function Handle<A>(s: DebounceState<A>): set<nat> {
    if s.timeout.Some? then {s.timeout.value} else {}
  }

  /** The only timer that can be live is the one `timeout` names, and ids
      handed out so far are below `nextId`. */
  predicate Coherent<A>(s: DebounceState<A>) {
    s.live.Keys <= Handle(s) && (s.timeout.Some? ==> s.timeout.value < s.nextId)
  }

  /** A call with arguments `a`: cancel the timer `timeout` names, start a
      new one carrying `a`.  Afterwards exactly one timer is pending, and it
      carries the latest arguments. */
  function OnCall<A>(s: DebounceState<A>, a: A): (r: DebounceState<A>)
    ensures Coherent(s) ==> Coherent(r) && r.timeout.Some? && r.live == map[r.timeout.value := a]
  {
    var id := s.nextId;
    DebounceState(Some(id), (s.live - Handle(s))[id := a], id + 1)
  }

  /** What `func` is applied to when the browser fires timer `id`: the
      arguments it carries if it is live, nothing if it was cancelled or has
      already fired. */
  function Fired<A>(s: DebounceState<A>, id: nat): (r: Option<A>)
    ensures r.Some? <==> id in s.live
  {
    if id in s.live then Some(s.live[id]) else None
  }

  /** The state after the browser fires timer `id`: the timer is gone, and
      the callback's `clearTimeout(timeout)` cancels the timer `timeout`
      names (the same one, in a coherent state). */
  function OnFire<A>(s: DebounceState<A>, id: nat): (r: DebounceState<A>)
    ensures Coherent(s) ==> Coherent(r)
    ensures Coherent(s) && id in s.live ==> r.live == map[]
    ensures id !in s.live ==> r == s
  {
    if id in s.live then DebounceState(s.timeout, s.live - {id} - Handle(s), s.nextId) else s
  }

  /** A coherent wrapper never has more than one pending timer. */
  lemma AtMostOnePending<A>(s: DebounceState<A>)
    requires Coherent(s)
    ensures |s.live| <= 1
  {
    assert |s.live| == |s.live.Keys|;
    if s.timeout.Some? {
      SubsetSize(s.live.Keys, {s.timeout.value});
    }
  }

  lemma SubsetSize(a: set<nat>, b: set<nat>)
    requires a <= b
    ensures |a| <= |b|
  {
    assert b == a + (b - a);
  }

  datatype Event<A> = Call(args: A) | Fire(id: nat)

  /** What firing timer `id` hands to `func`, as a sequence of at most one
      argument list. */
  function Delivery<A>(s: DebounceState<A>, id: nat): (r: seq<A>)
    ensures |r| <= 1 && (r != [] <==> id in s.live)
    ensures id in s.live ==> r == [s.live[id]]
  {
    match Fired(s, id)
    case Some(v) => [v]
    case None => []
  }

  function After<A>(s: DebounceState<A>, es: seq<Event<A>>): (r: DebounceState<A>)
    ensures Coherent(s) ==> Coherent(r)
    ensures s.nextId <= r.nextId
    decreases |es|
  {
    if es == [] then s
    else match es[0]
      case Call(a) => After(OnCall(s, a), es[1..])
      case Fire(id) => After(OnFire(s, id), es[1..])
  }

  /** Number of timer expiries in a trace. */
  function Expiries<A>(es: seq<Event<A>>): nat
    decreases |es|
  {
    if es == [] then 0
    else (if es[0].Fire? then 1 else 0) + Expiries(es[1..])
  }

  /** The arguments `func` is applied to over a trace, in order: at most one
      argument list per expiry, none for a call. */
  function Delivered<A>(s: DebounceState<A>, es: seq<Event<A>>): (r: seq<A>)
    ensures |r| <= Expiries(es)
    decreases |es|
  {
    if es == [] then []
    else match es[0]
      case Call(a) => Delivered(OnCall(s, a), es[1..])
      case Fire(id) =>
        Delivery(s, id) + Delivered(OnFire(s, id), es[1..])
  }

  /** A burst of calls. */
  function Calls<A>(args: seq<A>): (r: seq<Event<A>>)
    ensures |r| == |args|
    decreases |args|
  {
    if args == [] then [] else [Call(args[0])] + Calls(args[1..])
  }

  /** After a burst of calls, exactly one timer is pending: the one the last
      call started, carrying the last call's arguments; nothing has been
      delivered during the burst. */
  lemma {:induction false} BurstArmsLatest<A>(s: DebounceState<A>, args: seq<A>)
    requires Coherent(s) && args != []
    ensures Coherent(After(s, Calls(args)))
    ensures After(s, Calls(args)).timeout == Some(s.nextId + |args| - 1)
    ensures After(s, Calls(args)).live == map[s.nextId + |args| - 1 := args[|args| - 1]]
    ensures Delivered(s, Calls(args)) == []
    decreases |args|
  {
    assert Calls(args)[1..] == Calls(args[1..]);
    if |args| > 1 {
      BurstArmsLatest(OnCall(s, args[0]), args[1..]);
    }
  }

  /** Running a trace in two parts. */
  lemma {:induction false} DeliveredAppend<A>(s: DebounceState<A>, es: seq<Event<A>>, fs: seq<Event<A>>)
    ensures Delivered(s, es + fs) == Delivered(s, es) + Delivered(After(s, es), fs)
    decreases |es|
  {
    if es == [] {
      assert es + fs == fs;
    } else {
      assert (es + fs)[1..] == es[1..] + fs;
      match es[0]
      case Call(a) =>
        DeliveredAppend(OnCall(s, a), es[1..], fs);
      case Fire(id) =>
        DeliveredAppend(OnFire(s, id), es[1..], fs);
    }
  }

  /** A trace of one expiry delivers what that timer carries. */
  lemma DeliveredFire<A>(t: DebounceState<A>, id: nat)
    ensures Delivered(t, [Fire(id)]) == Delivery(t, id)
  {
  }

  /** With a single live timer `n` carrying `v`, only the expiry of `n`
      delivers, and it delivers `v`. */
  lemma {:induction false} DeliveryOfSingle<A>(t: DebounceState<A>, n: nat, v: A, id: nat)
    requires t.live == map[n := v]
    ensures Delivery(t, id) == if id == n then [v] else []
  {
  }

  /** A burst of calls followed by the expiry of the timer the last call
      started delivers the last call's arguments, once; the expiry of any
      other (cancelled) timer delivers nothing. */
  lemma {:induction false} BurstDeliversLatest<A>(s: DebounceState<A>, args: seq<A>, id: nat)
    requires Coherent(s) && args != []
    ensures Delivered(s, Calls(args) + [Fire(id)]) ==
      if id == s.nextId + |args| - 1 then [args[|args| - 1]] else []
  {
    var burst := Calls(args);
    BurstArmsLatest(s, args);
    var t := After(s, burst);
    DeliveryOfSingle(t, s.nextId + |args| - 1, args[|args| - 1], id);
    DeliveredFire(t, id);
    DeliveredAppend(s, burst, [Fire(id)]);
  }

  /** The wrapper returned by `debounce(func, wait)`, with the browser's
      timer table; `delivered` records the arguments `func` has been applied
      to. */
  class Debouncer<A> {
    var timeout: Option<nat>
    var live: map<nat, A>
    var nextId: nat
    var delivered: seq<A>

    function State(): DebounceState<A>
      reads this
    {
      DebounceState(timeout, live, nextId)
    }

    predicate Valid()
      reads this
    {
      Coherent(State())
    }

    constructor ()
      ensures Valid() && State() == Start() && delivered == []
    {
      timeout, live, nextId, delivered := None, map[], 0, [];
    }

    /** `executedFunction(...args)`. */
    method Call(args: A)
      requires Valid()
      modifies this
      ensures Valid() && State() == OnCall(old(State()), args)
      ensures live == map[timeout.value := args]
      ensures delivered == old(delivered)
    {
      if timeout.Some? {
        live := live - {timeout.value};  // clearTimeout(timeout)
      }
      live := live[nextId := args];      // timeout = setTimeout(later, wait)
      timeout := Some(nextId);
      nextId := nextId + 1;
    }

    /** The browser fires timer `id` (a stale id fires nothing). */
    method Fire(id: nat)
      requires Valid()
      modifies this
      ensures Valid() && State() == OnFire(old(State()), id)
      ensures delivered == old(delivered) + Delivery(old(State()), id)
    {
      if id in live {
        var args := live[id];
        live := live - {id};
        if timeout.Some? {
          live := live - {timeout.value};  // clearTimeout(timeout)
        }
        delivered := delivered + [args];   // func(...args)
      }
    }
  }
}
