/** `throttle(func, limit)`: the wrapper invokes `func` on a call only when
    its `inThrottle` flag is falsy, then sets the flag and starts a timer
    whose expiry clears it.  Calls made while the flag is set are dropped.
    The browser's timers are made explicit as the number still to fire. */
module Throttling {

  /** The wrapper's flag (initially `undefined`, which is falsy) and the
      number of expiry timers the browser still holds for it. */
  datatype ThrottleState = ThrottleState(inThrottle: bool, timers: nat)

  const Fresh := ThrottleState(false, 0)

  /** The flag is set exactly while one expiry timer, and no more, is
      pending. */
  predicate Coherent(s: ThrottleState) {
    s.timers == if s.inThrottle then 1 else 0
  }

  /** A call of the wrapper: admitted (forwarded to `func`) when the flag is
      clear.  Whatever happens, the flag is set afterwards: a call never
      clears it. */
  function OnCall(s: ThrottleState): (r: ThrottleState)
    ensures r.inThrottle
    ensures s.inThrottle ==> r == s
    ensures Coherent(s) ==> Coherent(r)
  {
    if !s.inThrottle then ThrottleState(true, s.timers + 1) else s
  }

  /** The browser fires one pending expiry timer, if there is one. */
  function OnTimer(s: ThrottleState): (r: ThrottleState)
    ensures Coherent(s) ==> Coherent(r) && !r.inThrottle
  {
    if s.timers > 0 then ThrottleState(false, s.timers - 1) else s
  }

  datatype Event<A> = Call(args: A) | TimerFires

  /** The arguments `func` is invoked with over a trace, in order. */
  function Invocations<A>(s: ThrottleState, es: seq<Event<A>>): (r: seq<A>)
    ensures |r| <= |CallArgs(es)|
    decreases |es|
  {
    if es == [] then []
    else match es[0]
      case Call(a) => (if s.inThrottle then [] else [a]) + Invocations(OnCall(s), es[1..])
      case TimerFires => Invocations(OnTimer(s), es[1..])
  }

  /** The arguments of the calls of a trace, in order. */
  function CallArgs<A>(es: seq<Event<A>>): seq<A>
    decreases |es|
  {
    if es == [] then []
    else match es[0]
      case Call(a) => [a] + CallArgs(es[1..])
      case TimerFires => CallArgs(es[1..])
  }

  /** Number of timer expiries in a trace. */
  function Expiries<A>(es: seq<Event<A>>): nat
    decreases |es|
  {
    if es == [] then 0
    else (if es[0].TimerFires? then 1 else 0) + Expiries(es[1..])
  }

  /** `xs` is `ys` with some elements deleted (order kept). */
  ghost predicate Subsequence<A>(xs: seq<A>, ys: seq<A>)
    decreases |ys|
  {
    if xs == [] then true
    else if ys == [] then false
    else (xs[0] == ys[0] && Subsequence(xs[1..], ys[1..])) || Subsequence(xs, ys[1..])
  }

  /** A burst of calls. */
  function Calls<A>(args: seq<A>): (r: seq<Event<A>>)
    ensures |r| == |args|
    ensures forall k :: 0 <= k < |args| ==> r[k] == Call(args[k])
    decreases |args|
  {
    if args == [] then [] else [Call(args[0])] + Calls(args[1..])
  }

  /** Dropped, never replayed: `func` sees a subsequence of the calls'
      arguments, each admitted call once and in the order of the calls; an
      expiry invokes nothing. */
  lemma {:induction false} NeverReplayed<A>(s: ThrottleState, es: seq<Event<A>>)
    ensures Subsequence(Invocations(s, es), CallArgs(es))
    decreases |es|
  {
    if es != [] {
      match es[0]
      case Call(a) =>
        NeverReplayed(OnCall(s), es[1..]);
        if s.inThrottle {
          assert Invocations(s, es) == Invocations(OnCall(s), es[1..]);
          SubsequenceCons(Invocations(OnCall(s), es[1..]), CallArgs(es[1..]), a);
        } else {
          assert Invocations(s, es) == [a] + Invocations(OnCall(s), es[1..]);
          assert ([a] + Invocations(OnCall(s), es[1..]))[1..] == Invocations(OnCall(s), es[1..]);
        }
      case TimerFires =>
        NeverReplayed(OnTimer(s), es[1..]);
    }
  }

  lemma {:induction false} SubsequenceCons<A>(xs: seq<A>, ys: seq<A>, y: A)
    requires Subsequence(xs, ys)
    ensures Subsequence(xs, [y] + ys)
  {
  }

  /** Of a burst of calls with no expiry between them, only the first is
      forwarded, and only if the flag was clear when the burst began. */
  lemma {:induction false} BurstForwardsFirstOnly<A>(s: ThrottleState, args: seq<A>)
    ensures Invocations(s, Calls(args)) == if s.inThrottle || args == [] then [] else [args[0]]
    decreases |args|
  {
    if args != [] {
      assert Calls(args)[1..] == Calls(args[1..]);
      AllDropped(OnCall(s), args[1..]);
    }
  }

  lemma {:induction false} AllDropped<A>(s: ThrottleState, args: seq<A>)
    requires s.inThrottle
    ensures Invocations(s, Calls(args)) == []
    decreases |args|
  {
    if args != [] {
      assert Calls(args)[1..] == Calls(args[1..]);
      AllDropped(OnCall(s), args[1..]);
    }
  }

  /** Only expiries re-open the gate: the number of forwarded calls is at
      most one more than the number of expiries (one fewer if the gate
      starts closed). */
  lemma {:induction false} RateBound<A>(s: ThrottleState, es: seq<Event<A>>)
    requires Coherent(s)
    ensures |Invocations(s, es)| <= Expiries(es) + (if s.inThrottle then 0 else 1)
    decreases |es|
  {
    if es != [] {
      match es[0]
      case Call(a) =>
        RateBound(OnCall(s), es[1..]);
      case TimerFires =>
        RateBound(OnTimer(s), es[1..]);
    }
  }

  /** The wrapper returned by `throttle(func, limit)`; `invoked` records the
      arguments `func` has been applied to. */
  class Throttle<A> {
    var inThrottle: bool
    var timers: nat
    var invoked: seq<A>

    function State(): ThrottleState
      reads this
    {
      ThrottleState(inThrottle, timers)
    }

    predicate Valid()
      reads this
    {
      Coherent(State())
    }

    constructor ()
      ensures Valid() && State() == Fresh && invoked == []
    {
      inThrottle, timers, invoked := false, 0, [];
    }

    /** One call of the wrapper with arguments `args`. */
    method Call(args: A)
      requires Valid()
      modifies this
      ensures Valid() && State() == OnCall(old(State()))
      ensures invoked == old(invoked) + if old(inThrottle) then [] else [args]
    {
      if !inThrottle {
        invoked := invoked + [args];  // func.apply(context, args)
        inThrottle := true;
        timers := timers + 1;         // setTimeout(() => inThrottle = false, limit)
      }
    }

    /** The browser fires the pending expiry timer, if any. */
    method TimerFires()
      requires Valid()
      modifies this
      ensures Valid() && State() == OnTimer(old(State())) && !inThrottle
      ensures invoked == old(invoked)
    {
      if timers > 0 {
        timers := timers - 1;
        inThrottle := false;
      }
    }
  }
}
