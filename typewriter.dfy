/** The typewriter effect on a headline: its text is captured and emptied,
    then an interval adds `text.charAt(i)` on every tick and is cleared on
    the tick where the counter reaches the text's length. */
module Typewriter {

  /** The captured text, the element's current text, the counter `i` and
      whether the interval is still installed. */
  datatype Typing = Typing(text: string, shown: string, i: nat, running: bool)

  /** Right after setup: the element is emptied and the interval installed. */
  function Start(text: string): Typing {
    Typing(text, "", 0, true)
  }

  function Min(a: nat, b: nat): nat { if a <= b then a else b }
  function Max(a: nat, b: nat): nat { if a <= b then b else a }

  /** JavaScript's `charAt`: the character at `i` as a one-character string,
      or the empty string past the end. */
  function CharAt(s: string, i: nat): (r: string)
    ensures |r| == if i < |s| then 1 else 0
    ensures i < |s| ==> r[0] == s[i]
  {
    if i < |s| then [s[i]] else ""
  }

  /** One interval tick; a cleared interval no longer ticks. */
  function OnTick(t: Typing): (r: Typing)
    ensures r.text == t.text
    ensures t.running ==> r.i == t.i + 1 && r.shown == t.shown + CharAt(t.text, t.i)
    ensures !t.running ==> r == t
  {
    if !t.running then t
    else
      var i := t.i + 1;
      Typing(t.text, t.shown + CharAt(t.text, t.i), i, !(i >= |t.text|))
  }

  /** The state after `k` interval ticks. */
  function AfterTicks(t: Typing, k: nat): (r: Typing)
    ensures r.text == t.text && t.i <= r.i <= t.i + k
    ensures |t.shown| <= |r.shown| && r.shown[..|t.shown|] == t.shown
    decreases k
  {
    if k == 0 then t else OnTick(AfterTicks(t, k - 1))
  }

  /** After `k` ticks the element shows the first `min(k, |text|)` characters
      of the text, and the interval is still installed exactly while fewer
      than `max(1, |text|)` ticks have happened (an empty text still takes
      one tick, which appends the empty string). */
  lemma {:induction false} TypedAfter(text: string, k: nat)
    ensures AfterTicks(Start(text), k) ==
      Typing(text, text[..Min(k, |text|)], Min(k, Max(1, |text|)), k < Max(1, |text|))
    decreases k
  {
    if k > 0 {
      TypedAfter(text, k - 1);
      var prev := AfterTicks(Start(text), k - 1);
      if prev.running && k - 1 < |text| {
        assert text[..k - 1] + [text[k - 1]] == text[..k];
      }
    }
  }

  /** What is shown is always a prefix of the headline's text. */
  lemma {:induction false} ShownIsPrefix(text: string, k: nat)
    ensures var t := AfterTicks(Start(text), k); |t.shown| <= |text| && t.shown == text[..|t.shown|]
  {
    TypedAfter(text, k);
  }

  /** The interval is cleared on tick `max(1, |text|)`, with the whole text
      shown, and never earlier. */
  lemma {:induction false} ClearedOnLastTick(text: string)
    ensures !AfterTicks(Start(text), Max(1, |text|)).running
    ensures AfterTicks(Start(text), Max(1, |text|)).shown == text
    ensures forall k: nat :: k < Max(1, |text|) ==> AfterTicks(Start(text), k).running
  {
    TypedAfter(text, Max(1, |text|));
    assert text[..|text|] == text;
    forall k: nat | k < Max(1, |text|)
      ensures AfterTicks(Start(text), k).running
    {
      TypedAfter(text, k);
    }
  }

  /** One `.typewriter` element with its interval.  `ticks` counts the
      interval ticks delivered so far. */
  class Typewriter {
    const text: string
    var shown: string
    var i: nat
    var running: bool
    ghost var ticks: nat

    function State(): Typing
      reads this
    {
      Typing(text, shown, i, running)
    }

    ghost predicate Valid()
      reads this
    {
      State() == AfterTicks(Start(text), ticks)
    }

    /** Setup: capture the text, empty the element, install the interval. */
    constructor (content: string)
      ensures Valid() && State() == Start(content) && ticks == 0
    {
      text := content;
      shown := "";
      i := 0;
      running := true;
      ticks := 0;
    }

    /** One interval tick. */
    method Tick()
      requires Valid()
      modifies this
      ensures Valid() && ticks == old(ticks) + 1
      ensures State() == OnTick(old(State()))
      ensures shown == text[..Min(ticks, |text|)]
      ensures running <==> ticks < Max(1, |text|)
    {
      if running {
        shown := shown + CharAt(text, i);
        i := i + 1;
        if i >= |text| {
          running := false;  // clearInterval(typeInterval)
        }
      }
      ticks := ticks + 1;
      TypedAfter(text, ticks);
    }
  }
}
