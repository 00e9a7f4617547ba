/** The character-by-character text reveal: when a `.reveal-text` element
    first comes into view, its text is replaced by one span per
    character (a space becoming a no-break space, so that the inline-block
    span keeps its width), and the element is no longer observed. */
module TextReveal {

  /** U+00A0 NO-BREAK SPACE. */
  const NoBreakSpace: char := '\U{00A0}'

  /** The content of the span made for one character. */
  function RevealChar(c: char): (r: char)
    ensures r != ' '
    ensures c == ' ' ==> r == NoBreakSpace
    ensures c != ' ' ==> r == c
  {
    if c == ' ' then NoBreakSpace else c
  }

  /** `text.split('')` mapped to span contents. */
  function Spans(text: string): (r: seq<string>)
    ensures |r| == |text|
    ensures forall k :: 0 <= k < |text| ==> r[k] == [RevealChar(text[k])]
    decreases |text|
  {
    if text == [] then [] else [[RevealChar(text[0])]] + Spans(text[1..])
  }

  /** The element's `textContent` once the spans are its children. */
  function Concat(spans: seq<string>): string
    decreases |spans|
  {
    if spans == [] then "" else spans[0] + Concat(spans[1..])
  }

  /** Reading a revealed element's text back: one character per character of
      the original, each passed through `RevealChar`, so no plain space
      remains. */
  lemma {:induction false} RevealedText(text: string)
    ensures |Concat(Spans(text))| == |text|
    ensures forall k :: 0 <= k < |text| ==> Concat(Spans(text))[k] == RevealChar(text[k])
    decreases |text|
  {
    if text != [] {
      RevealedText(text[1..]);
      assert Spans(text)[1..] == Spans(text[1..]);
    }
  }

  /** Revealing an already revealed element would build the same spans
      again: the mapping is idempotent on the element's text. */
  lemma {:induction false} RevealIdempotent(text: string)
    ensures Spans(Concat(Spans(text))) == Spans(text)
  {
    RevealedText(text);
  }

  /** The inverse mapping: a no-break space back to a space. */
  function Restore(s: string): (r: string)
    ensures |r| == |s|
    ensures forall k :: 0 <= k < |s| ==> r[k] == if s[k] == NoBreakSpace then ' ' else s[k]
    decreases |s|
  {
    if s == [] then "" else [if s[0] == NoBreakSpace then ' ' else s[0]] + Restore(s[1..])
  }

  /** For a text without no-break spaces of its own, restoring the revealed
      text gives the original back. */
  lemma {:induction false} RestoreReveal(text: string)
    requires NoBreakSpace !in text
    ensures Restore(Concat(Spans(text))) == text
  {
    RevealedText(text);
    var r := Restore(Concat(Spans(text)));
    assert forall k :: 0 <= k < |text| ==> r[k] == text[k];
  }

  /** The number of intersecting entries in a batch. */
  function Intersecting(entries: seq<bool>): (r: nat)
    ensures r <= |entries|
    ensures r == 0 <==> true !in entries
    decreases |entries|
  {
    if entries == [] then 0
    else Intersecting(entries[..|entries| - 1]) + (if entries[|entries| - 1] then 1 else 0)
  }

  /** One `.reveal-text` element holding the text `original` when the page
      loaded, and the observer's registration for it.  `revealCount` counts
      the times the element's content was rebuilt (each restarting the
      character animation). */
  class RevealTarget {
    ghost const original: string
    var textContent: string
    var spans: seq<string>
    var observed: bool
    ghost var revealCount: nat

    /** Until the first reveal the element is observed and untouched; from
        then on it is unobserved and holds the spans of its original text. */
    ghost predicate Valid()
      reads this
    {
      if revealCount == 0 then observed && textContent == original && spans == []
      else !observed && spans == Spans(original) && textContent == Concat(spans)
    }

    /** `textObserver.observe(el)` on an element holding `text`. */
    constructor (text: string)
      ensures Valid() && original == text && textContent == text && spans == [] && observed && revealCount == 0
    {
      original := text;
      textContent, spans, observed, revealCount := text, [], true, 0;
    }

    /** The callback's handling of one entry for this element.  It looks only
        at `isIntersecting`, not at whether the element is still observed, so
        an element already revealed is rebuilt from its revealed text, which
        gives the same spans again. */
    method Entry(isIntersecting: bool)
      requires Valid()
      modifies this
      ensures Valid()
      ensures revealCount == old(revealCount) + (if isIntersecting then 1 else 0)
      ensures isIntersecting ==> spans == Spans(original) && textContent == Concat(Spans(original)) && !observed
      ensures !isIntersecting ==> textContent == old(textContent) && spans == old(spans) && observed == old(observed)
    {
      if isIntersecting {
        if revealCount > 0 {
          RevealIdempotent(original);
        }
        var text := textContent;
        spans := Spans(text);  // innerHTML = '' then one appended span per character
        textContent := Concat(spans);
        observed := false;     // textObserver.unobserve(entry.target)
        revealCount := revealCount + 1;
      }
    }

    /** One observer callback whose batch holds `entries` for this element
        (`entries.forEach`).  `unobserve` stops later batches, not the rest of
        this one: every intersecting entry rebuilds the content, always into
        the spans of the original text. */
    method Callback(entries: seq<bool>)
      requires Valid()
      modifies this
      ensures Valid()
      ensures revealCount == old(revealCount) + Intersecting(entries)
      ensures true in entries ==> spans == Spans(original) && textContent == Concat(spans) && !observed
      ensures true !in entries ==> textContent == old(textContent) && spans == old(spans) && observed == old(observed)
    {
      var k := 0;
      while k < |entries|
        invariant 0 <= k <= |entries|
        invariant Valid()
        invariant revealCount == old(revealCount) + Intersecting(entries[..k])
        invariant true in entries[..k] ==> spans == Spans(original) && textContent == Concat(spans) && !observed
        invariant true !in entries[..k] ==> textContent == old(textContent) && spans == old(spans) && observed == old(observed)
      {
        assert entries[..k + 1][..k] == entries[..k];
        assert entries[..k + 1] == entries[..k] + [entries[k]];
        Entry(entries[k]);
        k := k + 1;
      }
      assert entries[..k] == entries;
    }
  }
}
