/** The FAQ accordion: a fixed list of panels, each with an `active` class,
    the `aria-expanded` attribute of its question button and the
    `max-height` of its answer.  A click on a question closes every other
    open panel and toggles its own; the Escape key closes the first open
    panel in document order. */
module Accordion {
  import opened Options

  /** One `.faq-item`: whether it has the `active` class, its question's
      `aria-expanded` attribute and its answer's `max-height` in pixels. */
  datatype Panel = Panel(active: bool, ariaExpanded: string, maxHeight: nat)

  /** A panel as every closing path leaves it: class removed,
      `aria-expanded="false"`, `max-height: 0px`. */
  const ClosedPanel := Panel(false, "false", 0)

  /** A panel as a click opens it; `height` is the answer's `scrollHeight`. */
  function OpenPanel(height: nat): Panel {
    Panel(true, "true", height)
  }

  /** The attribute mirrors the class, and a closed answer has no height. */
  predicate Mirrors(p: Panel) {
    p.ariaExpanded == (if p.active then "true" else "false") && (!p.active ==> p.maxHeight == 0)
  }

  predicate Consistent(ps: seq<Panel>) {
    forall j :: 0 <= j < |ps| ==> Mirrors(ps[j])
  }

  /** Indices of the open panels. */
  function ActiveSet(ps: seq<Panel>): set<nat> {
    set j: nat | j < |ps| && ps[j].active
  }

  predicate AtMostOneActive(ps: seq<Panel>) {
    forall j, k :: 0 <= j < |ps| && 0 <= k < |ps| && ps[j].active && ps[k].active ==> j == k
  }

  /** The panels after a click on the question of panel `i` whose answer has
      height `height`. */
  function AfterClick(ps: seq<Panel>, i: nat, height: nat): (r: seq<Panel>)
    requires i < |ps|
    ensures |r| == |ps|
    ensures r[i].active <==> !ps[i].active
    ensures forall j :: 0 <= j < |ps| && j != i ==> !r[j].active
  {
    seq(|ps|, j requires 0 <= j < |ps| =>
      if j == i then (if ps[i].active then ClosedPanel else OpenPanel(height))
      else if ps[j].active then ClosedPanel
      else ps[j])
  }

  /** After a click on panel `i`, no panel is open if `i` was open, and
      otherwise exactly panel `i` is. */
  lemma ClickActiveSet(ps: seq<Panel>, i: nat, height: nat)
    requires i < |ps|
    ensures ActiveSet(AfterClick(ps, i, height)) == if ps[i].active then {} else {i}
    ensures AtMostOneActive(AfterClick(ps, i, height))
  {
  }

  /** A click keeps `aria-expanded` mirroring `active`: every panel it closes
      gets "false" and height 0, the panel it opens gets "true" and the
      answer's height.  Panels that were closed and are not clicked are left
      as they were. */
  lemma ClickKeepsConsistent(ps: seq<Panel>, i: nat, height: nat)
    requires i < |ps| && Consistent(ps)
    ensures Consistent(AfterClick(ps, i, height))
    ensures AfterClick(ps, i, height)[i].maxHeight == if ps[i].active then 0 else height
    ensures forall j :: 0 <= j < |ps| && j != i && !ps[j].active ==> AfterClick(ps, i, height)[j] == ps[j]
  {
  }

  /** Two clicks on the same question: opening then closing leaves every
      panel closed, closing then opening leaves exactly that panel open. */
  lemma ClickTwice(ps: seq<Panel>, i: nat, height: nat, height': nat)
    requires i < |ps|
    ensures ActiveSet(AfterClick(AfterClick(ps, i, height), i, height')) == if ps[i].active then {i} else {}
  {
  }

  /** The first open panel at or after index `from`: the result of
      `document.querySelector('.faq-item.active')` when `from = 0`. */
  function FirstActiveFrom(ps: seq<Panel>, from: nat): (r: Option<nat>)
    requires from <= |ps|
    ensures r.Some? ==> from <= r.value < |ps| && ps[r.value].active
    ensures r.Some? ==> forall j :: from <= j < r.value ==> !ps[j].active
    ensures r.None? ==> forall j :: from <= j < |ps| ==> !ps[j].active
    decreases |ps| - from
  {
    if from == |ps| then None
    else if ps[from].active then Some(from)
    else FirstActiveFrom(ps, from + 1)
  }

  function FirstActive(ps: seq<Panel>): (r: Option<nat>)
    ensures r.None? <==> ActiveSet(ps) == {}
    ensures r.Some? ==> r.value in ActiveSet(ps) && forall j :: j in ActiveSet(ps) ==> r.value <= j
  {
    var r := FirstActiveFrom(ps, 0);
    assert r.Some? ==> r.value in ActiveSet(ps);
    r
  }

  /** The panels after the Escape key. */
  function AfterEscape(ps: seq<Panel>): (r: seq<Panel>)
    ensures |r| == |ps|
    ensures ActiveSet(r) <= ActiveSet(ps)
    ensures ActiveSet(ps) != {} ==> |ActiveSet(r)| == |ActiveSet(ps)| - 1
  {
    match FirstActive(ps)
    case None => ps
    case Some(k) =>
      assert ActiveSet(ps[k := ClosedPanel]) == ActiveSet(ps) - {k};
      ps[k := ClosedPanel]
  }

  /** Escape is a no-op when no panel is open. */
  lemma EscapeWithoutOpenPanel(ps: seq<Panel>)
    requires ActiveSet(ps) == {}
    ensures AfterEscape(ps) == ps
  {
  }

  /** When panel `k` is the first open panel in document order, Escape
      closes it (class removed, "false", height 0) and changes no other
      panel. */
  lemma EscapeClosesFirst(ps: seq<Panel>, k: nat)
    requires k < |ps| && ps[k].active
    requires forall j :: 0 <= j < k ==> !ps[j].active
    ensures AfterEscape(ps) == ps[k := ClosedPanel]
    ensures ActiveSet(AfterEscape(ps)) == ActiveSet(ps) - {k}
  {
  }

  /** Escape keeps `aria-expanded` mirroring `active`; after any click, one
      Escape leaves every panel closed. */
  lemma EscapeKeepsConsistent(ps: seq<Panel>)
    ensures Consistent(ps) ==> Consistent(AfterEscape(ps))
    ensures AtMostOneActive(ps) ==> ActiveSet(AfterEscape(ps)) == {}
  {
  }

  /** The page's FAQ list (`querySelectorAll('.faq-item')`, a fixed list). */
  class FAQ {
    const panels: array<Panel>

    constructor (initial: seq<Panel>)
      ensures panels[..] == initial && fresh(panels)
    {
      panels := new Panel[|initial|](j requires 0 <= j < |initial| => initial[j]);
    }

    /** A click on the question of panel `i`; `scrollHeight` is the height
        of its answer's content, read from the layout at that moment. */
    method Click(i: nat, scrollHeight: nat)
      requires i < panels.Length
      modifies panels
      ensures panels[..] == AfterClick(old(panels[..]), i, scrollHeight)
      ensures ActiveSet(panels[..]) == if old(panels[i].active) then {} else {i}
      ensures old(Consistent(panels[..])) ==> Consistent(panels[..])
    {
      var isActive := panels[i].active;
      var j := 0;
      while j < panels.Length
        invariant 0 <= j <= panels.Length
        invariant forall k :: 0 <= k < j ==>
          panels[k] == if k != i && old(panels[k]).active then ClosedPanel else old(panels[k])
        invariant forall k :: j <= k < panels.Length ==> panels[k] == old(panels[k])
      {
        if j != i && panels[j].active {
          panels[j] := ClosedPanel;
        }
        j := j + 1;
      }
      if isActive {
        panels[i] := ClosedPanel;
      } else {
        panels[i] := OpenPanel(scrollHeight);
      }
      assert panels[..] == AfterClick(old(panels[..]), i, scrollHeight);
      ClickActiveSet(old(panels[..]), i, scrollHeight);
      if old(Consistent(panels[..])) {
        ClickKeepsConsistent(old(panels[..]), i, scrollHeight);
      }
    }

    /** The Escape key. */
    method Escape()
      modifies panels
      ensures panels[..] == AfterEscape(old(panels[..]))
      ensures old(Consistent(panels[..])) ==> Consistent(panels[..])
    {
      var first := FirstActive(panels[..]);
      if first.Some? {
        panels[first.value] := ClosedPanel;
      }
      EscapeKeepsConsistent(old(panels[..]));
    }
  }
}
