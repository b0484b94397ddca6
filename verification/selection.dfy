/**
 * One pass of the element search that every stage of `solva_captcha` repeats
 * inside `while not didweclick`: walk the crawler's iframes, skip those whose
 * identifier does not contain the title marker, walk the elements found in
 * each remaining iframe, act on those that match the stage's selector, swallow
 * every failure, and stop at the first action that succeeds.
 *
 * The browser is abstracted away: what `switch_to`/`find_elements`,
 * `get_attribute` and `click`/`send_keys` would do is given as data.
 */
module Selection {

  datatype Option<T> = None | Some(value: T)

  // ---------------------------------------------------------------------------
  // Substring test (Python's `needle in haystack` on strings)
  // ---------------------------------------------------------------------------

  /** `needle` occurs in `haystack` starting at position `i`. */
  ghost predicate OccursAt(haystack: string, needle: string, i: int) {
    0 <= i && i + |needle| <= |haystack| && haystack[i..i + |needle|] == needle
  }

  /** Python's `needle in haystack` for two strings. */
  function Contains(haystack: string, needle: string): bool
    decreases |haystack|
  {
    if |needle| > |haystack| then false
    else if haystack[..|needle|] == needle then true
    else Contains(haystack[1..], needle)
  }

  /** `Contains` is the substring relation: it holds exactly when the needle
      occurs at some position of the haystack. */
  lemma {:induction false} ContainsIff(haystack: string, needle: string)
    ensures Contains(haystack, needle) <==> exists i :: OccursAt(haystack, needle, i)
    decreases |haystack|
  {
    if |needle| > |haystack| {
    } else if haystack[..|needle|] == needle {
      assert OccursAt(haystack, needle, 0);
    } else {
      var tail := haystack[1..];
      ContainsIff(tail, needle);
      if exists i :: OccursAt(haystack, needle, i) {
        var i :| OccursAt(haystack, needle, i);
        assert i != 0;
        assert tail[i - 1..i - 1 + |needle|] == haystack[i..i + |needle|];
        assert OccursAt(tail, needle, i - 1);
      }
      if exists i :: OccursAt(tail, needle, i) {
        var i :| OccursAt(tail, needle, i);
        assert tail[i..i + |needle|] == haystack[i + 1..i + 1 + |needle|];
        assert OccursAt(haystack, needle, i + 1);
      }
    }
  }

  // ---------------------------------------------------------------------------
  // The page as the pass sees it
  // ---------------------------------------------------------------------------

  /** An element returned by `find_elements`. `attribute` is None when reading
      it raised, or returned None so that the `in` test raised;
      `actionSucceeds` says whether the scroll and click, or `send_keys`,
      completes without raising. */
  datatype Element = Element(attribute: Option<string>, actionSucceeds: bool)

  /** An entry of the crawler's iframe list: its identifier, and the elements
      found after switching into it, or None when `switch_to` or
      `find_elements` raised. */
  datatype Frame = Frame(id: string, elements: Option<seq<Element>>)

  /** What a stage looks for inside a frame: the first stage clicks any `span`
      without reading an attribute; the others require the marker in the
      configured attribute (`outerHTML` by default). */
  datatype Selector = AnyElement | AttributeContains(marker: string)

  /** A position in iframe-then-element order. */
  datatype Pick = Pick(frame: nat, element: nat)

  predicate Matches(sel: Selector, e: Element) {
    match sel
    case AnyElement => true
    case AttributeContains(marker) => e.attribute.Some? && Contains(e.attribute.value, marker)
  }

  /** The pass tries its action on the element at `p`: the iframe's identifier
      contains the title, the iframe could be entered, and the element matches. */
  predicate IsCandidate(title: string, frames: seq<Frame>, sel: Selector, p: Pick) {
    && p.frame < |frames|
    && Contains(frames[p.frame].id, title)
    && frames[p.frame].elements.Some?
    && p.element < |frames[p.frame].elements.value|
    && Matches(sel, frames[p.frame].elements.value[p.element])
  }

  /** A candidate on which the action succeeds. */
  predicate IsHit(title: string, frames: seq<Frame>, sel: Selector, p: Pick) {
    IsCandidate(title, frames, sel, p) && frames[p.frame].elements.value[p.element].actionSucceeds
  }

  /** Strict iframe-then-element order. */
  predicate Precedes(p: Pick, q: Pick) {
    p.frame < q.frame || (p.frame == q.frame && p.element < q.element)
  }

  // ---------------------------------------------------------------------------
  // One pass
  // ---------------------------------------------------------------------------

  /** One pass of a stage's search. `clicked` is Some exactly when the pass
      sets `didweclick`, and names the element acted on; `tried` lists, in
      order, every element the pass tried its action on. */
  method SelectionPass(title: string, frames: seq<Frame>, sel: Selector)
    returns (clicked: Option<Pick>, tried: seq<Pick>)
    // it acts only on titled iframes and matching elements, in order
    ensures forall k | 0 <= k < |tried| :: IsCandidate(title, frames, sel, tried[k])
    ensures forall j, k | 0 <= j < k < |tried| :: Precedes(tried[j], tried[k])
    // a failed action moves on; the pass stops at the first success
    ensures forall k | 0 <= k < |tried| - 1 :: !IsHit(title, frames, sel, tried[k])
    ensures clicked.Some? <==> tried != [] && IsHit(title, frames, sel, tried[|tried| - 1])
    ensures clicked.Some? ==> clicked.value == tried[|tried| - 1]
    // no candidate before the stopping point is skipped
    ensures forall p | IsCandidate(title, frames, sel, p) && (clicked.None? || Precedes(p, clicked.value)) :: p in tried
    // hence: the result is the first hit, and there is none when nothing was clicked
    ensures clicked.Some? ==> forall p | IsHit(title, frames, sel, p) :: !Precedes(p, clicked.value)
    ensures clicked.None? ==> forall p :: !IsHit(title, frames, sel, p)
  {
    clicked, tried := None, [];
    var f := 0;
    while f < |frames|
      invariant f <= |frames|
      invariant clicked.None?
      invariant forall k | 0 <= k < |tried| :: IsCandidate(title, frames, sel, tried[k]) && tried[k].frame < f
      invariant forall j, k | 0 <= j < k < |tried| :: Precedes(tried[j], tried[k])
      invariant forall k | 0 <= k < |tried| :: !IsHit(title, frames, sel, tried[k])
      invariant forall p | IsCandidate(title, frames, sel, p) && p.frame < f :: p in tried
    {
      var frame := frames[f];
      if !Contains(frame.id, title) || frame.elements.None? {
        f := f + 1;
        continue;
      }
      var elements := frame.elements.value;
      var e := 0;
      while e < |elements|
        invariant e <= |elements|
        invariant clicked.None?
        invariant forall k | 0 <= k < |tried| :: IsCandidate(title, frames, sel, tried[k]) && Precedes(tried[k], Pick(f, e))
        invariant forall j, k | 0 <= j < k < |tried| :: Precedes(tried[j], tried[k])
        invariant forall k | 0 <= k < |tried| :: !IsHit(title, frames, sel, tried[k])
        invariant forall p | IsCandidate(title, frames, sel, p) && Precedes(p, Pick(f, e)) :: p in tried
      {
        if Matches(sel, elements[e]) {
          tried := tried + [Pick(f, e)];
          if elements[e].actionSucceeds {
            clicked := Some(Pick(f, e));
            break;
          }
        }
        e := e + 1;
      }
      if clicked.Some? {
        break;
      }
      f := f + 1;
    }
  }
}
