/**
 * The mobile navigation: the toggle control flips the body's `nav-open` class, and a click
 * on a navigation link closes the menu, first turning an in-page anchor (`#id`) into a
 * scroll request when the target exists.
 */
module NavMenu {
  import opened Options
  import opened Text
  import opened Dom

  /** What a link click does besides closing the menu. */
  datatype LinkEffect = LinkEffect(preventDefault: bool, scrollTo: Option<string>)

  /**
   * The decision of the link handler for a link whose `href` is `href`, on a page whose
   * element identifiers are `doc`'s: default navigation is suppressed exactly for an
   * in-page anchor, and a scroll is requested only to an element that exists.
   */
  function LinkDecision(href: string, doc: Document): (e: LinkEffect)
    ensures e.preventDefault <==> |href| > 0 && href[0] == '#'
    ensures e.scrollTo.Some? <==> e.preventDefault && doc.HasElement(href[1..])
    ensures e.scrollTo.Some? ==> e.scrollTo.value == href[1..] && doc.HasElement(e.scrollTo.value)
  {
    if StartsWith(href, "#") then
      var targetId := href[1..];
      LinkEffect(true, if doc.HasElement(targetId) then Some(targetId) else None)
    else
      LinkEffect(false, None)
  }

  /** A link to another page is followed as usual and requests no scroll. */
  lemma ExternalLinkIsFollowed(href: string, doc: Document)
    requires !StartsWith(href, "#")
    ensures LinkDecision(href, doc) == LinkEffect(false, None)
  {
  }

  /** A link to a missing anchor is suppressed and requests nothing: no scroll and no error. */
  lemma MissingAnchorIsSilent(id: string, doc: Document)
    requires !doc.HasElement(id)
    ensures LinkDecision("#" + id, doc) == LinkEffect(true, None)
  {
    assert ("#" + id)[1..] == id;
  }

  /** `#contact` on a page with an element `contact` scrolls to that element. */
  lemma ContactAnchorScrolls(doc: Document)
    requires "contact" in doc.elementIds
    ensures LinkDecision("#contact", doc) == LinkEffect(true, Some("contact"))
  {
  }

  /** The click handler of the toggle control. */
  method ToggleClick(doc: Document)
    modifies doc
    ensures doc.navOpen == !old(doc.navOpen)
    ensures doc.overflow == old(doc.overflow) && doc.keydownRegistered == old(doc.keydownRegistered)
  {
    doc.navOpen := !doc.navOpen;
  }

  /**
   * The click handler of every navigation link: decide, then close the menu whatever the
   * link. The body follows script.js:13-21 statement by statement, and its first `ensures`
   * ties that step-by-step decision to `LinkDecision`.
   */
  method LinkClick(doc: Document, href: string) returns (e: LinkEffect)
    modifies doc
    ensures e == LinkDecision(href, doc)
    ensures !doc.navOpen
    ensures doc.overflow == old(doc.overflow) && doc.keydownRegistered == old(doc.keydownRegistered)
  {
    e := LinkEffect(false, None);
    if StartsWith(href, "#") {
      var targetId := href[1..];
      e := e.(preventDefault := true);
      if doc.HasElement(targetId) {
        e := e.(scrollTo := Some(targetId));
      }
    }
    doc.navOpen := false;
  }

  /** Two clicks on the toggle leave the menu as it was. */
  method ToggleTwice(doc: Document)
    modifies doc
    ensures doc.navOpen == old(doc.navOpen)
    ensures doc.overflow == old(doc.overflow) && doc.keydownRegistered == old(doc.keydownRegistered)
  {
    ToggleClick(doc);
    ToggleClick(doc);
  }
}
