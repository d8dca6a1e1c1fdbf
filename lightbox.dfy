/**
 * The image lightbox: a two-state machine, closed or open. Opening it shows the clicked
 * thumbnail, locks background scrolling and registers the keydown handler on the document;
 * closing it hides it, restores scrolling and removes the handler.
 */
module ImageLightbox {
  import opened Dom

  /** The `src` and `alt` attributes of an image element. */
  datatype Image = Image(src: string, alt: string)

  /** The element a click on the lightbox lands on: the overlay itself or one of its children. */
  datatype ClickTarget = Overlay | InnerImage | CloseControl

  const Escape := "Escape"

  class Lightbox {
    const doc: Document
    /** The overlay carries the `active` class. */
    var active: bool
    /** The `src` and `alt` of the lightbox's own image element. */
    var src: string
    var alt: string

    /**
     * The open state, the scroll lock and the keydown registration move in lock-step:
     * the handler is registered, and the body does not scroll, exactly while the lightbox is open.
     */
    ghost predicate Valid()
      reads this, doc
    {
      && doc.keydownRegistered == active
      && (active <==> doc.overflow == Hidden)
    }

    /** The lightbox as the page loads: closed, on a document without the handler or the scroll lock. */
    constructor (doc: Document)
      requires !doc.keydownRegistered && doc.overflow != Hidden
      ensures this.doc == doc && Valid()
      ensures !active && src == "" && alt == ""
    {
      this.doc := doc;
      active := false;
      src := "";
      alt := "";
    }

    /** `openLightbox`, the click handler of every project thumbnail; opening again while open registers nothing more. */
    method Open(img: Image)
      requires Valid()
      modifies this, doc
      ensures Valid()
      ensures active && src == img.src && alt == img.alt
      ensures doc.overflow == Hidden && doc.keydownRegistered
      ensures doc.navOpen == old(doc.navOpen)
    {
      active := true;
      src := img.src;
      alt := img.alt;
      doc.SetOverflow(Hidden);
      doc.AddKeydownListener();
    }

    /** `closeLightbox`: the image shown last stays in place, only hidden. */
    method Close()
      requires Valid()
      modifies this, doc
      ensures Valid()
      ensures !active && src == old(src) && alt == old(alt)
      ensures doc.overflow == Auto && !doc.keydownRegistered
      ensures doc.navOpen == old(doc.navOpen)
    {
      active := false;
      doc.SetOverflow(Auto);
      doc.RemoveKeydownListener();
    }

    /** `handleKeydown`: Escape closes the lightbox, every other key changes nothing. */
    method HandleKeydown(key: string)
      requires Valid()
      modifies this, doc
      ensures Valid()
      ensures key == Escape ==> !active && doc.overflow == Auto && !doc.keydownRegistered
      ensures key != Escape ==> active == old(active) && doc.overflow == old(doc.overflow)
      ensures key != Escape ==> doc.keydownRegistered == old(doc.keydownRegistered)
      ensures src == old(src) && alt == old(alt) && doc.navOpen == old(doc.navOpen)
    {
      if key == Escape {
        Close();
      }
    }

    /**
     * A key pressed anywhere on the page: the document calls the handler only while it is
     * registered, so a key has an effect only while the lightbox is open.
     */
    method KeyPressed(key: string)
      requires Valid()
      modifies this, doc
      ensures Valid()
      ensures old(active) && key == Escape ==> !active && doc.overflow == Auto
      ensures !(old(active) && key == Escape) ==> active == old(active) && doc.overflow == old(doc.overflow)
      ensures src == old(src) && alt == old(alt) && doc.navOpen == old(doc.navOpen)
    {
      if doc.keydownRegistered {
        HandleKeydown(key);
      }
    }

    /** The click handler of the overlay: only a click on the overlay itself, not on what it holds, closes it. */
    method OverlayClick(target: ClickTarget)
      requires Valid()
      modifies this, doc
      ensures Valid()
      ensures target == Overlay ==> !active && doc.overflow == Auto && !doc.keydownRegistered
      ensures target != Overlay ==> active == old(active) && doc.overflow == old(doc.overflow)
      ensures target != Overlay ==> doc.keydownRegistered == old(doc.keydownRegistered)
      ensures src == old(src) && alt == old(alt) && doc.navOpen == old(doc.navOpen)
    {
      if target == Overlay {
        Close();
      }
    }

    /**
     * A click on the close control: its own handler closes the lightbox, then the click
     * reaches the overlay's handler with the control as its target, which does nothing.
     */
    method CloseControlClick()
      requires Valid()
      modifies this, doc
      ensures Valid()
      ensures !active && doc.overflow == Auto && !doc.keydownRegistered
      ensures src == old(src) && alt == old(alt) && doc.navOpen == old(doc.navOpen)
    {
      Close();
      OverlayClick(CloseControl);
    }

    /** Opening twice and closing once leaves no handler registered: registrations do not pile up. */
    method OpenTwiceCloseOnce(first: Image, second: Image)
      requires Valid()
      modifies this, doc
      ensures Valid()
      ensures !active && !doc.keydownRegistered && doc.overflow == Auto
      ensures src == second.src && alt == second.alt
      ensures doc.navOpen == old(doc.navOpen)
    {
      Open(first);
      Open(second);
      Close();
    }
  }
}
