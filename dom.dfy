/**
 * The page-level state the script reaches through `document`: which element identifiers
 * exist, the `nav-open` class on the body, the body's `overflow` style, and whether the
 * lightbox's keydown handler is registered on the document.
 */
module Dom {

  const Hidden := "hidden"
  const Auto := "auto"

  class Document {
    /** The `id` attributes present in the markup; it does not change while the page runs. */
    const elementIds: set<string>
    /** The body carries the `nav-open` class. */
    var navOpen: bool
    /** `document.body.style.overflow`; the empty string while unset. */
    var overflow: string
    /** The keydown handler of the lightbox is among the document's listeners. */
    var keydownRegistered: bool

    constructor (ids: set<string>)
      ensures elementIds == ids
      ensures !navOpen && overflow == "" && !keydownRegistered
    {
      elementIds := ids;
      navOpen := false;
      overflow := "";
      keydownRegistered := false;
    }

    /**
     * `document.getElementById(id)` finds an element. An element whose `id` attribute is
     * empty has no identifier, so the empty string never finds one.
     */
    predicate HasElement(id: string)
    {
      id != "" && id in elementIds
    }

    /**
     * `addEventListener("keydown", handleKeydown)`: adding the same handler again is
     * ignored, so there is at most one registration however often this runs.
     */
    method AddKeydownListener()
      modifies this
      ensures keydownRegistered
      ensures navOpen == old(navOpen) && overflow == old(overflow)
    {
      keydownRegistered := true;
    }

    /** `removeEventListener("keydown", handleKeydown)`: no registration remains. */
    method RemoveKeydownListener()
      modifies this
      ensures !keydownRegistered
      ensures navOpen == old(navOpen) && overflow == old(overflow)
    {
      keydownRegistered := false;
    }

    method SetOverflow(value: string)
      modifies this
      ensures overflow == value
      ensures navOpen == old(navOpen) && keydownRegistered == old(keydownRegistered)
    {
      overflow := value;
    }
  }
}
