/**
 * The plain hover handlers the second page script puts on every `.project-item`: entering
 * an item with an image shows that image at 80 % opacity and marks the item; leaving any
 * item fades the image out and unmarks it.
 */
module ProjectHover {
  import opened Options

  /** The background opacity, in hundredths, an item with an image shows it at (0.8). */
  const HOVER_OPACITY := 80

  class PortfolioHover {
    /** The `data-image` attribute of every item. */
    const images: seq<Option<string>>
    /** Whether the page has the `#backgroundImage` panel. */
    const hasBackground: bool

    var backgroundUrl: Option<string>
    /** The panel's opacity, in hundredths. */
    var backgroundOpacity: nat
    /** The container's `has-active` class. */
    var hasActive: bool
    /** Each item's `active` class. */
    var active: seq<bool>

    ghost predicate Valid()
      reads this`active
    {
      |active| == |images|
    }

    /** The page as it loads: no item marked, the panel empty and transparent. */
    constructor (images: seq<Option<string>>, hasBackground: bool)
      ensures Valid() && this.images == images && this.hasBackground == hasBackground
      ensures backgroundUrl == None && backgroundOpacity == 0 && !hasActive
      ensures forall i :: 0 <= i < |active| ==> !active[i]
    {
      this.images := images;
      this.hasBackground := hasBackground;
      backgroundUrl := None;
      backgroundOpacity := 0;
      hasActive := false;
      active := seq(|images|, _ => false);
    }

    /**
     * `mouseenter` on item `index`: only when the item has a non-empty `data-image` and the
     * panel exists does anything change; then the panel shows the image at 0.8, the
     * container gets `has-active` and the item `active`. Other items keep their class.
     */
    method MouseEnter(index: nat)
      requires Valid() && index < |images|
      modifies this`backgroundUrl, this`backgroundOpacity, this`hasActive, this`active
      ensures Valid()
      ensures Truthy(images[index]) && hasBackground ==>
        && backgroundUrl == images[index] && backgroundOpacity == HOVER_OPACITY
        && hasActive && active == old(active)[index := true]
      ensures !(Truthy(images[index]) && hasBackground) ==>
        && backgroundUrl == old(backgroundUrl) && backgroundOpacity == old(backgroundOpacity)
        && hasActive == old(hasActive) && active == old(active)
    {
      var imageSrc := images[index];
      if Truthy(imageSrc) && hasBackground {
        backgroundUrl := imageSrc;
        backgroundOpacity := HOVER_OPACITY;
        hasActive := true;
        active := active[index := true];
      }
    }

    /**
     * `mouseleave` on item `index`: the panel, when it exists, becomes transparent (its image
     * stays set); the container loses `has-active` and the item `active`, always.
     */
    method MouseLeave(index: nat)
      requires Valid() && index < |images|
      modifies this`backgroundOpacity, this`hasActive, this`active
      ensures Valid()
      ensures backgroundOpacity == if hasBackground then 0 else old(backgroundOpacity)
      ensures !hasActive && active == old(active)[index := false]
    {
      if hasBackground {
        backgroundOpacity := 0;
      }
      hasActive := false;
      active := active[index := false];
    }
  }

  /**
   * Moving from an item with an image to one without: the second `mouseenter` changes
   * nothing, so after the first item's `mouseleave` no item is marked and the panel stays
   * transparent.
   */
  method EnterWithoutImage()
  {
    var h := new PortfolioHover([Some("a.jpg"), None], true);
    h.MouseEnter(0);
    assert h.active == [true, false] && h.backgroundOpacity == HOVER_OPACITY;
    h.MouseLeave(0);
    h.MouseEnter(1);
    assert h.active == [false, false] && !h.hasActive && h.backgroundOpacity == 0;
    assert h.backgroundUrl == Some("a.jpg");
  }
}
