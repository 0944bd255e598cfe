/** The image lightbox of `initLightbox` and `openLightbox`: a full-screen
    overlay with an image and a caption. */
module Lightbox {
  import opened Common

  /** The arguments of one `openLightbox(src, alt)` call. */
  datatype Request = Request(src: string, caption: string)

  /** Where a click on the overlay landed: on the backdrop itself
      (`e.target === lightbox`) or on something inside it. */
  datatype ClickTarget = Backdrop | Content

  class Viewer {
    /** `lightbox.style.display` */
    var display: Display
    /** `lightboxImg.src` */
    var imageSrc: string
    /** `lightboxCaption.innerText` */
    var caption: string
    /** whether `#lightbox-img` and `#lightbox-caption` exist */
    const hasImage: bool
    const hasCaption: bool

    constructor (hasImage: bool, hasCaption: bool, initialSrc: string, initialCaption: string)
      ensures display == Unset && imageSrc == initialSrc && caption == initialCaption
      ensures this.hasImage == hasImage && this.hasCaption == hasCaption
    {
      display := Unset;
      imageSrc := initialSrc;
      caption := initialCaption;
      this.hasImage := hasImage;
      this.hasCaption := hasCaption;
    }

    /** `openLightbox(src, alt)`: without the image element nothing happens;
        otherwise the overlay is shown with that image, and the caption is
        written when its element exists. */
    method Open(r: Request)
      modifies this
      ensures !hasImage ==> display == old(display) && imageSrc == old(imageSrc) && caption == old(caption)
      ensures hasImage ==> display == Block && imageSrc == r.src
      ensures hasImage ==> caption == (if hasCaption then r.caption else old(caption))
    {
      if !hasImage {
        return;
      }
      display := Block;
      imageSrc := r.src;
      if hasCaption {
        caption := r.caption;
      }
    }

    /** A click on `.lightbox-close`: its handler hides the overlay; the
        click then bubbles to the overlay with the button as target, which
        changes nothing more. */
    method CloseButtonClick()
      modifies this`display
      ensures display == DisplayNone
    {
      display := DisplayNone;
      Click(Content);
    }

    /** The overlay's own click handler: it closes only when the click landed
        on the backdrop itself. */
    method Click(target: ClickTarget)
      modifies this`display
      ensures target == Backdrop ==> display == DisplayNone
      ensures target == Content ==> display == old(display)
    {
      if target == Backdrop {
        display := DisplayNone;
      }
    }
  }

  /** Opening and then clicking the image keeps the overlay open with that
      image; clicking the backdrop afterwards closes it. */
  method OpenClickImageThenBackdrop(v: Viewer, r: Request)
    requires v.hasImage
    modifies v
    ensures v.display == DisplayNone && v.imageSrc == r.src
  {
    v.Open(r);
    v.Click(Content);
    assert v.display == Block && v.imageSrc == r.src;
    v.Click(Backdrop);
  }
}
