/** The specials grid of `initSpecials`: `/data/specials.json` is fetched;
    on success the grid is emptied and one card per record is appended, on
    any failure the grid holds a single fallback message. */
module SpecialsGrid {
  import opened Common
  import Lightbox

  /** One element of the parsed JSON array: a record, or a value such as
      `null` on which reading `special.image` throws. */
  datatype Item = Record(special: Special) | Unreadable

  /** What `fetch` and `response.json()` produce: a failure (network error,
      unparsable body, or a body that is not an array, on which `forEach`
      throws) or the parsed array. */
  datatype Response = Failed | Parsed(items: seq<Item>)

  /** A child of the grid. A card remembers its record, its
      `style.visibility`, whether it carries `animate__fadeInUp`, and what
      its image's click handler passes to the lightbox. */
  datatype Node =
    | Placeholder
    | Card(special: Special, visible: bool, fadeInUp: bool, onImageClick: Lightbox.Request)
    | Fallback

  /** The card built for one record, as it stands after the loop body. */
  function CardFor(s: Special): Node
  {
    Card(s, true, true, Lightbox.Request(s.image, s.title))
  }

  /** The response can be rendered completely: it parsed into an array whose
      every element is a record. */
  predicate Renderable(r: Response)
  {
    r.Parsed? && forall k | 0 <= k < |r.items| :: r.items[k].Record?
  }

  function CardCount(children: seq<Node>): nat
  {
    if children == [] then 0
    else CardCount(children[..|children| - 1]) + (if children[|children| - 1].Card? then 1 else 0)
  }

  class Grid {
    /** `grid.children` */
    var children: seq<Node>

    constructor (initial: seq<Node>)
      ensures children == initial
    {
      children := initial;
    }

    /** The body of `initSpecials` once the grid exists. */
    method Load(response: Response)
      modifies this
      ensures Renderable(response) ==>
                |children| == |response.items|
                && forall k | 0 <= k < |children| :: children[k] == CardFor(response.items[k].special)
      ensures Renderable(response) ==> CardCount(children) == |response.items|
      ensures !Renderable(response) ==> children == [Fallback] && CardCount(children) == 0
    {
      if response.Failed? {
        children := [Fallback];
        return;
      }
      var items := response.items;
      children := [];
      var failed := false;
      var i := 0;
      while i < |items| && !failed
        invariant 0 <= i <= |items|
        invariant |children| == i
        invariant forall k | 0 <= k < i :: items[k].Record? && children[k] == CardFor(items[k].special)
        invariant failed ==> i < |items| && items[i].Unreadable?
        decreases |items| - i, if failed then 0 else 1
      {
        match items[i]
        case Unreadable =>
          failed := true;
        case Record(s) =>
          children := children + [CardFor(s)];
          i := i + 1;
      }
      if failed {
        children := [Fallback];
        assert CardCount([Fallback]) == CardCount([]) + 0;
      } else {
        AllCardsCounted(children);
      }
    }
  }

  /** A complete load has one card per record. */
  lemma {:induction false} AllCardsCounted(children: seq<Node>)
    requires forall k | 0 <= k < |children| :: children[k].Card?
    ensures CardCount(children) == |children|
    decreases |children|
  {
    if children != [] {
      AllCardsCounted(children[..|children| - 1]);
    }
  }

  /** Clicking the image of card `k` opens the lightbox on that record's
      image with its title as caption. */
  method ClickCardImage(g: Grid, v: Lightbox.Viewer, k: nat)
    requires k < |g.children| && g.children[k].Card? && v.hasImage && v.hasCaption
    modifies v
    ensures v.display == Block
    ensures v.imageSrc == g.children[k].onImageClick.src
    ensures v.caption == g.children[k].onImageClick.caption
  {
    v.Open(g.children[k].onImageClick);
  }
}
