/** The one-shot reveal engine of `initScrollAnimations`: every selected
    element starts hidden and observed; its first intersecting entry makes it
    visible, adds `animate__fadeInUp` and releases it. A second observer does
    the same for the heritage image with the `reveal-color` class. */
module ScrollReveal {
  import opened Common

  /** The identity of a DOM node. */
  type Element = nat

  /** Per-element progress: still waiting, or revealed for good. */
  datatype Tag = Pending | Revealed

  /** An `IntersectionObserverEntry`, reduced to its target and
      `isIntersecting`. */
  datatype Entry = Entry(target: Element, isIntersecting: bool)

  /** The targets of the intersecting entries of a batch. */
  function Intersected(entries: seq<Entry>): set<Element>
    decreases |entries|
  {
    if entries == [] then {}
    else
      var last := entries[|entries| - 1];
      Intersected(entries[..|entries| - 1]) + (if last.isIntersecting then {last.target} else {})
  }

  /** An element is in `Intersected` exactly when some entry of the batch
      targets it and is intersecting. */
  lemma {:induction false} IntersectedMeans(entries: seq<Entry>, e: Element)
    ensures e in Intersected(entries) <==>
            exists k | 0 <= k < |entries| :: entries[k].target == e && entries[k].isIntersecting
    decreases |entries|
  {
    if entries != [] {
      var init := entries[..|entries| - 1];
      IntersectedMeans(init, e);
      assert forall k | 0 <= k < |init| :: init[k] == entries[k];
    }
  }

  /** A batch in which nothing intersects reveals nothing. */
  lemma {:induction false} NoIntersectionRevealsNothing(entries: seq<Entry>)
    requires forall k | 0 <= k < |entries| :: !entries[k].isIntersecting
    ensures Intersected(entries) == {}
    decreases |entries|
  {
    if entries != [] {
      NoIntersectionRevealsNothing(entries[..|entries| - 1]);
    }
  }

  /** Only targets of the batch can be revealed by it. */
  lemma {:induction false} IntersectedWithin(entries: seq<Entry>, targets: set<Element>)
    requires forall k | 0 <= k < |entries| :: entries[k].target in targets
    ensures Intersected(entries) <= targets
    decreases |entries|
  {
    if entries != [] {
      IntersectedWithin(entries[..|entries| - 1], targets);
    }
  }

  lemma IntersectedPrefix(entries: seq<Entry>, k: nat)
    requires k < |entries|
    ensures Intersected(entries[..k + 1]) ==
            Intersected(entries[..k]) + (if entries[k].isIntersecting then {entries[k].target} else {})
  {
    assert entries[..k + 1][..k] == entries[..k];
  }

  class Engine {
    /** the tag of every element the main observer was given */
    var tag: map<Element, Tag>
    /** the elements the main observer still observes */
    var observed: set<Element>
    /** elements whose `style.visibility` is `visible` */
    var visible: set<Element>
    /** elements carrying `animate__animated` */
    var animated: set<Element>
    /** elements carrying `animate__fadeInUp` */
    var fadeInUp: set<Element>

    /** the `.heritage-image img` element, if the page has one */
    const heritage: Option<Element>
    var heritageTag: Tag
    var heritageObserved: bool
    /** whether the heritage image carries `reveal-color` */
    var revealColor: bool
    /** how often `reveal-color` went from absent to present */
    ghost var colorGains: nat

    ghost predicate Valid()
      reads this
    {
      observed <= tag.Keys && visible <= tag.Keys && fadeInUp <= tag.Keys && animated == tag.Keys
      && (forall e | e in tag :: (e in observed <==> tag[e] == Pending))
      && (forall e | e in tag :: (e in visible <==> tag[e] == Revealed))
      && (forall e | e in tag :: (e in fadeInUp <==> tag[e] == Revealed))
      && (heritageObserved <==> heritage.Some? && heritageTag == Pending)
      && (revealColor <==> heritage.Some? && heritageTag == Revealed)
      && colorGains == (if revealColor then 1 else 0)
    }

    /** Page load: each selected element is hidden, gets the base class and is
        observed; the heritage image loses `reveal-color` and is observed. */
    constructor (selected: seq<Element>, heritage: Option<Element>)
      ensures Valid()
      ensures tag.Keys == set e | e in selected
      ensures forall e | e in tag :: tag[e] == Pending
      ensures observed == tag.Keys && visible == {} && fadeInUp == {}
      ensures this.heritage == heritage && heritageObserved == heritage.Some? && !revealColor
    {
      tag, observed, visible, animated, fadeInUp := map[], {}, {}, {}, {};
      this.heritage := heritage;
      heritageTag := Pending;
      heritageObserved := heritage.Some?;
      revealColor := false;
      colorGains := 0;
      new;
      for i := 0 to |selected|
        invariant tag.Keys == set k | 0 <= k < i :: selected[k]
        invariant forall e | e in tag :: tag[e] == Pending
        invariant observed == tag.Keys && animated == tag.Keys && visible == {} && fadeInUp == {}
        invariant this.heritage == heritage && heritageObserved == heritage.Some?
        invariant heritageTag == Pending && !revealColor && colorGains == 0
      {
        var el := selected[i];
        visible := visible - {el};
        animated := animated + {el};
        tag := tag[el := Pending];
        observed := observed + {el};
      }
      assert (set k | 0 <= k < |selected| :: selected[k]) == set e | e in selected;
    }

    /** The main observer's callback on one batch of entries: every
        intersecting target becomes visible, gains `animate__fadeInUp` and is
        unobserved; everything else is left as it was. The browser only
        delivers entries for elements this observer was given. */
    method OnEntries(entries: seq<Entry>)
      requires Valid()
      requires forall k | 0 <= k < |entries| :: entries[k].target in tag
      modifies this`tag, this`observed, this`visible, this`fadeInUp
      ensures Valid()
      ensures tag.Keys == old(tag.Keys)
      ensures forall e | e in tag ::
                tag[e] == (if e in Intersected(entries) then Revealed else old(tag[e]))
      ensures observed == old(observed) - Intersected(entries)
      ensures visible == old(visible) + Intersected(entries)
      ensures fadeInUp == old(fadeInUp) + Intersected(entries)
      ensures forall e | e in old(tag) && old(tag[e]) == Revealed :: tag[e] == Revealed
    {
      for i := 0 to |entries|
        invariant tag.Keys == old(tag.Keys)
        invariant forall e | e in tag ::
                    tag[e] == (if e in Intersected(entries[..i]) then Revealed else old(tag[e]))
        invariant observed == old(observed) - Intersected(entries[..i])
        invariant visible == old(visible) + Intersected(entries[..i])
        invariant fadeInUp == old(fadeInUp) + Intersected(entries[..i])
      {
        IntersectedPrefix(entries, i);
        var entry := entries[i];
        if entry.isIntersecting {
          visible := visible + {entry.target};
          fadeInUp := fadeInUp + {entry.target};
          tag := tag[entry.target := Revealed];
          observed := observed - {entry.target};
        }
      }
      assert entries[..|entries|] == entries;
      IntersectedWithin(entries, old(tag.Keys));
    }

    /** The heritage observer's callback: an intersecting entry adds
        `reveal-color` and unobserves the image. */
    method OnHeritageEntries(entries: seq<Entry>)
      requires Valid()
      requires forall k | 0 <= k < |entries| :: heritage == Some(entries[k].target)
      modifies this`heritageTag, this`heritageObserved, this`revealColor, this`colorGains
      ensures Valid()
      ensures heritage.Some? && heritage.value in Intersected(entries) ==>
                revealColor && heritageTag == Revealed && !heritageObserved
      ensures !(heritage.Some? && heritage.value in Intersected(entries)) ==>
                revealColor == old(revealColor) && heritageTag == old(heritageTag)
                && heritageObserved == old(heritageObserved)
      ensures colorGains <= 1
    {
      for i := 0 to |entries|
        invariant Valid()
        invariant heritage.Some? && heritage.value in Intersected(entries[..i]) ==>
                    revealColor && heritageTag == Revealed && !heritageObserved
        invariant !(heritage.Some? && heritage.value in Intersected(entries[..i])) ==>
                    revealColor == old(revealColor) && heritageTag == old(heritageTag)
                    && heritageObserved == old(heritageObserved)
      {
        IntersectedPrefix(entries, i);
        var entry := entries[i];
        if entry.isIntersecting {
          if !revealColor {
            colorGains := colorGains + 1;
          }
          revealColor := true;
          heritageTag := Revealed;
          heritageObserved := false;
        }
      }
      assert entries[..|entries|] == entries;
    }
  }
}
