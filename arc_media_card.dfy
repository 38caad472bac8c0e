/**
 * The `MediaCard` of the ARC project page (src/app/projects/arc/page.tsx):
 * the aspect class of the image box, chosen by precedence (an explicit ratio,
 * then portrait orientation, then the video default), and the classes and alt
 * text composed from it.
 */
module ArcMediaCard {
  import opened Wrappers

  datatype Orientation = Portrait | Landscape

  /** A `MediaItem`; an optional prop the caller leaves out is `None`. */
  datatype MediaItem = MediaItem(src: string, caption: string, orientation: Option<Orientation>, ratio: Option<string>)

  /** What the card renders: the image box's class, the image's src and alt, and the caption text. */
  datatype CardView = CardView(boxClass: string, imageSrc: string, imageAlt: string, captionText: string)

  const PORTRAIT_ASPECT: string := "aspect-[3/4]"
  const VIDEO_ASPECT: string := "aspect-video"
  const BOX_PREFIX: string := "relative w-full "
  const BOX_SUFFIX: string := " overflow-hidden rounded-xl border border-white/10"

  /** The `ratio` prop is truthy: given and not the empty string. */
  predicate HasRatio(item: MediaItem) {
    item.ratio.Some? && item.ratio.value != ""
  }

  /** `orientation = 'landscape'` as the default of the destructured prop. */
  function OrientationOf(item: MediaItem): Orientation {
    item.orientation.GetOr(Landscape)
  }

  /** `` `aspect-[${ratio}]` ``. */
  function ArbitraryAspect(ratio: string): (r: string)
    ensures |r| == |ratio| + 9 && r[..8] == "aspect-[" && r[|r| - 1] == ']'
    ensures r[8..|r| - 1] == ratio
  {
    "aspect-[" + ratio + "]"
  }

  /** The aspect class, by precedence: ratio, then portrait, then video. */
  function AspectClass(item: MediaItem): string {
    if HasRatio(item) then ArbitraryAspect(item.ratio.value)
    else if OrientationOf(item) == Portrait then PORTRAIT_ASPECT
    else VIDEO_ASPECT
  }

  /** The card: the box class wraps the aspect class, and the alt text is the caption. */
  function Card(item: MediaItem): (r: CardView)
    ensures r.boxClass == BOX_PREFIX + AspectClass(item) + BOX_SUFFIX
    ensures r.imageSrc == item.src && r.imageAlt == item.caption && r.captionText == item.caption
  {
    CardView("relative w-full " + AspectClass(item) + " overflow-hidden rounded-xl border border-white/10",
             item.src, item.caption, item.caption)
  }

  /** A truthy ratio decides the class whatever the orientation, and the ratio can be read back from it. */
  lemma RatioWins(item: MediaItem)
    requires HasRatio(item)
    ensures AspectClass(item)[..8] == "aspect-[" && AspectClass(item)[8..|AspectClass(item)| - 1] == item.ratio.value
    ensures AspectClass(item) != VIDEO_ASPECT
    ensures forall o :: AspectClass(item.(orientation := o)) == AspectClass(item)
  {
    var r := AspectClass(item);
    assert r[7] != VIDEO_ASPECT[7];
  }

  /**
   * The video class appears exactly when there is no truthy ratio and the
   * orientation, explicit or defaulted, is landscape.
   */
  lemma VideoExactlyWithoutRatioOrPortrait(item: MediaItem)
    ensures AspectClass(item) == VIDEO_ASPECT <==> !HasRatio(item) && item.orientation != Some(Portrait)
  {
    if HasRatio(item) {
      RatioWins(item);
    }
  }

  /**
   * The portrait class appears exactly for a portrait item without a ratio, or
   * for the explicit ratio "3/4", which renders the same class.
   */
  lemma PortraitClassExactly(item: MediaItem)
    ensures AspectClass(item) == PORTRAIT_ASPECT <==>
      (!HasRatio(item) && item.orientation == Some(Portrait)) || item.ratio == Some("3/4")
  {
    if HasRatio(item) {
      var r := ArbitraryAspect(item.ratio.value);
      assert PORTRAIT_ASPECT[8..|PORTRAIT_ASPECT| - 1] == "3/4";
      if r == PORTRAIT_ASPECT {
        assert item.ratio.value == "3/4";
      }
      if item.ratio.value == "3/4" {
        assert r == PORTRAIT_ASPECT;
      }
    }
  }

  /** An empty ratio is falsy: the class is what the orientation alone gives. */
  lemma EmptyRatioFallsThrough(item: MediaItem)
    requires item.ratio == Some("")
    ensures AspectClass(item) == AspectClass(item.(ratio := None))
  {
  }

  /** The box class is the aspect class between the fixed prefix and the fixed suffix. */
  lemma BoxClassHoldsAspect(item: MediaItem)
    ensures var c := Card(item).boxClass;
      c[..|BOX_PREFIX|] == BOX_PREFIX && c[|BOX_PREFIX|..|c| - |BOX_SUFFIX|] == AspectClass(item)
  {
  }
}
