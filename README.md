# Portfolio site rules, modelled in Dafny

The portfolio site is almost entirely static content and layout. This project
models the few pieces that make decisions:

- **Scroll-spy** (`src/hooks/useScrollSpy.ts`). The hook tracks which page
  section is "active" for navigation highlighting. It starts from the first
  section id. It subscribes an IntersectionObserver to the sections that exist
  in the page. On every batch of entries it keeps the intersecting ones, sorts
  them by intersection ratio (largest first, stable), and adopts the top
  entry's id when that id is non-empty. Otherwise it keeps the previous id. It
  disconnects the observer on cleanup.
  - Module `SpySelection` holds the winner rule as functions: `Visible`
    (filter), `SortDesc` (stable descending insertion sort), `Top` and
    `NextActive`. Lemmas relate these to an independent definition,
    `IsFirstMax`: the first intersecting entry whose ratio no intersecting
    entry exceeds.
  - Module `ScrollSpy` holds the lifecycle as the class `Spy`. The
    constructor is the hook's `useState`. `Subscribe` is the effect body and
    `Teardown` its cleanup. `Rerun` is a re-render with changed `sectionIds` or
    `options`. `OnBatch` is the observer callback. The class `Observer` stands
    for the host's observer. Two ghost counters record observers created and
    disconnected. The invariant `Valid` keeps at most one observer live.
  - The methods `Scenarios` and `EmptyFirstList` are clients. They show what
    the contracts give: the first id before any batch, a larger ratio winning,
    no flicker when nothing intersects, one live observer after a re-run, and a
    late batch after teardown being ignored.
- **Header route rules** (`src/components/layout/SiteHeader.tsx`), module
  `SiteHeader`. The header renders nothing when the pathname starts with
  `/projects/nasa-sli`. Otherwise it renders the four nav links in order, and
  highlights a link when the pathname equals its href exactly.
- **Media card aspect** (`src/app/projects/arc/page.tsx`), module
  `ArcMediaCard`. The aspect class is chosen by precedence: a truthy ratio,
  then portrait orientation, then `aspect-video`. The box class wraps it, and
  the alt text is the caption.
- **Gallery strings and table stripes** (`src/app/projects/nasa-sli/page.tsx`),
  module `NasaSliPage`. A filename gives the image src, an alt text with every
  hyphen turned into a space, and a caption that also drops a final `.jpg` in
  any letter case. Specification-table rows alternate `bg-white/5` and
  `bg-transparent`.

Host inputs are parameters:
- The browser's `window` and `document` are a `Host` value: whether `window`
  exists, and the set of element ids in the page.
- The observer's batches are the argument of `OnBatch`.
- The pathname is an argument of `SiteHeader.Render`.

Three consequences of the code are worth stating, since a reader might expect
otherwise:
- `useState` sets the active id once, from the first list, so a re-render with
  a new list never resets it. `EmptyFirstList` shows an empty first list
  followed by `["a"]`: the id stays absent until a batch arrives.
- The winner is chosen only among the entries of the delivered batch, not among
  every section currently in view.
- After a re-render the old active id is kept, even when it is not in the new
  list.

## Model

| member | source | states |
|---|---|---|
| `ScrollSpy.Spy.constructor` | src/hooks/useScrollSpy.ts:6 | the active id starts as the first section id, or absent for an empty list; no observer exists yet |
| `ScrollSpy.Spy.Subscribe` | src/hooks/useScrollSpy.ts:8-33 | without `window` or with an empty list no observer is created; otherwise one fresh connected observer with the merged options observes exactly the ids that resolve, each once; the active id is untouched |
| `ScrollSpy.Spy.Teardown` | src/hooks/useScrollSpy.ts:34-36 | the live observer, if any, is disconnected and dropped, and the disconnect counter grows by one; nothing else changes |
| `ScrollSpy.Spy.Rerun` | src/hooks/useScrollSpy.ts:8-37 | a changed dependency disconnects the old observer before the new one is created, so at most one is live; the new observer carries the merged new options and observes exactly the resolved new ids; the active id is not reset |
| `ScrollSpy.Spy.OnBatch` | src/hooks/useScrollSpy.ts:12-19 | with a live observer the active id becomes `NextActive` of the batch; a changed id is one of the current section ids; with no live observer (late batch after teardown) nothing changes |
| `ScrollSpy.Observer.ObserveAll` | src/hooks/useScrollSpy.ts:32 | after observing a list of elements the observer watches exactly those elements, each once, and stays connected |
| `ScrollSpy.Observer.Observe` | src/hooks/useScrollSpy.ts:32 | observing adds a target once; observing it again changes nothing |
| `ScrollSpy.Observer.Disconnect` | src/hooks/useScrollSpy.ts:35 | the observer stops observing every target and is no longer connected |
| `ScrollSpy.MergeOptions` | src/hooks/useScrollSpy.ts:21-25 | every caller key overrides the default key by key; defaults the caller does not give are kept; the keys are the union |
| `ScrollSpy.NoOptionsGivesDefaults` | src/hooks/useScrollSpy.ts:22-23 | without options the observer uses rootMargin '-20% 0px -60% 0px' and thresholds [0.2, 0.5, 0.8] |
| `ScrollSpy.Resolve` | src/hooks/useScrollSpy.ts:28-30 | an id is kept exactly when it names an element of the page (never the empty id); missing ids are skipped, never an error |
| `SpySelection.Visible` | src/hooks/useScrollSpy.ts:14 | an entry is kept exactly when it is in the batch and intersects; the result is empty exactly when no entry intersects |
| `SpySelection.SortDescIsSortedPermutation` | src/hooks/useScrollSpy.ts:15 | the sort is a permutation of the visible entries, ordered by ratio (missing ratio as 0), largest first |
| `SpySelection.TopIsFirstMax` | src/hooks/useScrollSpy.ts:13-17 | when some entry intersects, the top entry is the first intersecting entry whose ratio is at least every intersecting ratio |
| `SpySelection.FirstMaxIsUnique` | src/hooks/useScrollSpy.ts:15 | a batch has at most one first maximal intersecting entry, so the winner is determined |
| `SpySelection.NextActiveAdoptsFirstMax` | src/hooks/useScrollSpy.ts:13-19 | the new active id is the first maximal entry's id when it is non-empty, and the previous id otherwise |
| `SpySelection.NoIntersectingKeepsActive` | src/hooks/useScrollSpy.ts:17-19 | a batch with no intersecting entry keeps the previous active id |
| `SpySelection.NextActiveCharacterized` | src/hooks/useScrollSpy.ts:13-19 | the id changes only to the non-empty id of the first maximal entry, and such an entry always yields a non-empty id |
| `SpySelection.NonIntersectingIgnored` | src/hooks/useScrollSpy.ts:14 | inserting a non-intersecting entry anywhere in a batch, whatever its ratio, does not change the result |
| `SpySelection.NextActiveFromBatch` | src/hooks/useScrollSpy.ts:13-19 | the new active id is the previous one or the id of an intersecting entry of the batch |
| `SpySelection.TieGoesToEarlier` | src/hooks/useScrollSpy.ts:15 | in a batch of two tied intersecting entries the earlier one wins; the general case is `NextActiveAdoptsFirstMax` |
| `SpySelection.VisibleAppend` | src/hooks/useScrollSpy.ts:14 | the filter keeps batch order: filtering a concatenation gives the filtered parts concatenated |
| `SpySelection.SortDesc` | src/hooks/useScrollSpy.ts:15 | the stable descending sort; characterised by `SortDescIsSortedPermutation` (sorted permutation) and `SortDescStable` (entries of equal ratio keep batch order) |
| `SpySelection.SortDescStable` | src/hooks/useScrollSpy.ts:15 | for every ratio value, the entries with that ratio appear in the sorted sequence in the same order as in the batch |
| `SpySelection.Top` | src/hooks/useScrollSpy.ts:17 | `visible[0]`; characterised by `TopIsFirstMax`: present iff some entry intersects, and then the first maximal intersecting entry |
| `SpySelection.NextActive` | src/hooks/useScrollSpy.ts:13-19 | the active id after a batch; characterised by `NextActiveAdoptsFirstMax`, `NoIntersectingKeepsActive`, `NextActiveCharacterized`, `NonIntersectingIgnored` and `NextActiveFromBatch` |
| `ScrollSpy.Observer.constructor` | src/hooks/useScrollSpy.ts:11-26 | a new observer is connected, observes nothing yet, and keeps the options it was given |
| `SiteHeader.IsHidden` | src/components/layout/SiteHeader.tsx:23 | the hide test; characterised by `HiddenExactlyOnPrefix` and `SubpathsHidden` |
| `ArcMediaCard.OrientationOf` | src/app/projects/arc/page.tsx:24 | an omitted orientation defaults to landscape; used by `VideoExactlyWithoutRatioOrPortrait` |
| `ArcMediaCard.AspectClass` | src/app/projects/arc/page.tsx:24-29 | the aspect precedence; characterised by `RatioWins`, `VideoExactlyWithoutRatioOrPortrait`, `PortraitClassExactly` and `EmptyRatioFallsThrough` |
| `NasaSliPage.AltText` | src/app/projects/nasa-sli/page.tsx:278 | the alt text; characterised by `ReplaceHyphens`'s contract and `AltTextFacts` |
| `NasaSliPage.StripJpg` | src/app/projects/nasa-sli/page.tsx:284 | removes a final '.jpg' in any case and nothing else; characterised by `CaptionFacts` and `OnlyFinalJpgStripped` |
| `NasaSliPage.Caption` | src/app/projects/nasa-sli/page.tsx:284 | the caption; characterised by `CaptionFacts` and `OnlyFinalJpgStripped` |
| `NasaSliPage.Stripe` | src/app/projects/nasa-sli/page.tsx:179 | the row background by index parity; characterised by `StripesAlternate` |
| `SiteHeader.Render` | src/components/layout/SiteHeader.tsx:23-42 | nothing is rendered exactly on the hidden prefix; otherwise one item per nav link in order, highlighted iff the pathname equals its href |
| `SiteHeader.SubpathsHidden` | src/components/layout/SiteHeader.tsx:23 | the hide rule is a prefix match: every extension of a hidden path is hidden |
| `SiteHeader.HiddenExactlyOnPrefix` | src/components/layout/SiteHeader.tsx:23 | the header is hidden iff the pathname exists and its first 18 characters are '/projects/nasa-sli'; a missing pathname shows it |
| `SiteHeader.HrefsDistinct` | src/components/layout/SiteHeader.tsx:13-18 | the hrefs of the nav links are pairwise distinct |
| `SiteHeader.AtMostOneHighlighted` | src/components/layout/SiteHeader.tsx:13-38 | at most one nav link is highlighted for any pathname |
| `SiteHeader.HighlightIffNavPath` | src/components/layout/SiteHeader.tsx:38 | some link is highlighted iff the pathname is exactly one of the hrefs |
| `SiteHeader.ProjectPageHighlightsNothing` | src/components/layout/SiteHeader.tsx:38 | '/projects/arc' shows the header and highlights no link (no prefix matching for highlights) |
| `ArcMediaCard.ArbitraryAspect` | src/app/projects/arc/page.tsx:26 | the ratio class is 'aspect-[' + ratio + ']', and the ratio can be read back from it |
| `ArcMediaCard.Card` | src/app/projects/arc/page.tsx:31-42 | the box class is 'relative w-full ' + aspect + ' overflow-hidden rounded-xl border border-white/10'; the image src is the item's src; alt and caption text are the caption |
| `ArcMediaCard.RatioWins` | src/app/projects/arc/page.tsx:25-26 | a truthy ratio gives its own class whatever the orientation, never 'aspect-video' |
| `ArcMediaCard.VideoExactlyWithoutRatioOrPortrait` | src/app/projects/arc/page.tsx:24-29 | 'aspect-video' appears iff there is no truthy ratio and the orientation is landscape or omitted |
| `ArcMediaCard.PortraitClassExactly` | src/app/projects/arc/page.tsx:25-28 | 'aspect-[3/4]' appears iff the item is portrait without a truthy ratio, or its ratio is '3/4' |
| `ArcMediaCard.EmptyRatioFallsThrough` | src/app/projects/arc/page.tsx:25 | an empty ratio behaves as no ratio |
| `ArcMediaCard.BoxClassHoldsAspect` | src/app/projects/arc/page.tsx:33 | the aspect class stands between the fixed prefix and suffix of the box class |
| `NasaSliPage.ReplaceHyphens` | src/app/projects/nasa-sli/page.tsx:278 | every hyphen, at every position, becomes a space; every other character and the length are kept |
| `NasaSliPage.Tile` | src/app/projects/nasa-sli/page.tsx:276-284 | src is '/images/nasa-sli/' followed by the filename; the alt text has the filename's length and no hyphen; the caption is a prefix of the alt text |
| `NasaSliPage.AltTextFacts` | src/app/projects/nasa-sli/page.tsx:278 | the alt text has no hyphen, and equals the filename iff the filename has none |
| `NasaSliPage.EndsWithJpgUnaffected` | src/app/projects/nasa-sli/page.tsx:284 | the hyphen rewrite neither creates nor removes a final '.jpg' |
| `NasaSliPage.CaptionFacts` | src/app/projects/nasa-sli/page.tsx:284 | the caption has no hyphen, is 4 shorter than the filename exactly when it ends in '.jpg' in any case, and the alt text is the caption followed by the stripped suffix |
| `NasaSliPage.OnlyFinalJpgStripped` | src/app/projects/nasa-sli/page.tsx:284 | without a final '.jpg' (another extension, or '.jpg' mid-name) the caption equals the alt text |
| `NasaSliPage.SpecTable` | src/app/projects/nasa-sli/page.tsx:178-183 | one row view per row, in order, with the row's parameter and value and the stripe of its index |
| `NasaSliPage.StripesAlternate` | src/app/projects/nasa-sli/page.tsx:179 | the first row is 'bg-white/5', neighbouring rows differ, and rows two apart agree |

## Left out

- Subscribe: the host's validation of caller options is not modelled. `new IntersectionObserver` throws a SyntaxError for a malformed `rootMargin` and a RangeError for a threshold outside [0, 1]; the model accepts any options and always creates the observer. The model also assumes that every host with `window` provides `IntersectionObserver`; on a host without it, the constructor call throws a ReferenceError, which the model does not represent.
- OnBatch: a batch is assumed to come only from the live observer. A batch from a disconnected observer, queued before `disconnect()` and delivered after a re-run, is assumed never to arrive. If a host did deliver one, the old callback would set an id from the old list, and `OnBatch`'s promise that a changed id is in the current list would not hold.
- IntersectionObserver geometry: how `rootMargin` and `threshold` decide `isIntersecting` and the ratio is browser behaviour. Batches are inputs, and ratios are reals.
- The comparator's floating-point subtraction is not modelled. The sort compares the ratios themselves. A NaN ratio is represented as `None` and counts as 0, as `|| 0` makes it.
- The order of the observer's targets is not stated. `Subscribe` states which ids are observed, and that each is observed once.
- React scheduling: renders, effect timing and batching of state updates. The hook is driven by explicit calls to the constructor, `Subscribe`, `Rerun`, `Teardown` and `OnBatch`.
- Object identity of the `sectionIds` and `options` dependencies: the model does not decide when React re-runs the effect. `Rerun` is what happens when it does.
- `cn` from `lib/utils` is not part of this model. The highlighted link's class string is represented by the flag `NavItem.highlighted`.
- The header's static markup and the "Mission Inquiry" link carry no decision and are not modelled.
- The `MediaCard` image's `fill`, `sizes` and `className` props, and the gallery's layout classes, are constants with no decision.
- The case-insensitive match covers letter case of ASCII letters only. That is what a non-Unicode `/i` pattern does for the letters of `jpg`.
- Animation components (`Reveal`, `AnimatedSection`, `FadeIn`, the `AnimatedHero` parallax) are cosmetic and floating-point.
- The contact page's copy-to-clipboard with a timer reset uses an asynchronous browser API and a clock.
- `button.tsx`, `image.tsx`, `FigureCard`, `StatCard`, `Section`, `layout.tsx` and `tailwind.config.ts` are thin wrappers or configuration.
- The remaining pages are static content arrays and layout with no decision logic beyond rendering lists.
