# Portfolio gallery and lightbox: a verified model

The site's script shows two image grids and a modal lightbox. The grids are paintings, given as a flat list of file names, and pottery, given as pieces that each have one or more views. This project models the logic under the DOM wiring and proves properties about it:

- **Catalog** (`catalog.dfy`, module `Catalog`). The pottery pieces are flattened into one navigation sequence (`flatMap`). Each piece's start index in that sequence is computed two ways. The render loop does it with the running counter `potteryImageIndex`. The click handler does it with the prefix sum `slice(0, pieceIndex).reduce(...)`. Both are proved to agree and to land on the piece's own images.
- **Lightbox** (`lightbox.dfy`, module `Lightbox`). The viewer state is `currentImageIndex`, `currentImageArray`, the `active` class of the lightbox, the body's scroll lock and the lightbox image's `src`. Each transition is a function on a `ViewerState` value: open, close, next, previous, key dispatch and backdrop click. The class `Viewer` holds the same state in fields, and its methods are proved to follow those functions. The lemmas prove the viewer invariant, index wrap-around, next/previous inverse, and that navigation and keys do nothing once closed.
- **Paths** (`paths.dfy`, module `Paths`). `encodeFilePath` splits on `/`, encodes each segment and joins with `/`. JavaScript's `split` and `join` are modelled exactly. The per-segment encoder (`encodeURIComponent`) is a function parameter.
- **Gallery** (`gallery.dfy`, module `Gallery`). The tiles' click handlers map a painting tile or pottery tile to the arguments of `openLightbox`. For every rendered tile, the index they pass is proved to be in range.

Notes on the model:

- `openLightbox(index, imageArray)` with an index past the end does not fail quietly. `imageArray[index]` is `undefined`, so `encodeFilePath` throws on `undefined.split`. By that point, line 198-199 has already assigned the index and the sequence. The model does exactly this: `OpenStep` assigns both, leaves `src`, `active` and the scroll lock as they were, and `OpenLightbox` returns `threw`.
- `closeLightbox` (script.js:205-209) clears only the active sequence, the `active` class and the scroll lock. `currentImageIndex` and the image `src` keep their values.
- Only the key listener (script.js:239) checks that the viewer is open. The next/previous buttons (script.js:227-228) call `showNextImage`/`showPrevImage` directly, and those check only that the sequence is non-empty (script.js:212, 219). `NavigateAfterCloseIsNoOp` shows that the empty sequence left by a close is enough to make them no-ops.
- Indices are JavaScript numbers that are never negative here. For a non-negative left operand, JavaScript's `%` agrees with Dafny's Euclidean `%`, so the index is a `nat`.

## Model

| member | source | states |
|---|---|---|
| `Paths.Split` | script.js:90 | `split('/')` always yields at least one part, and no part contains the separator |
| `Paths.JoinSplit` | script.js:90 | joining the parts of a split with the separator gives back the original string |
| `Paths.SplitJoin` | script.js:90 | splitting a join of one or more separator-free parts gives back exactly those parts |
| `Paths.EncodeFilePathSegments` | script.js:88-91 | when the encoder never emits '/', the encoded path has as many '/'-segments as the identifier, and segment i is the encoding of segment i, in order |
| `Paths.EncodeDecodeRoundTrip` | script.js:88-91 | when the segment decoder undoes the encoder and the encoder never emits '/', decoding the encoded path gives back the identifier |
| `Catalog.SumImagesIsFlatLength` | script.js:183 | the `reduce` fold over pieces, seeded with acc, equals acc plus the length of their flattening |
| `Catalog.FlattenLength` | script.js:80 | the length of the flattened pottery sequence is the sum of the pieces' image counts |
| `Catalog.FlattenAppend` | script.js:80 | flattening a concatenation of piece lists is the concatenation of their flattenings |
| `Catalog.FlattenPrefixStep` | script.js:80 | extending a prefix of pieces by piece p appends exactly p's images to the flattening |
| `Catalog.FlattenAround` | script.js:80 | the flattened sequence is the flattening of the pieces before p, then p's images, then the flattening of the pieces after p |
| `Catalog.FlattenMembers` | script.js:80 | an identifier is in the flattened sequence exactly when some piece lists it (both directions) |
| `Catalog.FirstImageIndexIsOffset` | script.js:183 | the click handler's prefix sum for piece p is the length of the flattening of pieces 0..p-1 |
| `Catalog.PieceImagesInFlat` | script.js:183-184 | start index plus k is inside the flattened sequence and holds image k of piece p; for k = 0 that is the piece's first image |
| `Catalog.RenderPotteryIndices` | script.js:134-162 | the running counter stored on image k of piece p equals the prefix-sum start index of p plus k, indexes that very image in the flattened sequence, and ends at the flattened length |
| `Gallery.ClickTargetInRange` | script.js:128-184 | both tile click handlers pass `openLightbox` an index inside its sequence, and the entry there is the tile's first image (the painting, or the piece's first view) |
| `Gallery.ClickTile` | script.js:128-184 | clicking any rendered tile opens the viewer without throwing, leaves it in a valid open state, and shows the tile's first image |
| `Gallery.PaintingScenario` | script.js:128-130 | paintings ["a.png","b.png"]: tile 1 opens at index 1 showing "b.png", and ArrowRight wraps to index 0 showing "a.png" |
| `Gallery.PotteryScenario` | script.js:181-185 | pieces with views ["x1","x2"] and ["y1"]: the second tile opens the flattened sequence at index 2 showing "y1" |
| `Lightbox.InitialInvariant` | script.js:84-85 | the page-load state (index 0, empty sequence, closed) satisfies the viewer invariant |
| `Lightbox.OpenShowsEntry` | script.js:197-203 | opening at an in-range index sets index and sequence, shows that entry, opens and locks scrolling, and so establishes the invariant |
| `Lightbox.OpenThrowsWhileClosed` | script.js:197-200 | an open that throws on a closed viewer leaves it closed, unlocked, valid and showing the same image |
| `Lightbox.CloseInvariant` | script.js:205-209 | closing yields a valid closed, unlocked state with no active sequence and leaves the index untouched |
| `Lightbox.NextInRange` | script.js:211-216 | with a non-empty sequence, next leaves the index in [0, n) and shows the entry there; the sequence, open flag and lock are unchanged |
| `Lightbox.PrevInRange` | script.js:218-223 | with a non-empty sequence, previous leaves the index in [0, n) and shows the entry there; the sequence, open flag and lock are unchanged |
| `Lightbox.NextPrevPreserveInvariant` | script.js:211-223 | next and previous preserve the viewer invariant |
| `Lightbox.EmptyNavigationIsNoOp` | script.js:211-223 | with an empty active sequence, next and previous change nothing |
| `Lightbox.IndexStepsInverse` | script.js:211-223 | on indices i < n, (i - 1 + n) mod n undoes (i + 1) mod n, and the reverse |
| `Lightbox.NextPrevInverse` | script.js:211-223 | when the viewer shows entry i of a sequence of length n >= 1, prev(next(s)) == s and next(prev(s)) == s |
| `Lightbox.NextTimesWraps` | script.js:211-216 | after k presses of next from index i, the index is (i + k) mod n |
| `Lightbox.FullCycle` | script.js:211-216 | n presses of next on a sequence of length n come back to the starting index |
| `Lightbox.NavigateAfterCloseIsNoOp` | script.js:205-223 | after a close, any series of next/previous presses before another open leaves the state unchanged |
| `Lightbox.KeyDownsWhileClosedAreIgnored` | script.js:238-248 | while closed, any series of key presses leaves the state unchanged |
| `Lightbox.EscapeThenKeysAreIgnored` | script.js:238-248 | Escape on an open viewer followed by any keys ends in exactly the closed state |
| `Lightbox.KeyDownWhileOpen` | script.js:238-248 | while open, Escape is close, ArrowRight is next, ArrowLeft is previous, and every other key changes nothing |
| `Lightbox.KeyDownsPreserveInvariant` | script.js:238-248 | any series of key presses preserves the viewer invariant |
| `Lightbox.Viewer.constructor` | script.js:84-85 | the viewer starts at index 0 with an empty sequence, closed and unlocked, and valid |
| `Lightbox.Viewer.OpenLightbox` | script.js:197-203 | the new state is `OpenStep` of the old; `threw` is exactly "index out of range"; a successful open is valid, open, and shows `imageArray[index]` |
| `Lightbox.Viewer.CloseLightbox` | script.js:205-209 | the new state is `CloseStep` of the old, and it is valid |
| `Lightbox.Viewer.ShowNextImage` | script.js:211-216 | the new state is `NextStep` of the old, and validity is preserved |
| `Lightbox.Viewer.ShowPrevImage` | script.js:218-223 | the new state is `PrevStep` of the old, and validity is preserved |
| `Lightbox.Viewer.KeyDown` | script.js:238-248 | the new state is `KeyDownStep` of the old, and validity is preserved |
| `Lightbox.Viewer.BackdropClick` | script.js:231-235 | a click whose target is the backdrop closes; any other click changes nothing; validity is preserved |

## Left out

- Lightbox.Viewer.OpenLightbox: promises validity after a throwing open only when the viewer was closed. An out-of-range open on an already open viewer keeps `active` with an index outside the new sequence. No rendered tile can cause that: see `Gallery.ClickTargetInRange`.
- Gallery.ClickTargetInRange: assumes the clicked pottery piece has at least one image, as every piece of the literal catalog does (script.js:52-77). The code does not check this. A piece with no images gets the start index of the next non-empty piece's first image, or one past the end.
- The percent-encoding itself (`encodeURIComponent` / `decodeURIComponent`): a browser library function, so it is a parameter. The only assumptions are that its output never contains '/' and that the decoder inverts it.
- Hamburger menu toggle, menu collapse and smooth scrolling (script.js:1-30): DOM class toggles and browser scroll calls.
- DOM element creation, `alt`/`className` strings, the "N views" badge and the piece label (script.js:101-188 apart from the index logic): markup generation.
- Image `onload`/`onerror` handlers and console logging (script.js:114-122, 155-158): asynchronous browser callbacks and diagnostics.
- Hero image loading on `DOMContentLoaded` (script.js:94-99): I/O glue.
- Navbar scroll shadow and the `IntersectionObserver` fade-in (script.js:251-295): viewport events, CSS strings and fractional timing.
- The literal file-name lists (script.js:33-77): the model takes the painting list and the pieces as parameters, and nothing depends on their contents.
- JavaScript numbers are doubles. The indices stay small non-negative integers, so they are modelled as unbounded `nat`s.
- The close and next/previous buttons (script.js:226-228): plain listener registration. They call the modelled methods with no logic of their own.
