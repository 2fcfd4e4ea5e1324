# React Lesson 10 — Responding to Events: the stateful components

This project models the two components of the demo page that hold state:

- **ImageGallery**: an index `currentImageIndex` into a fixed list of three
  image sources. It starts at 0. The Next button sets it to
  `(i + 1) % images.length`. The Previous button sets it to
  `(i - 1 + images.length) % images.length`. The page shows
  `images[currentImageIndex]`.
- **Counter**: a number `count` that starts at 0 and goes up by one per click.
  The button reads `Clicked <count> time` when the count is 1 and
  `Clicked <count> times` otherwise.

Files:

- `js_number.dfy` (module `JsNumber`): the JavaScript number semantics the
  components use. `Rem` is JavaScript's `%`, which truncates toward zero, so
  `-1 % 3` is `-1`; Dafny's own `%` is Euclidean. `Decimal` is the decimal
  text JSX renders for `{count}`, and `DecimalValue` reads it back.
- `gallery.dfy` (module `Gallery`): the two index updaters as functions
  (`NextIndex`, `PrevIndex`), which keep the `+ images.length` term literally.
  `Run` gives the index after any sequence of clicks. The component is the
  class `ImageGallery`. Its field `currentImageIndex` is overwritten by each
  click handler. A ghost field records the clicks so far, and the class
  invariant ties the index to `Run` of that history.
- `counter.dfy` (module `ClickCounter`): the button text `Label` and the
  class `Counter`. A ghost field counts the clicks, and the invariant says
  `count` equals it. `DisplayedCount` reads the number back out of a button
  text, so the lemmas can state that the text shows the count.

The image list is a constructor argument with `|images| > 0`. `Images` is the
page's three-element instance. Each click is one atomic transition on the
component's own field.

## Model

| member | source | states |
|---|---|---|
| JsNumber.Rem | src/App.jsx:60-64 | The `%` of both updaters: the result has the dividend's sign, its magnitude is below the divisor's, and the dividend minus the result is a multiple of the divisor. These three facts pin down the result. |
| JsNumber.RemOfNonNegative | src/App.jsx:64 | On a non-negative dividend and a positive divisor, JavaScript's `%` equals the Euclidean remainder. |
| JsNumber.RemOfMinusOne | src/App.jsx:64 | `-1 % n` is `-1` for every `n > 1`, which is not a valid index. |
| JsNumber.Decimal | src/App.jsx:88 | The rendered `{count}` is non-empty, all decimal digits, and has no leading zero unless it is `0`. |
| JsNumber.DecimalRoundTrip | src/App.jsx:88 | Reading the rendered count back gives the count. |
| JsNumber.DecimalInjective | src/App.jsx:88 | Different counts render as different digit strings. |
| Gallery.NextIndex | src/App.jsx:59-61 | From a valid index, Next yields a valid index: one place forward, or back to 0 from the last image. |
| Gallery.PrevIndex | src/App.jsx:63-65 | From a valid index, Previous yields a valid index, never negative: one place back, or the last index from 0. |
| Gallery.PrevIndexIsEuclidean | src/App.jsx:64 | For a valid index, `i - 1 + images.length` is non-negative, so JavaScript's `%` agrees with the mathematical modulus. |
| Gallery.PrevNeedsOffset | src/App.jsx:64 | Without the `+ images.length` term, Previous from 0 would give -1 on any list of two or more images. With the term it gives the last index. |
| Gallery.PrevAfterNext | src/App.jsx:59-65 | Previous after Next returns the original index. |
| Gallery.NextAfterPrev | src/App.jsx:59-65 | Next after Previous returns the original index. |
| Gallery.Run | src/App.jsx:57-65 | Starting from a valid index, any sequence of Next and Previous clicks leaves the index in `[0, images.length)`. |
| Gallery.NextClicks | src/App.jsx:59-61 | `k` Next clicks from index `i` give `(i + k) mod images.length`. |
| Gallery.PrevClicks | src/App.jsx:63-65 | `k` Previous clicks from index `i` give `(i - k) mod images.length`, which is never negative. |
| Gallery.ClicksFromFirst | src/App.jsx:57-65 | From the initial index 0, `k` Next clicks give `k mod n`. `k` Previous clicks give `(n - k mod n) mod n`. |
| Gallery.ThreeNextClicksWrap | src/App.jsx:50-61 | On the three-image list, three Next clicks from 0 come back to 0. |
| Gallery.ImageGallery.constructor | src/App.jsx:50-57 | The gallery starts at index 0 with no clicks, which is valid because the list is non-empty. |
| Gallery.ImageGallery.HandleNextClick | src/App.jsx:59-61 | The index becomes `NextIndex` of the old index. The click is recorded, and the invariant (index valid and equal to `Run` of the clicks) is kept. |
| Gallery.ImageGallery.HandlePrevClick | src/App.jsx:63-65 | The index becomes `PrevIndex` of the old index. The click is recorded, and the invariant is kept. |
| Gallery.ImageGallery.Src | src/App.jsx:70-71 | The displayed source `images[currentImageIndex]` is an in-bounds access. It is the image that the clicks so far lead to from index 0. |
| Gallery.ThreeNextClicksShowFirst | src/App.jsx:50-74 | A new gallery on the three images shows the first image again after three Next clicks. |
| ClickCounter.LabelShowsCount | src/App.jsx:88 | The button text starts with `Clicked ` and the number after it is the count. |
| ClickCounter.LabelInjective | src/App.jsx:88 | Different counts give different button texts. |
| ClickCounter.LabelSingular | src/App.jsx:88 | The text is `Clicked 1 time` exactly when the count is 1. |
| ClickCounter.LabelPlural | src/App.jsx:88 | The text ends in `times` exactly when the count is not 1, and that includes 0. |
| ClickCounter.Counter.constructor | src/App.jsx:85 | The counter starts at 0 with no clicks. |
| ClickCounter.Counter.HandleClick | src/App.jsx:87 | A click raises the count by exactly 1. Nothing else changes it, so the count always equals the number of clicks. |
| ClickCounter.Counter.Text | src/App.jsx:88 | The button shows the number of clicks so far. It reads `Clicked 1 time` exactly when there has been one click. |
| ClickCounter.FirstClicks | src/App.jsx:85-88 | A new counter reads `Clicked 0 times`. After one click it reads `Clicked 1 time`, and after two it reads `Clicked 2 times`. |

## Left out

- `AlertButton`, `Toolbar` and `Signup` (src/App.jsx:4-6, 25-47, 94-110): these only call `alert`, a browser notification the model cannot see.
- `Button` and `Toolbar` call `stopPropagation` and rely on bubbling (src/App.jsx:13-16, 35-38). This behaviour belongs to React's event dispatcher, which is not part of this model.
- `Signup` calls `preventDefault` (src/App.jsx:96). This is the browser's default-action handling, not logic of the page.
- JSX markup, CSS classes and the `App` layout (src/App.jsx:67-80, 112-144) are rendering only. The model keeps just the value each component displays.
- `useState` scheduling, re-render timing and update batching are React internals. Each click is modelled as one atomic update of the component's own field.
- The image URLs are kept as opaque strings. Fetching and displaying the images is network I/O.
- ClickCounter.Counter.HandleClick: `count` is an unbounded `nat`. JavaScript numbers are doubles, which lose integer precision past 2^53.
- JsNumber.Rem: only integer operands are modelled. A zero divisor gives `NaN` in JavaScript, and the model excludes it. The gallery's divisor is the list length, which is never zero.
