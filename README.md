# Site scripts and test helpers, modelled in Dafny

This project models the logic of a personal static website's browser scripts
and of its test helpers:

- **Theme controller** (`ThemeToggle`). This script has two copies with the same
  logic: `src/assets/js/theme-toggle.js` and its deployed copy
  `docs/assets/js/theme-toggle.js`. It keeps three things in agreement: the
  stored override (`localStorage` key `theme`), the browser's "prefers dark"
  media query, and what the page shows (`data-theme` on the document element and
  `aria-pressed` on the toggle button). It is a class with those four fields. Page
  load is the constructor; toggle click, reset click and the media query's `change`
  event are methods. The object invariant `Valid()` says that the page shows
  `getTheme()` and that `aria-pressed` is true exactly for `dark`. The constructor
  and every handler establish it or keep it. One model covers both copies, line for
  line: `getTheme` is src 8-12 / docs 22-26; `setTheme` is src 15-21 / docs 34-40;
  init is src 24 / docs 43; toggle is src 27-31 / docs 46-50; reset is src 34-37 /
  docs 53-56; the change listener is src 40-44 / docs 59-63.
- **Newsletter form** (`Newsletter`, `src/assets/js/newsletter.js`). This is a class
  holding the stored time of the last successful submission, the message
  container's text and class list, and the submit button's `disabled` flag and
  `value`. The submit handler is split where the browser splits it. `Submit(now)`
  is the synchronous part up to `fetch`. `Complete(ok)` is the
  `then`/`catch`/`finally` chain once the response settles. The rate-limit rule and
  its ceiling-to-seconds arithmetic are pure functions. `RateLimitAfterSuccess`
  connects them across calls: after a success at time `t`, a submission at `now`
  is held back exactly when `now - t < 60000`. Its proof rests on `parseInt`
  reading back the stored `now.toString()`.
- **`byCategory`** (`Filters`, `tests/unit/filters.test.js`). This filter is
  `Array.prototype.filter` over the book collection. `JsBuiltins.Filter` is proved
  to keep exactly the matching elements, with their multiplicities, in their order.
- **Visual-suite helpers** (`VisualPages`, `tests/visual/pages.spec.js`). These
  are the viewport and browser names taken from a project name, and the
  path-to-file-name transformation used in screenshot names.
- **Accessibility checks** (`Accessibility`, `tests/visual/accessibility.spec.js`).
  The heading-nesting loop is a method proved against a counting function. The
  "missing alt / label / text" counts are `filter(...).length` over element
  records.

The JavaScript built-ins these rely on are in `JsBuiltins`. They are stated over
Dafny values: `filter`, `trim` with ECMAScript's white-space set, `includes`,
`parseInt` without a radix (leading white space, sign, `0x` prefix, longest digit
run, NaN as `None`) and the decimal rendering of an integral Number.

## Model

| member | source | states |
|---|---|---|
| ThemeToggle.EffectiveTheme | src/assets/js/theme-toggle.js:8-12 | A present, non-empty stored value is returned verbatim. Otherwise the result is `dark` when the system prefers dark and `light` when it does not. The result is never empty. |
| ThemeToggle.SystemTheme | docs/assets/js/theme-toggle.js:25 | The system theme is `dark` or `light`, and it is `dark` exactly when the media query matches. |
| ThemeToggle.Toggled | docs/assets/js/theme-toggle.js:48 | A toggle always yields `dark` or `light` and always differs from the current theme. It yields `light` exactly when the current theme is `dark`. |
| ThemeToggle.ToggledTwice | src/assets/js/theme-toggle.js:27-31 | On `dark` and `light`, toggling twice gives back the original theme. |
| ThemeToggle.ThemeController.SetTheme | src/assets/js/theme-toggle.js:15-21 | `data-theme` becomes the theme and `aria-pressed` becomes `theme == dark`, every time. Storage becomes the theme when `persist` is set and is unchanged otherwise. The system preference is untouched. |
| ThemeToggle.ThemeController.constructor | docs/assets/js/theme-toggle.js:43 | Page load applies the effective theme (so `Valid()` holds) and leaves storage exactly as it found it. |
| ThemeToggle.ThemeController.ToggleClick | src/assets/js/theme-toggle.js:27-31 | The page shows the toggle of the previous effective theme, and that theme is now stored. So a later `getTheme` returns it, and `Valid()` holds. |
| ThemeToggle.ThemeController.ResetClick | docs/assets/js/theme-toggle.js:53-56 | The stored key is removed and the page shows the system theme, so `Valid()` holds. |
| ThemeToggle.ThemeController.SystemChange | src/assets/js/theme-toggle.js:40-44 | Storage is never written. With an override stored, the page keeps `data-theme` and `aria-pressed`. Without one, the page follows the new system theme. `Valid()` is preserved. |
| ThemeToggle.ToggleTwice | docs/assets/js/theme-toggle.js:46-50 | Two toggle clicks restore a `dark`/`light` effective theme and leave it stored as the override. |
| Newsletter.RemainingSeconds | src/assets/js/newsletter.js:72 | The wait is the ceiling of the remaining milliseconds over 1000: `(s-1)*1000 < 60000 - elapsed <= s*1000`. It is at least 1, and at most 60 when the elapsed time is not negative. |
| Newsletter.CheckRateLimit | src/assets/js/newsletter.js:66-76 | A submission is held back exactly when a stored value parses to a number less than 60000 ms before `now`. An absent or empty value, or one `parseInt` reads as NaN, never holds it back. A wait is for `RemainingSeconds(now - parseInt(stored))`, the rounded-up seconds left in the minute, and so is at least one second. |
| Newsletter.RateLimitAfterSuccess | src/assets/js/newsletter.js:66-98 | After a success at `t` stores `t.toString()`, a submission at `now` is held back exactly when `now - t < 60000`. When `t <= now` it is told to wait `RemainingSeconds(now - t)`, which is at most 60 seconds. |
| Newsletter.NewsletterForm.constructor | src/assets/js/newsletter.js:22-30 | The created message container is hidden and empty, the button is enabled and nothing is in flight. |
| Newsletter.NewsletterForm.ShowMessage | src/assets/js/newsletter.js:38-42 | The text is set and the class list becomes the base class, the type-specific class and `is-visible`. |
| Newsletter.NewsletterForm.HideMessage | src/assets/js/newsletter.js:47-51 | The text is emptied and the class list is just the base class, so the message is not visible. |
| Newsletter.NewsletterForm.Submit | src/assets/js/newsletter.js:61-94 | The message is hidden first. A request is sent exactly when the rate limit allows it. If held back, the wait message is shown as an error and the button and request count are untouched. If sent, the button is disabled, reads "Subscribing..." and remembers its old text and `now`. The stored time never changes here. |
| Newsletter.NewsletterForm.Complete | src/assets/js/newsletter.js:95-116 | The request's `now` is stored only on success, and storage is unchanged on failure. The success or failure message is shown. Either way the button is re-enabled with its original text. |
| Newsletter.SubmitTwiceWithinAMinute | src/assets/js/newsletter.js:61-116 | After a successful submission at `t`, a second attempt less than a minute later sends nothing, leaves the button enabled and shows the wait in seconds. |
| JsBuiltins.Filter | tests/unit/filters.test.js:38 | The result holds each element satisfying the predicate exactly as often as the input does, and nothing else. It is no longer than the input. It is empty exactly when no element satisfies the predicate. |
| JsBuiltins.FilterPreservesOrder | tests/unit/filters.test.js:96-98 | The filtered sequence is a subsequence of the input: kept elements keep their relative order. |
| Filters.ByCategoryCorrect | tests/unit/filters.test.js:37-39 | For `ByCategory`, the filter itself: every result book has the category. Every input book of the category is in the result, as often as in the input. Order is preserved and the result is no longer than the input. |
| Filters.ByCategoryEmpty | tests/unit/filters.test.js:101-114 | The result is empty exactly when no book has the category. An empty collection gives an empty result. |
| Filters.ByCategoryExample | tests/unit/filters.test.js:89-108 | The unit test's collection: `design` yields books 1 and 3 in that order, and `nonexistent` yields nothing. |
| JsBuiltins.Includes | tests/visual/pages.spec.js:29 | `includes` is true exactly when the substring occurs at some index of the string. |
| VisualPages.ViewportName | tests/visual/pages.spec.js:27-32 | The viewport is `mobile` exactly when the name contains "mobile", even when it also contains "tablet". Otherwise it is `tablet` when the name contains "tablet", and `desktop` when it contains neither. |
| VisualPages.BrowserName | tests/visual/pages.spec.js:35-40 | The browser is `webkit` exactly when the name contains "webkit", ahead of "firefox". Otherwise it is `firefox` when the name contains "firefox", and `chromium` when it contains neither. |
| VisualPages.ReplaceSlashes | tests/visual/pages.spec.js:152 | The length is kept; every `/` becomes `-` and every other character stays in place. |
| VisualPages.SafeNameShape | tests/visual/pages.spec.js:149-153 | `SafeName` is the path-to-file-name function. A safe name is never empty and holds no `/`. Only "", "/" and "//" leave an empty core, so the `index` default applies to those three alone. A path such as "/index/" also gives `index`, because its core is "index". Whenever the core is not empty, the safe name is the path with at most one slash cut from each end and the rest turned into dashes, character for character. |
| VisualPages.SafeNameOfNestedPage | tests/visual/pages.spec.js:149-152 | `/a/b/` becomes `a-b` for non-empty, slash-free segments. |
| VisualPages.SafeNameExamples | tests/visual/pages.spec.js:149-153 | "/" gives `index`, and `/writing/marks-on-blank-pages/` gives `writing-marks-on-blank-pages`. |
| Accessibility.HeadingLevelIssues | tests/visual/accessibility.spec.js:52-66 | The loop, with `previousLevel` starting at 0, returns `SkippedLevels` of the heading levels. |
| Accessibility.SkippedLevelsCountsPositions | tests/visual/accessibility.spec.js:57-63 | The count `SkippedLevels` equals the number of positions `i >= 1` whose level is more than one above the level at `i - 1`. |
| Accessibility.SkippedLevelsBound | tests/visual/accessibility.spec.js:54-65 | The count is at most `n - 1` for `n` headings, and 0 for none. |
| Accessibility.NoSkippedLevelsIff | tests/visual/accessibility.spec.js:59-67 | The check passes exactly when no heading goes more than one level deeper than its predecessor. Equal or shallower levels never count, and the first heading may have any level. |
| Accessibility.ImagesWithoutAlt | tests/visual/accessibility.spec.js:33-37 | The count is the number of positions whose image has no `alt`. So it is at most the number of images, and zero exactly when every image has `alt`. |
| Accessibility.InputsWithoutLabels | tests/visual/accessibility.spec.js:40-49 | The count is the number of positions whose input is not hidden and has none of a matching `label[for]`, an `aria-label` or an `aria-labelledby`. So it is at most the number of inputs, and zero exactly when every non-hidden input has one of the three. |
| JsBuiltins.Trim | tests/visual/accessibility.spec.js:73 | `trim` returns a contiguous slice of its input, and everything outside the slice is white space. The slice has no white space at either end, and it is empty exactly when the input is all white space. |
| Accessibility.LacksTextIff | tests/visual/accessibility.spec.js:71-76 | `LacksText`, the filter's `!text && !ariaLabel`, holds for a link or button exactly when its text is all white space and its `aria-label` is absent or empty. |
| Accessibility.WithoutDiscernibleText | tests/visual/accessibility.spec.js:81-89 | The count is the number of positions whose link (or button) satisfies `LacksText`. So it is at most the number of elements, and zero exactly when each has visible text or a non-empty `aria-label`. |
| JsBuiltins.IntToString | src/assets/js/newsletter.js:98 | `now.toString()` is never empty and does not start with white space. It starts with `-` exactly for a negative number. |
| JsBuiltins.ParseIntToString | src/assets/js/newsletter.js:70 | `ParseInt` (with its unsigned part `ParseMagnitude`) of the decimal rendering of any integer gives back that integer. This holds also when the rendering is followed by text whose first character is neither a digit nor `x`/`X`. |
| Newsletter.WaitTextNamesSeconds | src/assets/js/newsletter.js:73 | `WaitText` starts with "Please wait ", and the number right after that reads back as the number of seconds. |
| JsBuiltins.FilterLength | tests/visual/accessibility.spec.js:35 | `filter(p).length` is the number of positions whose element satisfies `p`. |
| JsBuiltins.FilterTwice | tests/visual/accessibility.spec.js:41-47 | Filtering by `p` and then by `q` gives the same sequence as one filter by `p && q`. This covers the non-hidden selector followed by the label filter. |

## Left out

- Animation: neither theme script animates the change. The model follows the
  scripts and has no overlay, circular reveal, reduced-motion bypass,
  covering-radius geometry or fallback timer, since the scripts have none.
- Storage errors: the scripts do not treat an unavailable storage as "no
  preference", and they do not check that only `dark`/`light` is stored. They
  return any non-empty stored string verbatim, and an exception from
  `localStorage` is not caught. The model follows the scripts: the stored value
  is any string.
- Browser APIs: the DOM lookups, `addEventListener`, `matchMedia` and
  `localStorage` are fields and methods of the classes. Events are method calls.
  `aria-pressed` is a boolean; the browser renders it as "true"/"false".
- Other tabs: writes to `theme` from another tab are not handled by the script and
  are not modelled. Such a write could leave the page out of step with storage
  until the next toggle or reset.
- Newsletter I/O: the `fetch` to the subscription service, `FormData` and
  `form.reset()` are left out. The response outcome is the `ok` parameter of
  `Complete`, and `Date.now()` is the `now` parameter of `Submit`. A page without
  the form (the script returns at once) is not modelled.
- Newsletter.NewsletterForm.Submit: requires the submit button to be enabled. A
  browser does not submit a form whose only submit button is disabled, so
  overlapping requests are not modelled.
- Newsletter.NewsletterForm.constructor: models a freshly created message
  container. A container already in the page's markup, whose initial text and
  classes would be arbitrary, is not modelled. Its static `role` and `aria-live`
  attributes are not modelled either.
- Newsletter.NewsletterForm.Complete: a `localStorage.setItem` that throws on the
  success path would end in the failure message. That path is not modelled.
- JsBuiltins.ParseInt: integers are unbounded. The rounding of Numbers above 2^53
  and the exponent form of `toString` for magnitudes of 10^21 and more are not
  modelled.
- Newsletter.RemainingSeconds: `Math.ceil` of a floating-point quotient is modelled
  as an exact integer ceiling. The two agree for any difference of realistic
  timestamps.
- Accessibility.InputsWithoutLabels: `[type="hidden"]` matching is a boolean on
  the input record. `HasLabel` matches an `id` against the labels' `for` values by
  plain string equality. The source puts the `id` inside a CSS string, and the
  model does not process CSS escapes there. So an `id` with a backslash escape
  (`a\b` selects "a" followed by U+000B) can match a different label, or none.
  The selector error that an `id` raises when it holds a quote or a newline, or
  ends in a backslash, is not modelled either.
- Accessibility.HeadingLevelIssues: heading levels are the integers 1 to 6, which
  is what `parseInt` of an `h1`...`h6` tag name yields.
- `dateIso` and `dateReadable` in the unit tests are not modelled. They wrap the
  platform's date formatting. The test runner's counters and `process.exit` are
  not modelled either.
- Playwright work is not modelled: navigation, waits, image and font loading,
  screenshots and the `discoverLinks` crawl are browser I/O.
- `tests/visual/performance.spec.js` is not modelled: it is wall-clock timing and
  pixel geometry. `playwright.config.js` and `.eleventy.js` are configuration.
