# A verified model of the portfolio page script

`script.js` drives a static portfolio page. It highlights the navigation item of the section
being read, validates the contact form, shows a scroll-to-top button and a mobile menu toggle,
and runs two one-shot intersection observers: one reveals cards, the other lazy-loads images.
This project models the script's decision logic in Dafny. Layout reads (`offsetTop`,
`pageYOffset`, `innerWidth`), the document's ids and the observers' entries become plain
inputs. DOM writes become state changes on values, arrays and small classes.

- `js.dfy` (module `Js`): JavaScript's `null`/`undefined` as `Option`, `slice(1)`, and the
  white-space set shared by `\s` and `trim`. ECMAScript's WhiteSpace and LineTerminator
  characters are written out, using the current list of Unicode space separators. Also
  `trim`, which cuts off the counted leading and trailing white space, with the lemma that a
  trimmed string is empty exactly when the input is all white space.
- `navigation.dfy` (module `Navigation`): the scroll listener.
  - `ResolveCurrent` is the `forEach` loop that keeps overwriting `current`. It is proved
    against `LastReached` and `Current`: the last section in document order with
    `pageYOffset >= offsetTop - 200`, or `''` when no section is reached.
  - `Highlight` is the loop over an array of navigation items. It clears `active` on each
    item, then sets it where `href.slice(1) === current`.
  - A section without an `id` attribute yields `null`, which matches no item.
- `contact_form.dfy` (module `ContactForm`): `validateForm`.
  - The pattern `/^[^\s@]+@[^\s@]+\.[^\s@]+$/` is given two definitions: a reference
    definition read off the pattern (`MatchesEmailPattern`) and a plain string predicate
    (`IsEmail`: no white space, exactly one `@`, a non-empty local part, and a dot with a
    character on each side in the domain).
  - The two are proved equal on every string.
- `page_controls.dfy` (module `PageControls`): the sidebar's `active` class, the visibility
  of the menu toggle and the visibility of the scroll-to-top button. Each listener is a pure
  step function on a `Controls` record. The `Page` class holds the same state as fields, and
  each of its methods is proved to perform its step.
- `observers.dfy` (module `Observers`): a generic `OneShotObserver` class with the observed
  set and the elements' state.
  - Its `Callback` loop is proved against `Run`. `Run` applies the effect to each
    intersecting entry's target and unobserves it.
  - `Notifications` folds several notifications in a row. Each one is delivered against the
    observed set that the previous one left.
  - The two effects are `Reveal` (the fade-in animation) and `LoadImage`
    (`src = dataset.src || src`, plus the class `loaded`).
  - Both effects are idempotent, so an element ends up as if it received its effect once.

Inputs that come from the browser:

- the scroll offset (a `real`; the model ignores floating-point rounding);
- `offsetTop` and `innerWidth` (integers);
- the set of ids in the document, used by `getElementById`;
- the observer entries.

`Deliver` models two facts about the browser's delivery. Records are queued only for targets
the observer observes. Each callback receives the whole queue before it calls `unobserve`.
So within one batch the callback still sees records for a target it has just unobserved.

The model follows the code in three places where its behaviour differs from a loose reading of the page's intent:

- One might expect only the matching entry to be marked active. The code marks every item whose
  `href` minus its first character matches. So at most one item is active only when no two
  items target the same id (`AtMostOneActive`).
- One might expect that above all sections no entry is active. In fact `current` stays `''`,
  so an item whose `href` is `#` (or empty) is highlighted there
  (`NothingReachedHighlightsBareHrefs`).
- The observers are meant to be one-shot, but the callback itself does not check
  whether a target is still observed. The one-shot behaviour comes from `unobserve` together
  with the browser's delivery. Two intersecting entries for one target in the same batch
  would apply the effect twice. Since both effects are idempotent, the result is the same
  as applying it once (`RunElements`).

## Model

| member | source | states |
|---|---|---|
| Js.LeadingWhiteSpace | script.js:76 | the count covers only white space and stops at the first character that is not |
| Js.TrailingWhiteSpace | script.js:76 | the count covers only white space and stops at the last character that is not |
| Js.TrimStart | script.js:76 | the result is the longest suffix of the input that does not start with white space; everything dropped is white space |
| Js.TrimEnd | script.js:76 | the result is the longest prefix of the input that does not end with white space; everything dropped is white space |
| Js.TrimEmptyIff | script.js:76-79 | `s.trim() === ''` exactly when no character of `s` is outside the white-space set |
| Js.TrimIsInfix | script.js:76 | the trimmed string is the contiguous piece of the input left after the leading white space |
| Navigation.LastReached | script.js:14-19 | the index found is -1 or a reached section, and no later section is reached, so it is the last reached section in document order |
| Navigation.ResolveCurrent | script.js:12-20 | the loop ends with `current` = the id of the last section with `pageYOffset >= offsetTop - 200`, or `''` when none qualifies |
| Navigation.CurrentIsLastReachedId | script.js:12-20 | `current` is `''` when no section is reached, and otherwise is the id of the reached section that no reached section follows |
| Navigation.CurrentIsLastReached | script.js:14-19 | once some section is reached, the result is the id of a reached section at or after it |
| Navigation.TieGoesToLater | script.js:14-19 | if two sections share a top and the earlier is reached, the later one (or one after it) wins |
| Navigation.HeightIrrelevant | script.js:15-17 | two section lists that agree on ids and tops resolve alike, whatever the heights |
| Navigation.ScrollingDownNeverGoesBack | script.js:17 | a larger scroll offset never resolves to an earlier section |
| Navigation.SortedSectionsResolveToDeepestReached | script.js:14-19 | with tops strictly increasing, every section up to the resolved one is reached and every later one is still more than 200 below the offset |
| Navigation.Highlight | script.js:22-27 | afterwards each item is active iff `href.slice(1) === current`, and every `href` is unchanged |
| Navigation.OnScroll | script.js:11-28 | after a scroll each item is active iff it targets the resolved section; only the `active` flags change |
| Navigation.AtMostOneActive | script.js:22-27 | if no two items target the same id, at most one item is active |
| Navigation.NothingReachedHighlightsBareHrefs | script.js:12-27 | above every section, exactly the items whose `href` has at most one character are active; a resolved `null` id leaves no item active |
| ContactForm.EmailPredicateSound | script.js:74 | every string the plain predicate accepts is in the pattern's language |
| ContactForm.EmailPredicateComplete | script.js:74 | every string in the pattern's language is accepted by the plain predicate |
| ContactForm.EmailPredicateMatchesPattern | script.js:74 | the plain e-mail predicate and the pattern's language agree on every string |
| ContactForm.FilledIffHasText | script.js:76 | a field is not rejected by the falsy-or-blank test exactly when it is present and holds a non-white-space character |
| ContactForm.ValidateFormIff | script.js:73-82 | `validateForm` is true iff name, subject and message are present and hold non-white-space text, and the e-mail is present and in the pattern's language |
| ContactForm.EmptyEmailFails | script.js:77 | an empty e-mail string is rejected like a missing one |
| ContactForm.AcceptsWellFormedSubmission | script.js:73-82 | name `A`, e-mail `a@b.com`, subject `S`, message `M` passes |
| ContactForm.RejectsEmptyName | script.js:76 | the same submission with an empty name fails |
| ContactForm.RejectsBlankName | script.js:76 | a name of only white space fails |
| ContactForm.RejectsMalformedEmail | script.js:77 | the e-mail `not-an-email` fails |
| ContactForm.RejectsMissingMessage | script.js:79 | a submission without a message fails |
| ContactForm.RejectsDotlessDomain | script.js:74 | `a@b.` is not an e-mail |
| ContactForm.RejectsEmptyLocalPart | script.js:74 | `@b.com` is not an e-mail |
| ContactForm.RejectsSecondAt | script.js:74 | `a@b@c.com` is not an e-mail |
| PageControls.ScrollTopVisibleIff | script.js:139-145 | the button is visible iff the offset is strictly greater than 300; nothing else changes |
| PageControls.ScrollTopBoundary | script.js:140 | at offset 300 exactly the button is hidden; at 300.5 it is shown |
| PageControls.ScrollTopForgetsHistory | script.js:139-145 | visibility depends only on the latest offset |
| PageControls.ResizeRules | script.js:195-202 | the toggle is shown iff width ≤ 768; a wider viewport clears the sidebar's `active`; a narrower one keeps it |
| PageControls.ResizeIdempotent | script.js:195-205 | running `updateMenuToggle` twice at one width equals running it once |
| PageControls.ToggleTwiceRestores | script.js:207-209 | a click flips the sidebar's `active` and nothing else; two clicks restore the original state |
| PageControls.NavClickClosesOnlyForExistingTarget | script.js:34-40 | a nav click clears the sidebar's `active` when `getElementById(href.slice(1))` finds an element, and otherwise changes nothing |
| PageControls.ScrollCommutesWithMenu | script.js:139-209 | the scroll-to-top listener and the menu listeners commute, since they touch disjoint state |
| PageControls.Page.constructor | script.js:114-204 | on load both buttons are hidden, the sidebar keeps its markup state, and `updateMenuToggle` has run once |
| PageControls.Page.OnScroll | script.js:139-145 | the page state after a scroll is the scroll step of the old state |
| PageControls.Page.UpdateMenuToggle | script.js:195-202 | the page state after a resize is the resize step of the old state |
| PageControls.Page.OnToggleClick | script.js:207-209 | the page state after a toggle click is the old state with the sidebar flipped |
| PageControls.Page.OnNavClick | script.js:32-41 | the page state after a nav click is the nav-click step of the old state |
| PageControls.ClickToggleTwice | script.js:207-209 | two toggle clicks leave the page state as it was |
| Observers.Deliver | script.js:224 | the callback receives only records for observed targets, and among the intersecting ones exactly those with observed targets |
| Observers.RunObserved | script.js:220-227 | a batch removes exactly its intersecting targets from the observed set and keeps the set of elements |
| Observers.RunElements | script.js:220-227 | after a batch, an element with an intersecting entry holds the effect applied once; every other element is unchanged |
| Observers.RunUntouched | script.js:222 | an element without an intersecting entry in the batch is unchanged |
| Observers.UnobservedUntouched | script.js:224 | an element that is no longer observed is unchanged by a notification, whatever records it brings |
| Observers.UnobservedStaysUntouched | script.js:224 | an element that is no longer observed stays unobserved and unchanged through any sequence of later notifications |
| Observers.EffectExactlyOnce | script.js:220-227 | after a delivered intersection, an element is unobserved and holds the effect once, and no sequence of later notifications observes or changes it again |
| Observers.OneShotObserver.constructor | script.js:220 | a new observer observes nothing and holds the given effect and elements |
| Observers.OneShotObserver.ObserveAll | script.js:230-233 | observing a list of targets adds exactly those targets to the observed set |
| Observers.OneShotObserver.Callback | script.js:220-227 | the callback loop leaves the observer in the state `Run` gives for the old state and the batch |
| Observers.OneShotObserver.Notify | script.js:327-336 | a notification runs the callback on the records delivered for the old observed set |
| Observers.LoadImageSource | script.js:331-332 | a loaded image's `src` becomes `data-src` when that is present and non-empty, and otherwise stays; the image gets the class `loaded` |
| Observers.EffectsIdempotent | script.js:223 | the reveal effect and the lazy-load effect are idempotent |
| Observers.ImageLoadsOnce | script.js:327-336 | once an image with a `data-src` intersects, it shows that source and keeps it through all later notifications |

## Left out

- `debounce` (script.js:310-320): it relies on timers and is never called.
- `showNotification` (script.js:84-108) and its `setTimeout` dismissal: timers and DOM creation.
  The submit handler's notifications, `form.reset()` and `console.log` are I/O. The model covers
  only `validateForm`'s verdict.
- The parallax effect (script.js:296-304): this is cosmetic pixel arithmetic on live layout reads.
- The project-link `alert` table (script.js:269-290), the console greeting and the injected keyframe styles: these are I/O and presentation.
- DOM element creation, inline CSS, hover transforms (script.js:154-160), `scrollIntoView` and `scrollTo` smooth scrolling: these are browser presentation APIs.
- `IntersectionObserver` scheduling, thresholds and root margins: the model takes entries with an `isIntersecting` flag as given.
  The `'IntersectionObserver' in window` guard (script.js:326) is not modelled. The `style.opacity = '0'` write before observing cards (script.js:231) is not modelled either.
- Navigation.Highlight: does not model a navigation item without an `href` attribute. There, `getAttribute` returns `null` and `slice` throws partway through the loop.
- PageControls.Page.UpdateMenuToggle: the sidebar is assumed to exist. The source dereferences it unguarded (script.js:200, 208, 39) and would throw on a page without one.
- Js.Slice1: strings are sequences of Unicode code points. An `href` whose first character lies outside the Basic Multilingual Plane would lose only half a surrogate pair in JavaScript.
- Js.IsWhiteSpace: the space-separator list follows the current Unicode version; other versions may differ.
- Observers.LoadImage: `img.src` is taken as the attribute string. The browser's resolution of relative URLs and the reload caused by reassigning `src` are not modelled.
- The unused variable `menuToggle` (script.js:167) and the unused `sectionHeight` (script.js:16) have no counterpart. `HeightIrrelevant` proves that heights do not matter.
