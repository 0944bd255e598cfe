# Hyper Meat site behaviour, modelled in Dafny

This project models the behaviour of a small marketing site's client script
(`src/main.js`) and of the script that refreshes its weekly specials
(`execution/fetch_specials.py`). The browser and the network are replaced by
explicit inputs: the scroll offset, the current time in milliseconds, the
user-agent string and the `window.MSStream` flag, the standalone display-mode
flag, each intersection entry's `isIntersecting` flag, the fetch result, the
user's answer to the native install prompt, the scraped page text with its
regular-expression matches, and the success of each download.

DOM state (class lists, inline `display` and `visibility` styles, the
install button's label, the stored dismissal time) is held in class fields,
and each browser event is a method.

Modules, one file each:

- `Common` (`common.dfy`): an optional value, the inline `display` style, and the special-offer record `{title, subtitle, image}`.
- `Text` (`text.dfy`): substring search, ASCII lower-casing, and Python's single-pass `str.replace`, with lemmas about them.
- `InstallPrompt` (`install.dfy`): the one-hour dismissal rule `ShouldShowBanner`, the platform label chain `PlatformLabel`, and the `Controller` class. The controller holds the banner display, the button label, the captured `beforeinstallprompt` event and `localStorage['pwaDismissedTime']`.
- `Navbar` (`navbar.dfy`): the scroll handler as a step function on `(scroll-up, scroll-down, transform, lastScroll)`, and the `Header` class whose `OnScroll` follows it.
- `ScrollReveal` (`reveal.dfy`): the two one-shot intersection observers. Each element gets a `Pending`/`Revealed` tag and an observed set.
- `SpecialsGrid` (`specials.dfy`): the specials grid. It ends with one card per record, or with a single fallback message.
- `Lightbox` (`lightbox.dfy`): the image overlay: opening it, the close button, and click-outside-to-close.
- `MobileMenu` (`menu.dfy`): the navigation toggle and its icon.
- `FetchSpecials` (`fetch_specials.dfy`): URL decoding and filtering, the fixed record list, and the all-or-nothing update of `specials.json`.

Behaviours of the code worth knowing:

- At a scroll offset of 0 or less the header handler only removes `scroll-up` and returns. It does not force the header visible. After a jump from 100 straight to 0 the header stays hidden (`Navbar.JumpToTopKeepsHeaderHidden`).
- Closing the banner does not discard a captured install prompt. A declined prompt is kept too: only `'accepted'` clears it.
- Every `beforeinstallprompt` event overwrites the captured prompt. Nothing limits the capture to one.
- The scraper removes duplicate matches before it decodes them. Two matches that differ only by an escaped slash both survive and decode to the same URL, which can be downloaded into two slots when both are among the first three (`FetchSpecials.DedupBeforeDecodeKeepsTwins`).
- The label chain tests "windows"/"mac" on the lower-cased user agent before it tests for iOS. An iPhone user agent that says "like Mac OS X" therefore gets the desktop label (`InstallPrompt.IPhoneWithMacOSGetsDesktopLabel`).

## Model

| member | source | states |
|---|---|---|
| `InstallPrompt.ShouldShowBanner` | src/main.js:60-67 | the eligibility rule: no dismissal time stored, or more than 3,600,000 ms (strictly) since the stored time |
| `InstallPrompt.IsIOS` | src/main.js:80 | "iPad", "iPhone" or "iPod" found case-sensitively on the raw user agent, and no `window.MSStream` |
| `InstallPrompt.PlatformLabel` | src/main.js:75-84 | the first-match chain: "android" in the lower-cased user agent, else "windows" or "mac", else iOS, else the generic download label |
| `InstallPrompt.ThirtyMinutesAfterDismissalHidden` | src/main.js:60-67 | 30 minutes after a dismissal the banner is not eligible |
| `InstallPrompt.SixtyOneMinutesAfterDismissalShown` | src/main.js:60-67 | 61 minutes after a dismissal the banner is eligible |
| `InstallPrompt.ExactlyOneHourAfterDismissalHidden` | src/main.js:60-67 | exactly 3,600,000 ms after a dismissal the banner is still not eligible (the bound is strict) |
| `InstallPrompt.DismissalBlocksForOneHour` | src/main.js:60-67 | after a dismissal at t, eligibility holds exactly when now >= t + 3,600,001 |
| `InstallPrompt.EligibilityIsMonotone` | src/main.js:60-67 | once eligible, the banner stays eligible at every later time |
| `InstallPrompt.LabelsAreDistinct` | src/main.js:76-84 | the four labels of the chain (Android, desktop, Apple, generic) are pairwise different |
| `InstallPrompt.AndroidInAnyCaseGetsAndroidLabel` | src/main.js:75-77 | a user agent containing "android" in any letter case gets the Android label, whatever else it contains |
| `InstallPrompt.AppleLabelNeedsIOSWithoutMac` | src/main.js:75-84 | the Apple label implies an iPad/iPhone/iPod user agent without MSStream that has no "android", "windows" or "mac" in any case |
| `InstallPrompt.IPhoneWithMacOSGetsDesktopLabel` | src/main.js:75-81 | a user agent naming "iPhone" and "Mac" (and not Android) gets the desktop label, because the Windows/Mac test comes first |
| `InstallPrompt.Controller.constructor` | src/main.js:52-57 | no captured prompt, banner display untouched, stored time as read from storage |
| `InstallPrompt.Controller.CapturePrompt` | src/main.js:89-93 | a `beforeinstallprompt` event is captured and nothing is shown |
| `InstallPrompt.Controller.TimerFired` | src/main.js:96-102 | outside standalone mode and when eligible, the banner becomes `flex` and the label is the chain's label; otherwise display and label are unchanged |
| `InstallPrompt.Controller.InstallClick` | src/main.js:105-119 | with a captured prompt the banner becomes `none` whatever the choice, and the capture is cleared only on `accepted`; without one the display is unchanged and the iOS instructions are shown exactly for iOS |
| `InstallPrompt.Controller.CloseClick` | src/main.js:123-126 | the banner becomes `none`, the stored time becomes `now`, and the banner is then not eligible at that instant |
| `InstallPrompt.DismissThenTimer` | src/main.js:121-127 | a dismissal followed within the hour by the timer leaves the banner hidden and the label unchanged |
| `Navbar.Step` | src/main.js:301-320 | one scroll event: at an offset <= 0 only `scroll-up` goes; a larger offset without `scroll-down` hides the header; a smaller one with `scroll-down` shows it; below the top the offset is recorded |
| `Navbar.Run` | src/main.js:300-321 | a sequence of scroll events applied first to last |
| `Navbar.StepKeepsConsistent` | src/main.js:303-320 | one scroll event keeps the classes exclusive, `scroll-down` tied to the hiding transform and `scroll-up` to the showing one |
| `Navbar.RunKeepsConsistent` | src/main.js:300-321 | any sequence of scroll events keeps that consistency, so the header never carries both classes |
| `Navbar.NeverBothClasses` | src/main.js:298-321 | starting from the loaded page (no class, `lastScroll` 0), no scroll sequence puts both `scroll-up` and `scroll-down` on the header |
| `Navbar.TopOfPageOnlyClearsScrollUp` | src/main.js:303-306 | at an offset <= 0 only `scroll-up` is removed; `scroll-down`, the transform and `lastScroll` are unchanged |
| `Navbar.StepFollowsDirection` | src/main.js:308-320 | below the top, scrolling down leaves the header hidden, scrolling up leaves it not hidden, and the offset is recorded |
| `Navbar.ScrollDownThenUp` | src/main.js:298-321 | offsets 0, 50, 100 end in `scroll-down`; a following 60 switches to `scroll-up` with the showing transform |
| `Navbar.JumpToTopKeepsHeaderHidden` | src/main.js:303-306 | after offsets 100 then 0 the header still carries `scroll-down` and the hiding transform |
| `Navbar.Header.constructor` | src/main.js:297-298 | the header starts with neither class, no transform and `lastScroll` 0 |
| `Navbar.Header.OnScroll` | src/main.js:300-321 | one scroll event updates the header as the step function says and keeps it consistent |
| `ScrollReveal.Intersected` | src/main.js:248-249 | the targets of a batch's intersecting entries |
| `ScrollReveal.IntersectedMeans` | src/main.js:248-249 | an element is revealed by a batch exactly when one of the batch's entries targets it and is intersecting |
| `ScrollReveal.NoIntersectionRevealsNothing` | src/main.js:249 | a batch of non-intersecting entries reveals nothing |
| `ScrollReveal.IntersectedWithin` | src/main.js:247-264 | a batch reveals only its own targets |
| `ScrollReveal.Engine.constructor` | src/main.js:269-292 | every selected element is registered `Pending`, observed, hidden and without `animate__fadeInUp`; the heritage image is observed without `reveal-color` |
| `ScrollReveal.Engine.OnEntries` | src/main.js:247-266 | each intersecting target becomes `Revealed`, visible, gains `animate__fadeInUp` and leaves the observed set; everything else, and every already revealed element, is unchanged |
| `ScrollReveal.Engine.OnHeritageEntries` | src/main.js:281-290 | an intersecting entry adds `reveal-color` and unobserves the image; otherwise nothing changes; `reveal-color` is gained at most once |
| `SpecialsGrid.Renderable` | src/main.js:195-230 | definition: the response parsed into an array whose every element is a readable record, so the `try` block finishes without throwing |
| `SpecialsGrid.CardFor` | src/main.js:203-229 | definition: the card built for one record is visible, carries `animate__fadeInUp`, and its image opens the lightbox on the record's image and title |
| `SpecialsGrid.Grid.constructor` | src/main.js:192-193 | the grid starts with whatever the page holds (the loading placeholder) |
| `SpecialsGrid.Grid.Load` | src/main.js:195-235 | a fully readable array gives exactly one visible `animate__fadeInUp` card per record, in order, each opening the lightbox on its image and title; any failure, also partway through the loop, gives exactly one fallback message and no card |
| `SpecialsGrid.AllCardsCounted` | src/main.js:202-230 | a grid made only of cards has as many cards as children |
| `SpecialsGrid.ClickCardImage` | src/main.js:223-224 | clicking a card's image opens the lightbox with that card's source and caption |
| `Lightbox.Viewer.constructor` | src/main.js:131-133 | the overlay elements found at load; display not yet written |
| `Lightbox.Viewer.Open` | src/main.js:154-159 | with the image element present, display `block`, the given source, and the caption when its element exists; otherwise nothing changes |
| `Lightbox.Viewer.CloseButtonClick` | src/main.js:139-144 | the close control sets display `none` |
| `Lightbox.Viewer.Click` | src/main.js:147-151 | a click closes the overlay only when its target is the overlay itself |
| `Lightbox.OpenClickImageThenBackdrop` | src/main.js:147-159 | open, image click (still open, same image), backdrop click (closed) |
| `MobileMenu.Menu.constructor` | src/main.js:15-18 | the nav and icon classes as the markup has them |
| `MobileMenu.Menu.ButtonClick` | src/main.js:19-30 | `active` is toggled, and afterwards the icon is `fa-times` exactly when the nav is active and `fa-bars` otherwise |
| `MobileMenu.Menu.LinkClick` | src/main.js:33-40 | a link click leaves the nav inactive with the `fa-bars` icon |
| `FetchSpecials.IsCandidate` | execution/fetch_specials.py:40 | a match of the pattern: starts with `https://scontent`, has `.jpg` after at least one more character, and has none of space, `\t`, `\n`, `\r`, `\v`, `\f`, `"` or `'` |
| `FetchSpecials.Decode` | execution/fetch_specials.py:52-53 | every `\/` replaced by `/`, then every `&amp;` by `&`, each in one left-to-right pass |
| `FetchSpecials.IsSmallIcon` | execution/fetch_specials.py:56 | the URL contains `p50x50` or `s50x50` |
| `FetchSpecials.Accepted` | execution/fetch_specials.py:49-57 | the decoded URLs of the enumeration that are no small icon, in enumeration order |
| `FetchSpecials.FirstThree` | execution/fetch_specials.py:60 | Python's `[:3]` |
| `FetchSpecials.FileName` | execution/fetch_specials.py:122 | `special{i+1}.jpg` for download index i |
| `FetchSpecials.OutputPath` | execution/fetch_specials.py:122 | the file name joined to `public/images` |
| `FetchSpecials.DedupBeforeDecodeKeepsTwins` | execution/fetch_specials.py:43-57 | for any host and file name without space, quote, backslash or ampersand, the matches `https://scontent<host>\/<name>.jpg` and `https://scontent<host>/<name>.jpg` are both candidates, are distinct (so deduplication keeps both), and, when the unescaped URL is no icon, `FirstThree(Accepted([escaped, plain]))` is `[plain, plain]` |
| `Text.Contains` | src/main.js:76 | substring search, as `includes` and Python's `in` do it |
| `Text.Lower` | src/main.js:75 | `toLowerCase` on ASCII letters |
| `Text.Replace` | execution/fetch_specials.py:52-53 | Python's `str.replace`: non-overlapping occurrences, found left to right, replaced in one pass |
| `FetchSpecials.ExtractImageUrls` | execution/fetch_specials.py:43-60 | the result is the first three decoded non-icon URLs in enumeration order: at most 3, none containing `p50x50`/`s50x50` after decoding, each the decoding of a candidate, starting with `https://scontent` and free of spaces and quotes |
| `FetchSpecials.AcceptedProperties` | execution/fetch_specials.py:49-57 | every kept URL is the decoding of an input and is no small icon |
| `FetchSpecials.DecodeKeepsPrefix` | execution/fetch_specials.py:51-53 | decoding keeps the `https://scontent` prefix |
| `FetchSpecials.DecodeAvoidsSpaceAndQuote` | execution/fetch_specials.py:51-53 | decoding introduces no whitespace or quote character |
| `FetchSpecials.DecodeWithoutEscapes` | execution/fetch_specials.py:51-53 | a candidate without `\/` and `&amp;` is returned as matched |
| `FetchSpecials.AmpersandDecodedOnce` | execution/fetch_specials.py:53 | the replacement is a single pass: `&amp;amp;` becomes `&amp;`, not `&` |
| `FetchSpecials.SpecialsData` | execution/fetch_specials.py:74-94 | exactly three records; record i's image is `/images/` plus the download loop's file name `special{i+1}.jpg`, which is the written path without `public` |
| `FetchSpecials.EnumeratesDistinct` | execution/fetch_specials.py:43 | definition of `list(set(candidates))`: no element twice, and exactly the candidates' elements, in any order |
| `FetchSpecials.CountTrue` | execution/fetch_specials.py:120-124 | definition of `success_count`: the number of successful downloads |
| `FetchSpecials.CountTrueThree` | execution/fetch_specials.py:120-126 | three download results count to three exactly when all three succeeded |
| `FetchSpecials.RunScraper` | execution/fetch_specials.py:103-130 | no page: nothing downloaded or written; fewer than 3 URLs: nothing downloaded or written; otherwise the three downloads go to `special1..3.jpg`, and `specials.json` is written, with the fixed records, exactly when all three succeed |

## Left out

- Service-worker registration (`navigator.serviceWorker.register`) and console logging: fire-and-forget side effects with no state the page reads back.
- `initContactForm`: its only effects are cosmetic text and style changes on the button, staged by 1.5 s and 3 s timers. Real timers are not modelled; the 4 s install timer is the method `TimerFired`.
- `preventDefault` on `beforeinstallprompt` and the call to `deferredPrompt.prompt()`: browser calls. The user's answer is the `choice` parameter of `InstallClick`, and the `await` is treated as atomic: no other event runs between the click and the answer.
- InstallPrompt.Controller.InstallClick: a kept, declined prompt is prompted again on the next click; the rejection of a second `prompt()` on the same event is not modelled.
- Scroll offsets are integers; fractional `pageYOffset` values are not modelled.
- `localStorage`, `Date.now`, `navigator.userAgent`, `window.MSStream`, `matchMedia` and `navigator.standalone` are parameters. The stored time is an integer, so `parseInt` on arbitrary text (NaN, a stored empty string) is not modelled.
- Text.Lower: only ASCII letters are lower-cased; JavaScript's full Unicode `toLowerCase` is not modelled.
- The `alert` text of the iOS instructions: `InstallClick` returns only whether it is shown.
- The `if (!installBanner || !installBtn) return;`, `if (!grid) return;`, `if (!lightbox) return;` and `if (btn && nav)` guards: when an element is missing no handler is attached, so no method of the model runs. The optional close button, lightbox image and caption are flags of the classes.
- ScrollReveal.Engine.constructor: assumes the selected elements do not already carry `animate__fadeInUp` in the markup. The code never removes that class at load, so an element that starts with it is not represented; for the elements the model covers, `animate__fadeInUp` marks exactly the revealed ones.
- MobileMenu.Menu.ButtonClick, MobileMenu.Menu.LinkClick: assume the menu button contains an `<i>` icon. Without one, `btn.querySelector('i')` is null: a button click toggles `active` and then throws, and a link click removes `active` and then throws. The icon flags are always written here.
- Navbar.Header.OnScroll: assumes the page has a `.main-header`. Without one, every scroll event throws at the first class-list access and changes nothing; that case is not modelled.
- Intersection geometry (thresholds 0.1 and 0.25, the -50px root margin): `isIntersecting` is an input per entry. Entries are those the browser delivers, so their targets are elements the observer was given.
- The CSS classes that never change after creation (`card card-sm flyer-card animate__animated` on each card) and the `innerHTML` markup of the cards and the fallback message: cards are records, and no escaping is modelled.
- `fetch` and `response.json()`: the response is `Failed` or a parsed array. An array element on which reading `.image` throws (such as `null`) is `Unreadable`. Other JSON values that read as `undefined` fields are not distinguished from records.
- In the scraper: HTTP requests, file writes, `os.makedirs`, `json.dump` formatting and `print`. Download success is an input per index.
- `re.findall` is not modelled. Its matches are a given list, each satisfying `IsCandidate`.
- FetchSpecials.IsCandidate: the class excludes exactly space, `\t`, `\n`, `\r`, `\v`, `\f` and the two quotes; the other characters Python's `\s` matches (`\x1c`-`\x1f`, `\x85` and the Unicode spaces) are not excluded, so the model accepts matches the pattern would reject.
- The order in which `set()` yields the distinct candidates is unspecified. It is a parameter: any duplicate-free enumeration of the candidates.
- `execution/analyze_logo.py` (a wrapper around image palette quantisation), `vite.config.js` (build configuration) and the CSS import are not part of this model.
