# Portfolio page interactions, modelled in Dafny

This project models the interactive core of a portfolio web site: the hover/idle state
machine of the project list (`AnimationManager` in `script.js`) and the smaller page
scripts of `script_2.js`: working out the current page and underlining its menu link, the
footer that hides while scrolling down, the plain hover handlers on the project items, and
the two-image carousel of the about page.

The DOM is replaced by state the scripts read and write. This covers the `active`,
`has-active`, `counter-hidden` and `hidden` classes, the opacity of each data cell and of
the background panel, and the text in each `.hover-text` slot. Browser timers, the GSAP
tweens and timeline, and scroll and pointer events become explicit methods that each run
one event: `DebounceFires`, `IdleTimerFires`, `IdleStepFires`, `ScrambleTick` and
`ScrambleCompletes`. Time is measured in integer milliseconds and opacities in hundredths.

Files:

- `options.dfy` (module `Options`): an optional value, standing for `null`/`undefined`, and JavaScript truthiness of an attribute.
- `idle_schedule.dfy` (module `IdleSchedule`): the idle timeline that `startIdleAnimation` builds, as a list of steps, with a builder method that follows the source's loops. It also proves the closed-form schedule and the length of one cycle.
- `animation_manager.dfy` (module `AnimationManagement`): the `AnimationManager` class. Its fields are updated in place by its event methods, under an object invariant `Valid()`.
- `navigation.dfy` (module `Navigation`): the functions `getCurrentPageName` and `setActiveMenuItem`. It includes `split('/')` and its inverse `join`, and the lookup in the object literal `pageMap`, both as written and as intended.
- `footer_scroll.dfy` (module `FooterScroll`): the `scroll` listener and its `lastScrollTop`.
- `project_hover.dfy` (module `ProjectHover`): the `mouseenter`/`mouseleave` listeners that `script_2.js` puts on every `.project-item`.
- `image_carousel.dfy` (module `ImageCarousel`): the functions `startImageCarousel` and `changeImage`.

Some scenario methods without contracts exercise the models:

- `AnimationManagement.OverwrittenDebounceSurvives`: a `mouseleave` timer whose handle was overwritten is not cancelled by the next `mouseenter`.
- `FooterScroll.SameOffsetShows` and `FooterScroll.OverscrollClamped`.
- `ProjectHover.EnterWithoutImage`.
- `ImageCarousel.FirstTicks`.

Behaviour of the code worth noting:

- Each `mouseleave` overwrites `debounceTimeout`, so `mouseenter` cancels only the most recent debounce timer. An earlier one that is still pending fires later.
- Leaving the whole container restores every text immediately, through `clearActiveStates`, rather than after the 50 ms debounce. It arms the idle timer twice in a row: the second call cancels the first.
- The `AnimationManager` in `script.js` has no touch-hold variant. Only pointer events are modelled.
- `pageMap` has an entry for the empty file name. It is unreachable, because `|| 'index.html'` replaces an empty last segment first.

## Model

| member | source | states |
|---|---|---|
| IdleSchedule.CounterSteps | script.js:441-460 | the counter loop adds two calls per row, so n rows give 2 n calls (where each call sits is in CounterStepsAt) |
| IdleSchedule.HideSteps | script.js:468-479 | one column's hide loop: row r fades to 0.05 at 250 (c + 1) + 50 r ms, one tween per row |
| IdleSchedule.ShowSteps | script.js:482-493 | one column's show loop: row r fades back to 1 at 250 (c + 1) + 25 R + 50 r ms, one tween per row |
| IdleSchedule.ColumnStepsAreFades | script.js:463-494 | the column loops (`ColumnSteps`) add only fade tweens, each on one of the columns done so far and an existing row |
| IdleSchedule.ColumnStepsLength | script.js:462-494 | the column loops add two tweens per row per column |
| IdleSchedule.IdleTimeline | script.js:435-494 | the timeline for R items has 12 R steps: 2 R counter calls, then 5 × 2 R fade tweens |
| IdleSchedule.BuildIdleTimeline | script.js:435-494 | the source's loops (counter calls row by row, then each column's hides and shows) build exactly `IdleTimeline(rows)` |
| IdleSchedule.AppendColumn | script.js:463-493 | one column's pass appends its R fade-outs, then its R fade-ins, to what was built so far |
| IdleSchedule.CounterStepsAt | script.js:441-459 | row r's counter is hidden at 50 r ms (step 2 r) and shown at 25 R + 50 r ms (step 2 r + 1) |
| IdleSchedule.ColumnStepsAt | script.js:463-493 | within the column tweens, column c's hide of row r sits right after the earlier columns and fades to 0.05 at 250 (c + 1) + 50 r ms; its show sits R later and fades to 1 at 250 (c + 1) + 25 R + 50 r ms |
| IdleSchedule.CounterScheduleAt | script.js:441-459 | the counter toggles of row r are the timeline's steps 2 r and 2 r + 1, at 50 r and 25 R + 50 r ms |
| IdleSchedule.ColumnOffsetIsPrefix | script.js:441-494 | column c's tweens start after the 2 R counter calls and the tweens of all earlier columns |
| IdleSchedule.ColumnOffsetValue | script.js:463-465 | column c starts at index 2 R (c + 1) of the timeline |
| IdleSchedule.CellScheduleAt | script.js:465-492 | cell (c, r) fades out at 250 (c + 1) + 50 r ms and back in exactly 25 R ms later, R steps further on |
| IdleSchedule.RowsFollowEachOther | script.js:468-492 | within a column, row r2 hides and shows 50 (r2 - r1) ms after row r1 |
| IdleSchedule.ColumnsFollowEachOther | script.js:465 | the same row hides 250 ms later in each column than in the previous one |
| IdleSchedule.FiveRowExample | script.js:435-492 | with five rows, column 0 row 2 hides at 350 ms and shows at 475 ms |
| IdleSchedule.CounterStepsScheduled | script.js:441-459 | every counter call touches an existing row at its closed-form time |
| IdleSchedule.ColumnStepsScheduled | script.js:462-494 | every fade touches an existing row and one of the five columns, targets 0.05 or 1, and starts at its closed-form time |
| IdleSchedule.IdleTimelineScheduled | script.js:435-494 | every step of the whole timeline follows the closed-form schedule |
| IdleSchedule.CyclePeriodValue | script.js:414-494 | with R ≥ 1 rows one cycle lasts 75 R + 1300 ms (the last fade-in ends then), and with the 2 s repeat delay a new cycle starts every 75 R + 3300 ms |
| AnimationManagement.CaptureMarkup | script.js:243-248 | reads every item's `.hover-text` contents, in document order, and its `data-image` (which `addEventListeners` reads at script.js:286) |
| AnimationManagement.AnimationManager.constructor | script.js:232-249 | captures each item's original texts; nothing active, idle flag set, no timer, no timeline, every cell opaque, no scramble tween, the panel empty and transparent; the invariant and `PanelHiddenWhenNothingActive` (the panel is transparent while nothing is active, kept by every event method) established |
| AnimationManagement.AnimationManager.UpdateActiveStates | script.js:334-345 | exactly item `activeIndex` has `active`, the container has `has-active`, `currentActiveIndex` is set |
| AnimationManagement.AnimationManager.RestoreTexts | script.js:323-326 | on one item every slot's tween is killed and its original text written back; other items untouched |
| AnimationManagement.AnimationManager.StartScrambles | script.js:303-314 | every slot of the item gets a fresh scramble tween towards its original text; other items untouched |
| AnimationManagement.AnimationManager.ShowBackgroundImage | script.js:365-386 | with a panel: its image is the URL and its opacity 1; without a panel nothing changes |
| AnimationManagement.AnimationManager.HideBackgroundImage | script.js:388-392 | with a panel its opacity becomes 0, else nothing changes |
| AnimationManagement.AnimationManager.StopIdleTimer | script.js:404-409 | the armed idle timer, if any, is cancelled and the field cleared |
| AnimationManagement.AnimationManager.StartIdleTimer | script.js:394-402 | the previous idle timer is cancelled and exactly one new one, with a fresh handle, is pending |
| AnimationManagement.AnimationManager.StartIdleAnimation | script.js:411-417 | an existing timeline is kept (single instance); otherwise the timeline for all items is built |
| AnimationManagement.AnimationManager.StopIdleAnimation | script.js:497-511 | a running timeline is killed and then every cell is opaque and every counter visible; with no timeline nothing changes |
| AnimationManagement.AnimationManager.ClearActiveStates | script.js:347-363 | no item is active, no `has-active`, every slot shows its original text with no tween, and a single fresh idle timer is pending |
| AnimationManagement.AnimationManager.InitializeAnimations | script.js:251-271 | after set-up exactly one idle timer is pending |
| AnimationManagement.AnimationManager.MouseEnter | script.js:289-319 | idle mode ends (timeline and timer gone, nothing hidden) and the slot's debounce timer is cancelled. Re-entering the active item changes nothing else. Otherwise the item becomes the only active one, its slots scramble, and its image, if any, is shown |
| AnimationManagement.AnimationManager.EndIdleMode | script.js:290-296 | the idle timeline and timer are stopped, `isIdle` cleared, nothing left hidden, and only the debounce timer in the slot is cancelled |
| AnimationManagement.AnimationManager.CancelDebounce | script.js:294-296 | only the timer whose handle is in `debounceTimeout` is removed from the pending ones |
| AnimationManagement.AnimationManager.Activate | script.js:298-318 | the item becomes the only active one, its slots start scrambling, and its truthy image is shown when the panel exists |
| AnimationManagement.AnimationManager.MouseLeave | script.js:321-328 | a new 50 ms timer for this item is pending under a fresh handle, which overwrites `debounceTimeout`; earlier timers stay pending |
| AnimationManagement.AnimationManager.DebounceFires | script.js:322-327 | the fired timer's item gets its original texts back with no tween; nothing else changes |
| AnimationManagement.AnimationManager.ContainerMouseLeave | script.js:260-267 | the debounce timer in the slot is cancelled, everything is cleared and restored, the panel is hidden, and two idle timers are started one after the other, so only the second is pending |
| AnimationManagement.AnimationManager.IdleTimerFires | script.js:396-401 | nothing is active when an idle timer fires, so idle mode always starts and the timeline exists (kept or built); the source's other branch is stated too and never runs |
| AnimationManagement.NoIdleTimerWhileActive | script.js:394-401 | under the invariant, an idle timer is armed or pending only while no item is active |
| AnimationManagement.PanelHiddenWhileIdle | script.js:260-267 | with a panel, while the idle timeline exists or an idle timer is armed or pending, the panel is transparent |
| AnimationManagement.AnimationManager.IdleStepFires | script.js:441-493 | a counter call sets that row's `counter-hidden` to the step's value; a fade sets that one cell to its target opacity, and the step always touches an existing row and column |
| AnimationManagement.AnimationManager.ScrambleTick | script.js:305-313 | a scramble frame changes only that slot's text, and only while its tween is playing |
| AnimationManagement.AnimationManager.ScrambleCompletes | script.js:305-313 | a finished scramble leaves the slot on its original text with no tween |
| Navigation.LastSeparator | script_2.js:19 | the position of the last '/', or -1; no '/' after it |
| Navigation.LastSeparatorAt | script_2.js:19 | a '/' with none after it is the last one |
| Navigation.Split | script_2.js:19 | `split` gives at least one piece and no piece contains the separator |
| Navigation.JoinSplit | script_2.js:19 | joining the pieces of a split gives back the original string |
| Navigation.SplitJoin | script_2.js:19 | splitting the join of separator-free pieces gives back the pieces |
| Navigation.SplitNoSeparator | script_2.js:19 | a string without separator splits into itself |
| Navigation.SplitAppendPiece | script_2.js:19 | appending "/" and a separator-free piece appends that piece to the split |
| Navigation.LastSegment | script_2.js:19 | `pop()` gives the separator-free text after the last '/' |
| Navigation.LastSegmentOfAppended | script_2.js:19 | the last segment of `prefix + "/" + piece` is `piece` |
| Navigation.PageFile | script_2.js:19 | the looked-up file name is never empty: the last segment, or `index.html` for an empty one |
| Navigation.PageMap | script_2.js:22-28 | the table only gives one of the four page names |
| Navigation.CurrentPageName | script_2.js:17-31 | the page is always one of home, about, portfolio, contact |
| Navigation.PageNameOfLastSegment | script_2.js:17-31 | only the text after the last '/' decides the page |
| Navigation.TrailingSlashIsHome | script_2.js:19-30 | a path ending in '/' (the site root) is the home page |
| Navigation.MappedPage | script_2.js:22-30 | a listed file name gives its page in any directory |
| Navigation.UnmappedIsHome | script_2.js:30 | an unlisted file name gives home in any directory |
| Navigation.PageNameAsWritten | script_2.js:22-30 | the lookup as written gives a page name, or an inherited Object.prototype member when the file name is one |
| Navigation.AsWrittenAgrees | script_2.js:22-30 | for every file name that is not an inherited member, the code as written gives the intended page |
| Navigation.ConstructorPathAsWritten | script_2.js:30 | for `/constructor` the code as written gives Object's constructor where home is intended |
| Navigation.Cleared | script_2.js:7-9 | a navigation link loses `active`; other elements and attributes are unchanged |
| Navigation.Marked | script_2.js:12-14 | an element whose `data-page` is the page gains `active`; nothing else changes |
| Navigation.SetActiveMenuItem | script_2.js:3-15 | over the corrected page name (`CurrentPageName`): after the call a menu link is active exactly when its `data-page` is the current page; other elements gain `active` only for that page |
| Navigation.StringForm | script_2.js:12 | the text a looked-up value takes in the selector: a page name as itself, an inherited member as text that is none of the four page names |
| Navigation.SetActiveMenuItemAsWritten | script_2.js:3-15 | as written, the selector uses the string form of the raw lookup; when that is an inherited member no menu link to any of the four pages is underlined |
| Navigation.ConstructorMenuAsWritten | script_2.js:12-30 | on `/constructor` a menu link to one of the four pages is never underlined as written, while the intended lookup underlines exactly the home link |
| Navigation.HighlightPage | script_2.js:6-14 | the two passes in place: each element equals `Marked(Cleared(old))` |
| FooterScroll.Remembered | script_2.js:113 | the remembered offset is never negative: the offset itself, or 0 for overscroll |
| FooterScroll.Footer.constructor | script_2.js:99 | `lastScrollTop` starts at 0 with the footer shown |
| FooterScroll.Footer.HandleScroll | script_2.js:100-115 | with the footer present it is hidden exactly when the offset grew and the clamped offset is remembered; at or above the top it always shows; without the footer nothing changes |
| ImageCarousel.DigitChar | script_2.js:215 | a digit's character is '0'..'9' with that value |
| ImageCarousel.Decimal | script_2.js:215 | the decimal text of a number: at least one digit, only digits, no leading zero |
| ImageCarousel.DecimalRoundTrip | script_2.js:215 | reading the printed digits back gives the number |
| ImageCarousel.IndexAfter | script_2.js:207-218 | the index stays inside the image list |
| ImageCarousel.IndexAfterIsMod | script_2.js:207-218 | after k ticks over the two images the index is k mod 2 |
| ImageCarousel.Carousel.constructor | script_2.js:199-207 | the list is tapas.jpg, ojo.jpg and the index starts at 0 |
| ImageCarousel.Carousel.ChangeImage | script_2.js:209-221 | the k-th tick shows image k mod 2, labelled "Imagen " plus index + 1, and moves the index on modulo the list length |
| ImageCarousel.StartImageCarousel | script_2.js:188-207 | without a `.foto` image nothing starts; otherwise a fresh carousel over tapas.jpg, ojo.jpg at index 0, with no tick yet and the image's own `src` and `alt`, so its first tick shows tapas.jpg |
| ProjectHover.PortfolioHover.constructor | script_2.js:117-121 | no item marked, the panel empty and transparent |
| ProjectHover.PortfolioHover.MouseEnter | script_2.js:122-132 | only a truthy `data-image` with a panel present changes anything: then the image is shown at 0.8 and the container and item are marked; other items keep their class |
| ProjectHover.PortfolioHover.MouseLeave | script_2.js:134-142 | the panel (if any) becomes transparent, and the container and item lose their marks, always |

## Left out

- `VFXManager`, `ScrollManager` and `TimeDisplay` in `script.js`, and the clock, the mobile menu and the scroll-triggered GSAP reveals in `script_2.js`, are not part of this model.
- `preloadImages` only warms the browser cache and is not modelled.
- Console logging is not modelled.
- GSAP itself is not modelled: tween interpolation, easing curves and the timeline's clock. A tween is represented by its target value, and the timeline by its list of steps and their start times.
- Times are exact integer milliseconds. The source computes them as floating-point seconds, for example `totalRows * 0.05 * 0.5`.
- The page is assumed to be present and clean at start: the `.portfolio-container` exists, no state class is set and the panel is hidden. The source throws on a missing container in `updateActiveStates`/`clearActiveStates` and in the `script_2.js` hover handlers.
- The five `.project-data` cells of an item stand for the `.artist`, `.album`, `.category`, `.label` and `.year` elements. The source's `gsap.set` on every `.project-data` element is modelled as making those five cells opaque.
- The `script.js` and `script_2.js` hover handlers both listen on the same items. They are modelled separately, not their interleaving on one page.
- AnimationManagement.AnimationManager.ShowBackgroundImage: does not model the scale and transition reset or the two-frame `requestAnimationFrame` step, which only affect styling.
- AnimationManagement.AnimationManager.ScrambleTick: the interim text of a scramble frame is a parameter; the random choice from the 16-character alphabet and the reveal timing are not modelled.
- AnimationManagement.AnimationManager.IdleStepFires: the intermediate opacities of a fade tween are not modelled, only its target.
- FooterScroll.Footer.HandleScroll: the offset is a real-valued parameter standing for `window.pageYOffset || document.documentElement.scrollTop`; reading it from the window is not modelled.
- ImageCarousel.IndexAfterIsMod: proved for the source's fixed list of two images, not for any list length.
- ImageCarousel.StartImageCarousel: the 5-second `setInterval` is not modelled; each of its ticks is a call of `ChangeImage`.

## Findings

| source | as written | input that shows it | evidently intended | confidence | as-written member | corrected member |
|---|---|---|---|---|---|---|
| script_2.js:30 | `pageMap[page] \|\| 'home'` reads a plain object literal, so a file name that names an Object.prototype member (`constructor`, `toString`, `__proto__`, …) yields that inherited, truthy member instead of falling back to `'home'`, and no menu link is underlined | pathname `/constructor` | only the four listed file names map to a page; every other name gives `home` | not executed | Navigation.ConstructorMenuAsWritten | Navigation.CurrentPageName |
