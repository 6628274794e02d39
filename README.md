# FortifyGrid website behaviour, modelled in Dafny

This project models the page logic in `script.js` of the FortifyGrid marketing
website and proves properties of that logic. A web page is modelled as an
abstract DOM. Each element's `active` class is a boolean. Each element's
geometry (a top edge, an offset, a height) is an integer that the browser
supplies when an event arrives. Browser callbacks are modelled as explicit
method calls: scroll and resize listeners, the animation frame, and timer
expiries.

Modules, one per file:

- `ActiveFlags` (`active_flags.dfy`): `active` flags over a NodeList. Marking
  exactly one item, marking all items and counting the active ones are defined
  here once. It also holds the two in-place `forEach` loops.
- `StickySelection` (`sticky_selection.dfy`): the pure rules of the
  sticky-feature section. They pick the active item from the content items'
  top edges and the viewport middle. They also give the flags that an
  evaluation and a resize produce.
- `StickyFeature` (`sticky_feature.dfy`): the widget built by
  `initStickyFeature`. This is a class over the content and media flag arrays.
  It holds the `ticking` flag, a count of pending animation frames, and the
  scroll, frame and resize handlers.
- `ContactForm` (`contact_form.dfy`): the submit handler's validation. It
  models `trim()`, the email regular expression, and the loop that flags blank
  fields.
- `Navigation` (`navigation.dfy`): the navbar's `scrolled` flag, the mobile
  menu's open/close listeners and the active-link highlighting on scroll.
- `RateLimit` (`rate_limit.dfy`): `throttle` and `debounce`. Each is a class
  proved against a step function. Lemmas bound how often the wrapped function
  runs over a sequence of calls and timer expiries.

How the code behaves where its comments suggest otherwise (the model follows
the code):

- At start-up on a desktop width, lines 94-95 mark the first pair active. Line
  142 then evaluates the scroll position at once. The state after `Init` is
  therefore the evaluated pair, not the first pair.
- The mobile path at line 89 and the resize path at line 147 mark every
  *content* item active. The media flags are left as they were.
- The content and media lists may have different lengths. An index past the
  end of the media list leaves no media item active.

## Model

| member | source | states |
|---|---|---|
| `StickySelection.SelectedIndex` | script.js:100-109 | The result is the last index whose top edge satisfies `2*top <= innerHeight`, or 0 when none does. It lies in `[0, n-1]` for a non-empty list. |
| `StickySelection.SelectedIndexIsLargestQualifying` | script.js:104-109 | The selected index is the maximum of the set of qualifying indices, or 0 when that set is empty. |
| `StickySelection.SelectedIndexUnique` | script.js:104-109 | Any index that is 0 or qualifying, with no qualifying index after it, equals the selected index. |
| `StickySelection.SelectedIndexMonotone` | script.js:104-109 | If no top edge is lower, the qualifying set does not shrink and the selected index does not decrease. No sortedness is assumed. |
| `StickySelection.ScrollingDownNeverMovesBack` | script.js:104-109 | Moving every top edge up by the same `d >= 0` (scrolling down) never lowers the selected index. |
| `StickySelection.ScenarioLastCrossedWins` | script.js:100-109 | Tops `[-50, 300, 800]` in a 600-pixel viewport select index 1. |
| `StickySelection.ScenarioNoneCrossed` | script.js:100-109 | Tops `[50, 400, 900]` in a 600-pixel viewport select the default 0. |
| `StickySelection.StickyScroll` | script.js:97-127 | An evaluation keeps both list lengths. At width <= 767 it changes nothing. |
| `StickySelection.Resize` | script.js:145-151 | A resize keeps both list lengths. At width > 767 it equals a fresh evaluation. |
| `StickySelection.StickyScrollActivatesOnePair` | script.js:111-126 | On the desktop layout, exactly one content item is active, at the selected index. The media item at that index is active if it exists, and no other media item is active. |
| `StickySelection.StickyScrollIdempotent` | script.js:97-127 | Evaluating twice with the same tops gives the same flags as evaluating once. |
| `StickySelection.StickyScrollForgetsPriorState` | script.js:111-126 | On the desktop layout the result does not depend on the previous flags. |
| `StickySelection.ResizeToMobileShowsAllContent` | script.js:146-147 | A resize to width <= 767 makes every content item active and leaves the media flags unchanged. |
| `ActiveFlags.OnlyActive` | script.js:112-126 | Definition: n flags, item i active exactly when i is the marked index k. `MarkOnlyActive` and `OnlyActiveCount` are proved against it. |
| `ActiveFlags.AllActive` | script.js:89 | Definition: n flags, every one active. `MarkAllActive` and `AllActiveCount` are proved against it. |
| `ActiveFlags.OnlyActiveCount` | script.js:112-118 | Marking index k leaves one active item if k is in range, and none otherwise. |
| `ActiveFlags.AllActiveCount` | script.js:147 | Marking every item leaves all n items active. |
| `ActiveFlags.CountActive` | script.js:112-126 | The count is at most the length. It is 0 exactly when no item is active. |
| `ActiveFlags.MarkOnlyActive` | script.js:112-118 | In place, the array becomes exactly "item k active, every other item inactive". |
| `ActiveFlags.MarkAllActive` | script.js:89 | In place, every item of the array becomes active. |
| `StickyFeature.FindActiveIndex` | script.js:100-109 | The forward loop returns `SelectedIndex(tops, innerHeight)`. |
| `StickyFeature.Widget.constructor` | script.js:81-82 | A widget over two distinct NodeLists starts with no listeners and no pending frame. |
| `StickyFeature.Widget.Init` | script.js:77-152 | If the section is missing or either list is empty, nothing changes. If width <= 767, all content is active, media is unchanged and no listener is registered. Otherwise listeners are registered and the state equals an evaluation at the current tops. |
| `StickyFeature.Widget.HandleStickyScroll` | script.js:97-127 | The new flags equal `StickyScroll` of the old flags at the given tops, height and width. |
| `StickyFeature.Widget.OnScroll` | script.js:131-139 | A frame is requested only when `ticking` is false and listeners are registered. `ticking` is then true, and at most one frame is ever pending. |
| `StickyFeature.Widget.RunFrame` | script.js:133-136 | The pending frame performs one evaluation and clears `ticking`, leaving no frame pending. |
| `StickyFeature.Widget.OnResize` | script.js:145-151 | With listeners registered, the new flags equal `Resize` of the old flags. Without listeners, nothing changes. |
| `StickyFeature.ScrollBurst` | script.js:130-139 | Any positive number of scroll events, from any valid listening state, leaves the flags unchanged, `ticking` set and exactly one frame pending. |
| `StickyFeature.ScrollBurstThenFrame` | script.js:130-139 | A burst followed by its frame leaves one evaluation's flags, `ticking` cleared and no frame pending. |
| `ContactForm.IsWs` | script.js:242 | Definition: the ECMAScript white space and line terminators, the characters `\s` matches and `trim()` removes. |
| `ContactForm.TrimStartIndex` | script.js:232 | The scan from the front: everything it skips is white space, and it stops at the first non-space character or at the end. |
| `ContactForm.TrimEndIndex` | script.js:232 | The scan from the back, never past the front index: everything it skips is white space, and it stops just after a non-space character or at the front index. |
| `ContactForm.Trim` | script.js:232 | `trim()` returns the contiguous slice of its input that starts at the front scan's index. Everything before and after the slice is white space, and the slice is empty or starts and ends with a non-space character. |
| `ContactForm.TrimEmptyIffAllWhitespace` | script.js:232 | `trim() === ''` holds exactly when every character is white space, including for the empty string. |
| `ContactForm.IsBlank` | script.js:232 | The blank test (the value is missing or empty, or `trim()` leaves nothing) holds exactly when every character of the value is white space, the empty value included. |
| `ContactForm.MatchesEmailRegex` | script.js:242 | Definition: the string is a non-empty run of `[^\s@]`, `@`, a run, `.`, and a run, which is what `^[^\s@]+@[^\s@]+\.[^\s@]+$` accepts. |
| `ContactForm.IndexOf` | script.js:242 | Helper: returns an index holding c with no c before it. |
| `ContactForm.IsEmailShape` | script.js:243 | Definition of the executable test: no white space, a first `@` after at least one character, no second `@`, and a `.` inside the domain that is neither its first nor its last character. `EmailShapeIffRegex` proves it equal to the regular expression. |
| `ContactForm.EmailShapeIffRegex` | script.js:242-243 | The structural shape accepts exactly the strings that `^[^\s@]+@[^\s@]+\.[^\s@]+$` accepts, in both directions. The shape is: no white space, exactly one `@` with a non-empty local part, and a `.` inside the domain that is not its first or last character. |
| `ContactForm.ShapeMatchesRegex` | script.js:242 | A string of the structural shape splits into local part, `@`, host, `.` and top-level part, each a non-empty run of `[^\s@]`. |
| `ContactForm.RegexPartsHaveShape` | script.js:242 | A string made of those five parts has the structural shape. |
| `ContactForm.EmailMatchIsNotBlank` | script.js:243 | An address that the regular expression accepts is never blank. |
| `ContactForm.Field` | script.js:232 | Definition: a field the form data does not hold reads as "", since `!data[field]` treats `undefined` as the empty string does. |
| `ContactForm.FormAccepted` | script.js:227-246 | Definition: name and message not blank, and the email accepted by the regular expression. |
| `ContactForm.Flagged` | script.js:230-246 | Definition: a field is outlined red when it is blank; the email also when the regular expression rejects it. |
| `ContactForm.ValidateContactForm` | script.js:227-246 | The form is valid exactly when name and message are not blank and the email matches the regular expression. Each required field is flagged exactly when it is blank. The email field is also flagged when the match fails. |
| `Navigation.LastSectionAt` | script.js:348-353 | Returns None exactly when no section spans the position. Otherwise it returns a spanning section with no spanning section after it. |
| `Navigation.LinkTargetInjective` | script.js:356 | Two section ids give the same `#id` target exactly when they are the same id. |
| `Navigation.LinksMatching` | script.js:354-359 | Definition: one flag per link, active exactly when its href equals the target. `DistinctHrefsActivateAtMostOne` and `DifferentIdsMarkDisjointLinks` state its properties. |
| `Navigation.HighlightedLinks` | script.js:345-362 | One flag per link; with no section spanning `scrollY + 100` the flags are unchanged. `HighlightFollowsLastSpanningSection` gives the hit case. |
| `Navigation.HighlightFollowsLastSpanningSection` | script.js:345-362 | If no section spans `scrollY + 100`, the link flags are unchanged. Otherwise a link is active exactly when its href is `#` plus the id of the last spanning section. |
| `Navigation.HighlightIdempotent` | script.js:345-362 | Highlighting twice at the same scroll position gives the flags of highlighting once. |
| `Navigation.DifferentIdsMarkDisjointLinks` | script.js:354-359 | The rewrites for two sections with different ids never mark the same link. |
| `Navigation.DistinctHrefsActivateAtMostOne` | script.js:354-359 | When no two links share an href, the rewrite done when a section spans the probe point leaves at most one link active. |
| `Navigation.HighlightKeepsAtMostOneActive` | script.js:345-362 | When no two links share an href and at most one link was active, at most one is active after a highlight, whether or not any section spans the probe point. |
| `Navigation.NavBar.constructor` | script.js:12-14 | The navbar starts unscrolled, with the menu and its button closed. |
| `Navigation.NavBar.HandleNavbarScroll` | script.js:17-23 | `scrolled` holds exactly when `scrollY > 50`. |
| `Navigation.NavBar.OnToggleClick` | script.js:28-33 | With a button, the link list and the button flip together. Without one, nothing changes. The two stay equal. |
| `Navigation.NavBar.OnLinkClick` | script.js:36-42 | The menu and its button end up closed. |
| `Navigation.NavBar.OnDocumentClick` | script.js:45-50 | The menu stays open exactly when it was open and the click target lies inside the navbar. |
| `Navigation.NavBar.OnKeyDown` | script.js:420-426 | The menu stays open exactly when it was open and the key is not Escape. |
| `Navigation.NavBar.CloseMenu` | script.js:46-49 | Removes `active` from the link list and from the button. |
| `Navigation.NavBar.HighlightNavOnScroll` | script.js:345-362 | The nested loops leave the link flags equal to `HighlightedLinks` of the old flags. |
| `Navigation.ClickOnToggle` | script.js:28-50 | A click on the button bubbles to the document with a target inside the navbar. The menu ends up flipped; the outside-click listener does not undo the flip. |
| `RateLimit.Expiries` | script.js:480 | Counting helper: the number of timer expiries, at most the number of events. |
| `RateLimit.Burst` | script.js:472-483 | A burst of n calls holds no expiry. |
| `RateLimit.ThrottleStep` | script.js:477-481 | `func` runs only on a call made while not throttled. |
| `RateLimit.ThrottleRuns` | script.js:472-483 | Only calls run `func`: the runs plus the expiries never exceed the number of events. |
| `RateLimit.ThrottleRunsOncePerWindow` | script.js:472-483 | Over any event sequence, `func` runs at most once per window: at most the number of expiries, plus one if the wrapper was not throttled at the start. |
| `RateLimit.ThrottleBurst` | script.js:477-481 | A burst runs `func` exactly once when the wrapper was not throttled, and never when it was. |
| `RateLimit.Throttle.constructor` | script.js:473 | The wrapper starts unthrottled with no timer. |
| `RateLimit.Throttle.Invoke` | script.js:474-482 | The new `inThrottle` and the `ran` flag are those of `ThrottleStep` on a call. A timer is pending exactly while the wrapper is throttled. |
| `RateLimit.Throttle.Expire` | script.js:480 | The expiry clears `inThrottle` and the pending timer. |
| `RateLimit.DebounceStep` | script.js:458-468 | After a call a timer is set. After an expiry no timer is set. |
| `RateLimit.DebounceRuns` | script.js:456-469 | In immediate mode only calls run `func` (runs plus expiries at most the events); otherwise only expiries do (runs at most the expiries). |
| `RateLimit.DebounceRunsOncePerQuietPeriod` | script.js:456-469 | Over any event sequence, the runs are at most the number of expiries, plus one for the leading call of an idle immediate-mode wrapper. |
| `RateLimit.DebounceBurst` | script.js:464-467 | During a burst, an idle wrapper runs `func` once in immediate mode and never in trailing mode. |
| `RateLimit.DebounceBurstThenQuiet` | script.js:456-469 | A burst followed by the timer's expiry runs `func` exactly once in either mode. |
| `RateLimit.DebounceRunsAppend` | script.js:456-469 | The runs over two consecutive event sequences add up. The second sequence starts from the timer state the first leaves. |
| `RateLimit.BurstLeavesTimerSet` | script.js:466 | After a burst of at least one call, a timer is set. |
| `RateLimit.Debounce.constructor` | script.js:456-457 | The wrapper starts with no timer set, in the given mode. |
| `RateLimit.Debounce.Invoke` | script.js:458-468 | The new timer state and the `ran` flag are those of `DebounceStep` on a call. |
| `RateLimit.Debounce.Expire` | script.js:460-463 | The new timer state and the `ran` flag are those of `DebounceStep` on an expiry. |

## Left out

- Event registration, `DOMContentLoaded`, `requestAnimationFrame` and `setTimeout` are not modelled as such. A registered listener is a flag, a requested frame is a counter, and a timer's expiry is an explicit method call or `TimerExpired` event.
- Geometry is integral. `getBoundingClientRect().top`, `scrollY`, `innerHeight` and `offsetTop` can be fractional in a browser; here they are integers. `top <= innerHeight / 2` is stated as `2 * top <= innerHeight`, which is exact for integer tops.
- No element is in both sticky lists. The content and media lists are distinct arrays, so an element that carries both marker classes is not modelled.
- Resize and pending frames may interleave. The source does not order a resize against a pending frame; the model allows either order of the two method calls.
- No missing contact-form inputs. The three inputs are assumed to exist; `getElementById` returning null would make the source throw.
- The navbar and the link list (`#navbar`, `#navLinks`) are assumed to exist. Without the navbar the source throws on every scroll (script.js:19) and every document click (script.js:46); without the link list a click on the menu button throws (script.js:30). The model has no such error paths.
- Two facts about the served HTML are assumed rather than derived from the script. `ClickOnToggle` assumes the menu button (`#mobileMenuToggle`) lies inside `#navbar`; were it outside, the document listener at script.js:46 would close the menu the button had just opened. `NavBar.constructor` assumes the page arrives with no `scrolled` or `active` classes; `handleNavbarScroll` is only registered as a listener (script.js:25) and is not run at load.
- A missing menu button is only partly modelled. Without the button, a link click in the source throws a TypeError after closing the link list. The model closes the list and stops there.
- The simulated submission is left out (script.js:248-293). That covers the button text and colour, the two timers, `contactForm.reset()` and the console log. It is presentation and timing only; the network call is commented out.
- Input focus, blur and input styling is left out (script.js:297-312). It only sets box shadows.
- IntersectionObserver behaviour is left out: scroll animations (script.js:161-188), section-title fades (script.js:194-210) and lazy images (script.js:392-414). Visibility comes from the browser, and the only effects are class, style or attribute swaps.
- Parallax (script.js:319-337) and `animateCounter` (script.js:370-386) are left out. They are floating-point arithmetic feeding style or text output, and `animateCounter` is never called.
- Smooth scrolling is left out (script.js:56-71). It is a single `scrollTo` call on the browser with an 80-pixel offset.
- The preloader and the console greeting are left out (script.js:432-447). They are presentation only.
- Default arguments of `debounce` (script.js:456): `Debounce.constructor` takes `immediate` explicitly; `DefaultImmediate` records the default `true`. The default `wait = 10` is a duration, which the model does not have.
- In `throttle` and `debounce`, the forwarding of `this` and `arguments` through `apply` is left out. So are the `limit` and `wait` durations: time is replaced by explicit expiry events.
