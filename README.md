# BLACKFLAME NOVA site scripts — a Dafny model of their sequential logic

The site's `Script.js` is almost all browser wiring. This project models the parts of
it that are sequential logic and proves what they do:

- **Konami-code easter egg**: the keydown buffer keeps the last ten key codes.
  Rainbow mode starts when that buffer, joined with commas, equals the Konami sequence
  joined the same way.
- **Mobile menu**: two `active` classes and the body's `overflow` style, changed by
  three click listeners.
- **Page name and active links**: the current page is the last segment of the URL
  path, with its first `.html` removed, or `index` when nothing is left. Each
  navigation link is matched against that name.
- **Title restore**: when a tab becomes visible, its title is looked up in a fixed
  table of page titles.
- **Statistics counters**: only the text side is modelled, meaning the target read
  from the text and the text shown at the end.
- **Ping readout**: `floor(r*100)+20` for a random draw `r`, coloured in three tiers.

The modules follow the script's own objects:

- `Navigation`, `Animations`, `Minecraft`, `KonamiCode` and `PageVisibility` are the
  script's parts.
- `JsStrings` states the JavaScript built-ins they use. These are `split`, `join`,
  `indexOf` and `replace` with a string pattern, which replaces only the first
  occurrence.
- `Numerals` states decimal number text: `String(n)`, and `parseInt` on a run of
  digits.

Where the script updates state in place, the model has classes:

- `KonamiListener`: the `konamiCode` array is a `seq` field that the listener
  reassigns.
- `MobileMenu`: the menu's classes and the overflow style.
- `CounterElement`: a counter's text and its `data-animated` flag.
- `PingReadout`: the ping element.

The link-marking loop writes into an array of `active` flags. Each state-changing
method is specified by a pure function, and the properties are lemmas about those
functions.

The Konami comparison is modelled as string equality of the comma-joined lists, as
the script writes it. `KonamiCode.CodesTextEqualIff` proves that this equals list
equality. The proof uses the split/join round trip and the fact that decimal text
reads back to the same number.

A counter's "suffix" is every non-digit character of its text, wherever it stands.
So `1,000+` ends as `1000,+` (`Animations.NonDigitsMoveAfterNumber`), and a number with
no leading zero followed by digit-free text, such as `1234+`, ends unchanged.

## Model

| member | source | states |
|---|---|---|
| `JsStrings.IndexOfFromFindsFirst` | Script.js:86 | the index `indexOf` finds is an occurrence with no earlier one; with no result there is no occurrence at all |
| `JsStrings.RemoveFirst` | Script.js:86 | `s.replace(pat, '')` with a string pattern: the result is either `s` unchanged or shorter by exactly the length of `pat`; which occurrence goes is stated by the three lemmas below |
| `JsStrings.RemoveFirstWithoutOccurrence` | Script.js:86 | `replace('.html', '')` leaves text without the pattern unchanged |
| `JsStrings.RemoveFirstAt` | Script.js:86 | `replace('.html', '')` cuts out exactly the first occurrence and keeps any later one |
| `JsStrings.RemoveFirstAddsNothing` | Script.js:86 | `replace` with an empty replacement adds no character |
| `JsStrings.Split` | Script.js:86 | `split('/')` yields at least one piece, even for the empty string |
| `JsStrings.SplitSnoc` | Script.js:86 | proof step of `JoinSplit`, `SplitJoin` and `LastPieceIsSuffix`, unfolding `Split` once: a trailing separator starts a new empty piece; any other trailing character extends the last piece |
| `JsStrings.SplitPiecesHaveNoSeparator` | Script.js:86 | no piece of `split('/')` contains `/` |
| `JsStrings.JoinSnoc` | Script.js:834 | proof step of `JoinSplit` and `SplitJoin`, unfolding `Join` once: `join(',')` puts one separator between consecutive pieces and none before the first |
| `JsStrings.Join` | Script.js:834 | `parts.join(sep)`: the pieces with one separator between consecutive ones; `JoinSplit` and `SplitJoin` state that it inverts `Split` |
| `JsStrings.JoinSplit` | Script.js:86 | joining the pieces of a split gives back the original string |
| `JsStrings.SplitJoin` | Script.js:834 | splitting a join of separator-free pieces gives back the pieces, so `join` loses nothing |
| `JsStrings.SplitAppendFree` | Script.js:86 | appending separator-free text to a string extends only the last piece of its split |
| `JsStrings.LastPieceIsSuffix` | Script.js:86 | `split('/').pop()` is the suffix after the last `/`: free of `/`, and either the whole path or preceded by `/` |
| `JsStrings.JoinExtendLast` | Script.js:834 | proof step of `JoinSplit`: extending the last piece extends the joined text by the same characters |
| `JsStrings.LastPieceAfterSeparator` | Script.js:86 | the last piece of `dir/file` is `file` when `file` has no `/` |
| `Numerals.NatToString` | Script.js:248 | the decimal text of a whole number is non-empty, all ASCII digits, and has no leading zero |
| `Numerals.DigitsValue` | Script.js:235 | `parseInt` on a non-empty run of ASCII digits: the digits read most significant first; `ValueOfNatToString` states that it inverts `NatToString` |
| `Numerals.ValueOfNatToString` | Script.js:235 | `parseInt` reads the decimal text of `n` back as `n` |
| `Numerals.NatToStringInjective` | Script.js:834 | two numbers have the same decimal text exactly when they are equal |
| `KonamiCode.CodesText` | Script.js:834 | `konamiCode.join(',')`: the decimal text of each key code, joined with commas; `CodesTextEqualIff` states that equal texts mean equal lists |
| `KonamiCode.CodesTextEqualIff` | Script.js:834 | `a.join(',') === b.join(',')` holds exactly when the key-code lists are equal |
| `KonamiCode.Recent` | Script.js:828-832 | the buffer's intended contents are the last min(n, 10) codes of the history, in arrival order |
| `KonamiCode.RecentAfterKey` | Script.js:828-832 | one push followed by at most one shift turns the last ten codes of a history into the last ten codes of the history plus the new key |
| `KonamiCode.Triggers` | Script.js:834 | whether rainbow mode starts after a key history: the last ten codes, as the buffer holds them, equal the Konami sequence; `RecentIsKonamiIff` and `TriggersOnlyOnSequence` characterise it |
| `KonamiCode.RecentIsKonamiIff` | Script.js:834 | the buffer equals the sequence exactly when the history is at least ten long and ends with the sequence |
| `KonamiCode.ShortHistoryNeverTriggers` | Script.js:825-834 | fewer than ten keystrokes never start rainbow mode |
| `KonamiCode.TriggersOnlyOnSequence` | Script.js:825-834 | after any earlier keys, ten final keys start rainbow mode exactly when they are 38,38,40,40,37,39,37,39,66,65 |
| `KonamiCode.KonamiListener.constructor` | Script.js:824 | the buffer starts empty, with no keys seen |
| `KonamiCode.KonamiListener.KeyDown` | Script.js:827-834 | after each keydown the buffer holds the last min(n, 10) codes, never more than ten, and rainbow mode starts exactly when the last ten codes are the sequence |
| `Navigation.AfterToggleClick` | Script.js:45-49 | the toggle listener on the menu state: both classes flip and overflow is `hidden` exactly when the menu is now open; the menu lemmas below state its properties |
| `Navigation.AfterLinkClick` | Script.js:52-58 | a navigation link's listener: the closed state whatever came before |
| `Navigation.AfterDocumentClick` | Script.js:61-67 | the document listener: the closed state for a click outside both the toggle and the menu, otherwise the state unchanged |
| `Navigation.OverflowFollowsMenu` | Script.js:45-67 | after a toggle or link click, overflow is `hidden` exactly when the menu is open; a click outside both elements closes the menu |
| `Navigation.HandlersKeepConsistent` | Script.js:45-67 | every handler keeps the toggle and menu classes equal and the overflow matching the menu |
| `Navigation.ToggleFlips` | Script.js:45-49 | a toggle click flips the menu; two toggle clicks restore the state |
| `Navigation.ClosingIsIdempotent` | Script.js:52-67 | a link click or an outside click closes the menu, and repeating it changes nothing; a click inside the toggle or the menu leaves the state unchanged |
| `Navigation.ClicksBubbleToDocument` | Script.js:45-67 | the document listener, which also sees the toggle's and the links' clicks, does not undo them |
| `Navigation.MobileMenu.constructor` | Script.js:39-43 | the menu starts closed with no overflow style |
| `Navigation.MobileMenu.ToggleClick` | Script.js:45-49 | both classes flip, and overflow becomes `hidden` exactly when the menu is now open |
| `Navigation.MobileMenu.LinkClick` | Script.js:52-58 | both classes are removed and overflow is cleared |
| `Navigation.MobileMenu.DocumentClick` | Script.js:61-67 | a click outside both elements closes the menu; any other click changes nothing |
| `Navigation.PageName` | Script.js:86 | the page name is never empty: the `'index'` fallback replaces an empty stem |
| `Navigation.PageNameIsOneSegment` | Script.js:86 | the page name never contains `/` |
| `Navigation.PageNameOfHtmlFile` | Script.js:86 | the path `dir/name.html` has page name `name` |
| `Navigation.FirstHtmlAfterDotFreeName` | Script.js:86 | in `name.html…`, where `name` has no dot, the `.html` removed is the one right after `name` |
| `Navigation.PageNameOfDirectory` | Script.js:86 | a path ending in `/` names the page `index` |
| `Navigation.PageNameOfDoubledHtml` | Script.js:86 | only the first `.html` is removed: `dir/name.html` followed by more text names the page `name` plus that text, so `/a.html.html` names page `a.html` |
| `Navigation.LinkPage` | Script.js:91 | `href.replace('.html', '').replace('./', '')`: each replace removes at most its first occurrence, so the result is never longer than the `href` |
| `Navigation.IsActiveLink` | Script.js:89-92 | whether a link is marked: its `href` is present and non-empty, and its link page equals the current page, or is empty on the `index` page; the lemmas below characterise it |
| `Navigation.MissingHrefNeverActive` | Script.js:88-90 | a link whose `href` is absent or empty is never marked |
| `Navigation.DotSlashStem` | Script.js:91 | the link `./name.html` reduces to `name` |
| `Navigation.RelativeHtmlLinkActive` | Script.js:91-92 | the link `./name.html` is marked exactly on the page `name` |
| `Navigation.HomeLinkActiveOnIndex` | Script.js:91-92 | the link `./` is marked exactly on the `index` page |
| `Navigation.MarkedLinks` | Script.js:88-96 | link `i` carries the class afterwards exactly when it had it or matches the page |
| `Navigation.MarkingIsMonotoneAndIdempotent` | Script.js:88-96 | marking never removes a class, and marking again on the same page changes nothing |
| `Navigation.MarkActiveLinks` | Script.js:88-96 | the walk over the links leaves exactly the marks `MarkedLinks` describes |
| `Navigation.SetupActiveLinks` | Script.js:85-97 | each link ends up marked if it was already marked or matches the page named by the URL path; no mark is removed |
| `Animations.Digits` | Script.js:235 | `replace(/\D/g, '')` keeps only ASCII digits |
| `Animations.NonDigits` | Script.js:247 | `replace(/\d/g, '')` keeps no digit |
| `Animations.Target` | Script.js:235 | the counter's target: the digits of its text read as one number, or 0 when there are none (where `parseInt` gives NaN) |
| `Animations.FinalText` | Script.js:242-248 | the text the last tick writes: the target's decimal text followed by the text's non-digit characters; `FinalTextIsStable` and `CanonicalCounterEndsUnchanged` state its properties |
| `Animations.DigitsAndNonDigitsPartition` | Script.js:235-247 | every character of the text is kept by exactly one of the two filters |
| `Animations.DigitsAppend` | Script.js:235 | the digits of a concatenation are the concatenated digits |
| `Animations.NonDigitsAppend` | Script.js:247 | the non-digits of a concatenation are the concatenated non-digits |
| `Animations.DigitsOfAllDigits` | Script.js:235-247 | text made of digits keeps all of them as digits and has no non-digits |
| `Animations.DigitsOfNoDigits` | Script.js:235-247 | text with no digits has no digits and keeps all of itself as non-digits |
| `Animations.NumberThenText` | Script.js:247-248 | a written number contributes only digits, so the suffix is the same at every tick |
| `Animations.FinalTextIsStable` | Script.js:235-248 | a finished counter reads back as the same target with the same non-digits, so finishing again changes nothing |
| `Animations.CanonicalCounterEndsUnchanged` | Script.js:235-248 | a number in shortest form followed by digit-free text ends exactly as it started |
| `Animations.Counter1234Plus` | Script.js:235-248 | `1234+` ends as `1234+` |
| `Animations.NonDigitsMoveAfterNumber` | Script.js:235-248 | non-digit characters before or between digits move after the number: `1,000+` ends as `1000,+` |
| `Animations.CounterElement.constructor` | Script.js:231-232 | a counter starts with its markup text and not yet animated |
| `Animations.CounterElement.Animate` | Script.js:234-250 | whatever the intermediate ticks show, the counter ends as its target followed by its original non-digit characters |
| `Animations.CounterElement.Observe` | Script.js:252-258 | a counter is animated only the first time it is seen intersecting, and is flagged then |
| `Minecraft.Ping` | Script.js:447 | for a draw in [0,1), the ping lies in [20,119], and `ping - 20` is the whole part of `r*100` |
| `Minecraft.TierOf` | Script.js:451-457 | the colour tier of a ping: green below 50, yellow below 100, otherwise red; `TiersPartitionPings` states the thresholds as if-and-only-ifs |
| `Minecraft.TiersPartitionPings` | Script.js:451-457 | green exactly below 50, yellow exactly from 50 to 99, red exactly from 100 |
| `Minecraft.TierOfDraw` | Script.js:447-457 | green exactly for draws below 0.3, yellow for draws from 0.3 to below 0.8, red for draws from 0.8 |
| `Minecraft.PingReadout.constructor` | Script.js:444 | the `#ping-value` element that the lookup finds: its text and colour are whatever the markup gave it, taken as parameters |
| `Minecraft.UpdatePing` | Script.js:443-459 | the readout shows the ping's decimal text in its tier's colour; with no readout nothing changes |
| `PageVisibility.RestoredTitle` | Script.js:867-875 | the corrected own-entry lookup (see ## Findings): a page in the table gets its entry; every other page gets `BLACKFLAME NOVA` |
| `PageVisibility.TitleAfterVisibilityChange` | Script.js:862-877 | the listener with the corrected own-entry lookup (see ## Findings): a hidden tab gets the "come back" title; the title is never empty |
| `PageVisibility.TitleAfterVisibilityChangeAsWritten` | Script.js:862-877 | the listener as written: a hidden tab gets the "come back" title; a visible tab gets an inherited member exactly when its page name is an `Object.prototype` member outside the table; on every other page name it sets the same title as the corrected listener |
| `PageVisibility.VisibleHtmlPageTitle` | Script.js:874-875 | with the corrected own-entry lookup (see ## Findings), a visible `dir/name.html` gets the table's title for `name`, or the generic title |
| `PageVisibility.VisibleDirectoryTitle` | Script.js:874-875 | a visible directory path gets the home page's title |
| `PageVisibility.UnknownPagesGetDefaultTitle` | Script.js:875 | with the corrected own-entry lookup (see ## Findings), a page name outside the table gets `BLACKFLAME NOVA` |
| `PageVisibility.RestoredTitleAsWritten` | Script.js:875 | with JavaScript's property lookup, the title is an inherited member exactly for names of `Object.prototype` members outside the table |
| `PageVisibility.AsWrittenAgreesOffPrototypeNames` | Script.js:875 | apart from those names, the lookup as written gives the table entry or the default |
| `PageVisibility.TableAvoidsPrototypeNames` | Script.js:867-872 | no page of the title table is named after an `Object.prototype` member |
| `PageVisibility.PrototypeNamedPageGetsInheritedTitle` | Script.js:874-875 | `dir/name.html` with `name` an `Object.prototype` member, such as `/constructor.html`, gets that inherited member as its title from the listener as written, while the corrected listener sets `BLACKFLAME NOVA` |

## Left out

- Browser input and output are not modelled. DOM queries, class and style writes
  other than the menu flags, the links' `active` class and the ping colour, element creation, the rainbow animation's style element
  and its 10-second timeout, and console logging are outside the model. A handler's
  effect is the returned flag or the fields it sets.
- `setupMobileMenu` returns early when the toggle or the menu is missing. Then no
  `MobileMenu` object exists. The menu is assumed to start closed with no overflow
  style, as the markup has it.
- Whether a click target lies inside the toggle or the menu (`Node.contains`) is taken
  as two boolean inputs.
- Counter stepping uses floating point, so the numbers `Math.floor(current)` takes
  before the last tick are an input sequence (`frames`). The `setInterval` timing and
  the `IntersectionObserver` are not modelled. `CounterElement.Observe` runs the whole
  animation at once, so ticks of two counters never interleave.
- Counter targets are unbounded integers. `parseInt` loses precision above 2^53, and
  `String` switches to exponent form from 10^21. Neither is modelled.
- `Minecraft.Ping` uses exact real arithmetic for `r * 100`. The IEEE rounding of the
  product is not modelled, and for draws in [0,1) it cannot reach 100. `Math.random`
  and the 10-second refresh are left to the caller.
- `KonamiListener.KeyDown` takes key codes as natural numbers. `KeyboardEvent.keyCode`
  is one (0 when unknown).
- The remaining parts of the script have no sequential logic to state. These are
  smooth scrolling, the header scroll effect, `debounce`, scroll and hover
  animations, particles, the Discord, clipboard and share helpers, server-status
  simulation, voice-channel occupancy, accessibility shims, lazy images, the service
  worker, bootstrap and `getServerInfo`.

## Findings

| source | as written | input that shows it | evidently intended | confidence | as-written member | corrected member |
|---|---|---|---|---|---|---|
| Script.js:875 | `pageTitles[currentPage]` looks up a plain object, so it also finds members inherited from `Object.prototype`. All of them are truthy, so one of them becomes the title. | path `/constructor.html` (also `/toString.html`, `/__proto__.html`, ...) | pages outside the table get `BLACKFLAME NOVA` | high; not executed | `PageVisibility.PrototypeNamedPageGetsInheritedTitle` | `PageVisibility.RestoredTitle` |
