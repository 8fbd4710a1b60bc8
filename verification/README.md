# Investor directory page: a Dafny model

This project models the logic of the investor directory page of a
fundraising-platform website, and the scroll behaviour of its landing-page
header. The page loads a list of investor records and filters it by a
free-text search and five selectors. It splits the result into pages of ten
rows and shows a window of at most five page buttons. A user can "reveal" an
investor: that fetches the investor's detail record, merges it into the row
and plays a text-scramble animation. The header hides while the page scrolls
down and reappears while it scrolls up.

Each part of the page is written as pure functions over immutable sequences,
sets and records:

- `Text`: `toLowerCase` and `includes`, with `includes` proved equal to
  "occurs at some offset".
- `Investors`: the investor row, the partial detail record, and the
  object-spread merge.
- `Arrays`: `Array.prototype.filter`, with the positions it keeps.
- `Filter`: the search and selector predicate (`filteredInvestors`).
- `Options`: the Location and Sector drop-down lists. These are built from
  the loaded rows with `Set`, `split(", ")` and `trim`.
- `Pager`: the page count, the `slice` of visible rows, and the "Showing x-y
  of n" caption.
- `PageWindow`: the numbered page buttons and the Previous/Next targets.
- `Reveal`: `handleRevealInvestor` as a state machine.
  - The `revealedInvestors` and `revealingInvestors` sets are part of the
    state.
  - The suspended continuations of the async function are explicit pending
    tasks: one waits for the detail request, one for the one-second timer.
  - A click, the settling of a request and the firing of a timer are
    separate events, so several reveals can interleave.
- `Scramble`: one frame of the `ScrambleText` animation, with `Math.random`
  given as a stream of draws in `[0, 1)`.
- `Panel`: what the list area shows for the current criteria and page:
  the page's rows or the "No investors found" message.
- `Header`: `handleScroll` over `lastScrollY`, `isVisible` and `isScrolled`.
- `Numbers`: `Math.min` and `Math.max`.

The model follows the code as written, including these behaviours:

- A record with a missing field is not always quietly excluded. A missing
  Full Name throws at line 221 whatever the criteria. A missing Headline,
  Venture Capital Name or Keywords throws only when the search reaches that
  field, that is when the earlier fields of lines 221-224 do not contain the
  query. A missing Keywords also throws at line 227 when a sector is
  selected. A missing Country, Investment Stage, Ticket Size or Contact
  Preference is compared with `===` and never lower-cased, so an active
  selector quietly excludes the record.
- The current page is not reset when the criteria change. When the current
  page lies past the new last page, the list area shows "No investors found
  matching your criteria." even though rows match, and no pagination bar is
  offered to go back (see Findings).
- After a failed reveal, the id goes back to hidden only when the request
  throws. An OK response whose body has a falsy `success` or `data` leaves
  the id in `revealingInvestors` for good (see Findings).
- A reveal is not one-directional: a thrown error takes the id from
  revealing back to hidden.

## Model

| member | source | states |
|---|---|---|
| Text.Lower | src/components/ui/investor-dashboard.tsx:221 | lower-casing keeps the length and leaves no upper-case letter; every other character is kept |
| Text.LowerIdempotent | src/components/ui/investor-dashboard.tsx:221 | lower-casing an already lower-cased string changes nothing, so comparing lower-cased forms ignores case |
| Text.Includes | src/components/ui/investor-dashboard.tsx:221-224 | the left-to-right scan answers true exactly when the needle occurs at some offset of the haystack |
| Text.IncludesEmpty | src/components/ui/investor-dashboard.tsx:221 | every string includes the empty search string |
| Filter.IncludesIgnoringCase | src/components/ui/investor-dashboard.tsx:221 | the lower-cased query occurs in the lower-cased field |
| Filter.MatchesSearch | src/components/ui/investor-dashboard.tsx:220-224 | the search passes iff the lower-cased query occurs in the lower-cased full name, headline, firm name or keywords |
| Filter.MatchesExact | src/components/ui/investor-dashboard.tsx:226-230 | the four sentinel-guarded equality tests hold iff every active location, stage, ticket-size and contact-preference selector equals its field |
| Filter.Matches | src/components/ui/investor-dashboard.tsx:219-233 | a record passes iff the search matches and every active exact selector matches and an active sector occurs in the keywords ignoring case |
| Filter.FilterInvestors | src/components/ui/investor-dashboard.tsx:219-233 | the result is no longer than the input; every result row is an input row that satisfies the criteria; every input row that satisfies them is in the result |
| Filter.FilterSelectsMatchingPositions | src/components/ui/investor-dashboard.tsx:219-233 | the result is exactly the rows at the passing positions, in increasing position order: an order-preserving subsequence that drops only failing rows |
| Filter.UnfilteredMatchesEverything | src/components/ui/investor-dashboard.tsx:66-71 | with the initial criteria (empty search, every selector at its "All ..." sentinel) every record passes |
| Filter.UnfilteredIsIdentity | src/components/ui/investor-dashboard.tsx:219-233 | with the initial criteria the filtered list equals the loaded list |
| Filter.CriteriaIgnoreCase | src/components/ui/investor-dashboard.tsx:221-227 | replacing the search term or a non-sentinel sector by one with the same lower-case form does not change the outcome |
| Filter.FintechSearchFindsHeadline | src/components/ui/investor-dashboard.tsx:222 | searching "fintech" finds every record whose headline contains "Fintech" anywhere, whatever its other fields |
| Arrays.Filter | src/components/ui/investor-dashboard.tsx:219 | `filter` returns only input elements that satisfy the callback, keeps every one that does, and never lengthens the list |
| Arrays.FilterSelectsKeptPositions | src/components/ui/investor-dashboard.tsx:219 | `filter` returns the elements at exactly the positions whose element satisfies the callback, in order |
| Arrays.FilterKeepingAll | src/components/ui/investor-dashboard.tsx:219 | a `filter` whose callback accepts every element returns the list unchanged |
| Options.Distinct | src/components/ui/investor-dashboard.tsx:80 | the `Set` holds every given value exactly once and nothing else |
| Options.Split | src/components/ui/investor-dashboard.tsx:83 | the parts of `split(", ")` joined back with ", " give the input; no part contains ", "; every part occurs in the input |
| Options.Trim | src/components/ui/investor-dashboard.tsx:83 | `trim` returns a stretch `s[i..j]` of its input with only JavaScript white space before `i` and from `j` on, and none at the stretch's own ends; it is non-empty when the input has a non-white-space character |
| Options.TrimmedFromUnique | src/components/ui/investor-dashboard.tsx:83 | only one stretch of a string has white space, and only white space, around it and none at its ends, so that description fixes what `trim` returns |
| Options.TrimIsUnique | src/components/ui/investor-dashboard.tsx:83 | any string meeting that description is the trimmed string |
| Options.TrimIdempotent | src/components/ui/investor-dashboard.tsx:83 | trimming a trimmed tag changes nothing |
| Options.Tags | src/components/ui/investor-dashboard.tsx:83 | empty keywords give no tags; otherwise there is one tag per `", "`-separated part, the k-th tag being the k-th part with the white space at its ends removed |
| Options.Countries | src/components/ui/investor-dashboard.tsx:80 | one entry per investor, in order, each the investor's country |
| Options.AllTags | src/components/ui/investor-dashboard.tsx:82-84 | a tag is in the flattened list iff it is a tag of some investor |
| Options.OptionList | src/components/ui/investor-dashboard.tsx:80-85 | the list starts with the sentinel, then holds every non-empty value exactly once and nothing else |
| Options.LocationOptions | src/components/ui/investor-dashboard.tsx:80 | the Location list is "All Locations", then every non-empty country of some investor exactly once |
| Options.SectorOptions | src/components/ui/investor-dashboard.tsx:81-85 | the Sector list is "All Sectors", then every non-empty keyword tag of some investor exactly once |
| Options.OfferedLocationSelectsSomeone | src/components/ui/investor-dashboard.tsx:80 | choosing any offered location, with the other criteria at their defaults, leaves at least one investor |
| Options.OfferedSectorSelectsSomeone | src/components/ui/investor-dashboard.tsx:81-85 | choosing as the sector any tag of some investor (which every offered sector is), with the other criteria at their defaults, leaves at least one investor, because a tag occurs in its keywords ignoring case |
| Investors.Merge | src/components/ui/investor-dashboard.tsx:174-178 | the spread merge takes every key the detail carries from the detail, every other key from the row, and sets the revealing flag |
| Investors.MergeIdempotent | src/components/ui/investor-dashboard.tsx:174-178 | merging the same detail twice gives the same row as merging it once |
| Investors.CompleteDetailOverridesSummary | src/components/ui/investor-dashboard.tsx:174-178 | a detail record with every key fixes the merged row whatever the summary row was |
| Investors.MergeKeepsId | src/components/ui/investor-dashboard.tsx:173-176 | the merged row keeps its `row_id` iff the detail has no `row_id` or the same one |
| Pager.TotalPages | src/components/ui/investor-dashboard.tsx:236 | the page count is the least number of ten-row pages that hold all rows, and is 0 exactly for an empty list |
| Pager.Slice | src/components/ui/investor-dashboard.tsx:239 | `slice(start, end)` with non-negative arguments returns the elements from `start` up to `end`, both capped at the length; a start in `-length..-1` with an end of at least the length gives the last `-start` elements; it is empty when `0 <= end <= start` |
| Pager.PageItems | src/components/ui/investor-dashboard.tsx:237-239 | a page holds at most ten rows, namely the rows from index `(page-1)*10` on; pages before the last are full, the last holds the remainder, and a page past the last is empty |
| Pager.PagesArePrefix | src/components/ui/investor-dashboard.tsx:236-239 | pages 1 to k together are the first `10*k` rows (or all rows) |
| Pager.PagesReassembleList | src/components/ui/investor-dashboard.tsx:236-239 | the pages 1 to `totalPages` concatenated in order are the whole filtered list, without gaps or repeats |
| Pager.ShowingDescribesPage | src/components/ui/investor-dashboard.tsx:765 | on an existing page, "Showing first-last" satisfies 1 <= first <= last <= n and names exactly the rows shown |
| Pager.TwentyFiveRows | src/components/ui/investor-dashboard.tsx:236-239 | 25 rows give 3 pages; page 1 is rows 1-10 and page 3 is rows 21-25 |
| PageWindow.PageButtons | src/components/ui/investor-dashboard.tsx:777-787 | there are `min(5, totalPages)` buttons with consecutive numbers, all within `1..totalPages` whatever the current page; the current page is among them when it exists; with more than five pages the window starts at 1 while the current page is at most 3, ends at the last page once it is within the last three, and otherwise has the current page in the middle |
| PageWindow.Previous | src/components/ui/investor-dashboard.tsx:772-773 | from page p > 1 Previous goes to page p - 1; it stays put exactly on page 1, where the button is disabled |
| PageWindow.Next | src/components/ui/investor-dashboard.tsx:809-810 | from page p below the last Next goes to page p + 1; it stays put exactly on the last page, where the button is disabled |
| PageWindow.NavigationStaysInRange | src/components/ui/investor-dashboard.tsx:772-810 | from an existing page the Previous and Next targets are existing pages |
| PageWindow.PreviousNextInverse | src/components/ui/investor-dashboard.tsx:772-810 | away from the ends, Previous undoes Next and Next undoes Previous |
| PageWindow.ButtonsDistinct | src/components/ui/investor-dashboard.tsx:777-791 | button numbers strictly increase, so no two buttons share a React key |
| Reveal.StatusOf | src/components/ui/investor-dashboard.tsx:542-549 | the button reads "Revealing..." exactly while the id is being revealed, "Revealed" exactly when it is revealed and not being revealed, and the reveal prompt otherwise |
| Reveal.UpdateRows | src/components/ui/investor-dashboard.tsx:171-182 | the `map` over rows changes exactly the rows whose `row_id` is the id and keeps the list length |
| Reveal.ClickReveal | src/components/ui/investor-dashboard.tsx:151-157 | for a revealed or revealing id nothing changes and no request is issued; otherwise the id becomes revealing and exactly one detail request is queued |
| Reveal.SettleFetch | src/components/ui/investor-dashboard.tsx:159-215 | a delivered detail is merged into every row with the id, leaves every other row as it was, keeps the id revealing and waits for the timer; a thrown error removes the id from revealing and leaves the rows; a declined response changes no page state; none touches the revealed set |
| Reveal.FireTimer | src/components/ui/investor-dashboard.tsx:185-206 | when the timer ends the id moves from revealing to revealed, the rows with the id lose the revealing flag, every other row stays, and the task is done |
| Reveal.InitSatisfiesInv | src/components/ui/investor-dashboard.tsx:76-77 | the freshly loaded page satisfies the reveal invariant |
| Reveal.ApplyPreservesInv | src/components/ui/investor-dashboard.tsx:151-216 | every click, settle or timer event keeps three facts: revealed and revealing are disjoint; every pending task's id is revealing; no two pending tasks share an id |
| Reveal.RunsPreserveInv | src/components/ui/investor-dashboard.tsx:151-216 | the invariant holds after any sequence of events, in any interleaving |
| Reveal.DoubleClickIssuesOneFetch | src/components/ui/investor-dashboard.tsx:152-159 | clicking a hidden id twice before its request settles leaves exactly one request pending for it |
| Reveal.SuccessfulReveal | src/components/ui/investor-dashboard.tsx:157-206 | after a click, a delivered detail and the timer: the id is revealed, every other id keeps its status, no task is left, and only rows with the id carry the merged detail |
| Reveal.FailedRevealRestoresState | src/components/ui/investor-dashboard.tsx:208-215 | a click followed by a thrown error restores the page state exactly, so a retry is accepted |
| Reveal.DeclinedRevealSticks | src/components/ui/investor-dashboard.tsx:167-207 | a click followed by an OK-but-unsuccessful response leaves the id revealing with no pending task, and a retry is refused |
| Reveal.StuckPersists | src/components/ui/investor-dashboard.tsx:167-215 | no event releases a revealing id that has no pending task |
| Reveal.StuckForever | src/components/ui/investor-dashboard.tsx:542-547 | after any further run of events such an id still shows "Revealing..." |
| Reveal.RevealedIsPermanent | src/components/ui/investor-dashboard.tsx:188 | no event removes an id from the revealed set |
| Reveal.SettleFetchCorrected | src/components/ui/investor-dashboard.tsx:208-215 | with the correction, a delivered detail is merged as written, and a declined or thrown response leaves the rows, removes the id from revealing and drops the task |
| Reveal.CorrectedSettlePreservesInv | src/components/ui/investor-dashboard.tsx:151-216 | the corrected settle keeps the reveal invariant |
| Reveal.CorrectedDeclineReverts | src/components/ui/investor-dashboard.tsx:208-215 | with the correction, a declined response restores the page state, the id is not stuck, and a retry is accepted |
| Scramble.GlyphFor | src/components/ui/investor-dashboard.tsx:41 | a random draw in `[0, 1)` always picks a character of the glyph alphabet |
| Scramble.FrameFrom | src/components/ui/investor-dashboard.tsx:36-44 | the frame's tail from position i has the target's remaining length; each character is the target's or a glyph; at step >= 20 it is the target's tail; at step <= 0 it is all glyphs |
| Scramble.Frame | src/components/ui/investor-dashboard.tsx:33-46 | every frame has the target's length and shows at each position the target character or a glyph; from step 20 on it is the target |
| Scramble.Displayed | src/components/ui/investor-dashboard.tsx:21-54 | without scrambling the target is shown; after more than 20 ticks the target is shown; after any tick the text has the target's length |
| Scramble.FirstFrameIsFullyScrambled | src/components/ui/investor-dashboard.tsx:38-41 | at step 0 no draw can be below `0/20`, so every position shows a glyph |
| Scramble.LowDrawsRevealTarget | src/components/ui/investor-dashboard.tsx:38-39 | when every draw falls below `step/20` the frame is exactly the target |
| Scramble.BoundIsIrrelevant | src/components/ui/investor-dashboard.tsx:36-37 | loop positions past the target's end add no characters and consume no draws |
| Scramble.FrameIgnoresOriginalText | src/components/ui/investor-dashboard.tsx:36-37 | the frame does not depend on the text being replaced |
| Panel.Show | src/components/ui/investor-dashboard.tsx:375-821 | on a page of at least 1, the no-match message appears exactly when nothing matches or the page lies past the last page; otherwise the page's rows are shown, with the pagination bar exactly when there is more than one page |
| Panel.SelectCriteria | src/components/ui/investor-dashboard.tsx:294-344 | choosing new criteria sets them and leaves the current page as it was |
| Panel.StalePageHidesMatches | src/components/ui/investor-dashboard.tsx:236-239 | with eleven investors with distinct ids on page 2, choosing the only UK investor's country leaves one match, yet the list area shows the no-match message |
| Panel.SelectCriteriaCorrected | src/components/ui/investor-dashboard.tsx:294-344 | with the correction, choosing new criteria also goes back to page 1 |
| Panel.CorrectedSelectionShowsMatches | src/components/ui/investor-dashboard.tsx:236-239 | with the correction, the no-match message appears exactly when nothing matches |
| Header.HandleScroll | src/components/landing/header.tsx:12-29 | after a scroll event the header is visible iff the position did not increase, is scrolled iff it is past 50, and remembers the position |
| Header.ReplaySnoc | src/components/landing/header.tsx:12-29 | replaying one more scroll event is handling it after the earlier ones |
| Header.OnlyLastTwoPositionsMatter | src/components/landing/header.tsx:12-29 | after any non-empty run of scroll events, visibility depends only on the last two positions (the first event compares with 0) and the scrolled flag only on the last |
| Header.InitialIsVisibleAtTop | src/components/landing/header.tsx:7-9 | before any event the header is visible, not scrolled, and at position 0 |

## Left out

- Absent or `null` fields are not modelled: every field of a record is a
  total string. The code's behaviour on a missing field (described above)
  is therefore stated in prose only.

- Network I/O is not modelled. This covers the list request and its error
  display (`src/components/ui/investor-dashboard.tsx:91-117`), the detail
  request and JSON decoding. The model takes the result of a detail request
  as input: delivered, declined or thrown.
- Real time is not modelled: the 50 ms interval, the 1000 ms timeout and the
  interval's cleanup on unmount. Ticks and timer firings are abstract events.
- `Math.random` is a stream of draws in `[0, 1)`, read in the order the code
  makes them. Its distribution is not modelled.
- The `scrambleText` helper at `src/components/ui/investor-dashboard.tsx:120-148`
  is never called and is not modelled.
- React scheduling is not modelled. The code's guard reads the sets of the
  last render, and state updates are batched. The model applies every update
  at once, so two clicks within one render are one click after another.
- Rendering is not modelled: the JSX, tooltips and badges, the `originalText`
  lookup passed to `ScrambleText`, and the `window.location.reload()` retry.
  (`Scramble.FrameIgnoresOriginalText` shows that frames do not depend on
  `originalText`.)
- Options.Distinct: does not state that the values keep the order of their
  first occurrence. That order only affects how the drop-down entries are
  listed.
- The fixed Stage, Ticket Size and Contact Preference lists
  (`src/components/ui/investor-dashboard.tsx:86-88`) are constants that only
  fill drop-downs. The filter treats their values as opaque strings.
- Text.Lower: maps only ASCII letters. `toLowerCase` uses full Unicode case
  mapping, which can also change a string's length.
- Header.HandleScroll: positions are whole pixels, not the browser's
  floating-point `scrollY`.
- Scramble.Displayed: takes only the draws of the tick being shown. Earlier
  ticks do not affect what is on screen.
- Strings are sequences of Unicode scalar values, while JavaScript's
  `length` and indexing count UTF-16 code units. For text outside the Basic
  Multilingual Plane (emoji, say), the scramble frame's length and its
  per-position content differ from what the browser shows.
- The payment button, the user sync call, routing and the static landing
  sections are not part of this model. They are wiring around external
  services, or content with no logic.

## Findings

| source | as written | input that shows it | evidently intended | confidence | as-written member | corrected member |
|---|---|---|---|---|---|---|
| src/components/ui/investor-dashboard.tsx:167-207 | when the detail response is OK but `result.success` or `result.data` is falsy, nothing throws and the id is never removed from `revealingInvestors` | a 200 response with body `{ "success": false }` for a hidden id | treat it as an error, as the list request does with the same condition at lines 103-106: drop the id from `revealingInvestors` so the user can retry | medium, not executed | Reveal.DeclinedRevealSticks | Reveal.CorrectedDeclineReverts |
| src/components/ui/investor-dashboard.tsx:236-239 | changing a criterion (lines 294-344) keeps `currentPage`; when the current page now lies past the last page, `currentInvestors` is empty and the list area (lines 375-821) shows "No investors found matching your criteria." without the pagination bar | eleven investors, page 2 open, then Location set to the one investor's country "UK" | go back to page 1 whenever the criteria change | medium, not executed | Panel.StalePageHidesMatches | Panel.CorrectedSelectionShowsMatches |
