# Wiki-Stats: a verified model of the reading-progress engine

Wiki-Stats is a browser extension that follows a reader through Wikipedia.
The content script runs on every article page. It reads the article's
heading and collects the links of the content area. It times how long the
page is actively read, and once 15 seconds have accumulated it sends the
page to the background worker, once. The background worker keeps a link
graph in local storage:

- `articles`: one record per page read (title, first visit, last visit,
  visit count, link count);
- `links`: each read page's outbound addresses, from its latest scan.

The sidebar is computed from that graph. It shows:

- the progress on the current page (how many of its links have been read);
- the next three unread links on the page;
- the read pages that link here, most recent first;
- the unread pages most often linked from read pages.

Both stored maps are JavaScript objects, and their key order (insertion
order) decides how ties are broken in the sidebar's sorts. The model
therefore keeps each map as an association list:

- assigning to an existing key keeps its position;
- assigning to a new key appends it.

`Array.prototype.sort` is stable. It is modelled as a stable insertion sort
on keys (`StableSort.SortDesc`).

Modules, in dependency order:

- `Seqs`: helpers on sequences.
- `AssocList`: insertion-ordered maps.
- `IntArith`: integer division facts.
- `Graph`: the stored graph and its consistency invariant.
- `Background`: the save handler and the progress query, with the store as
  a class `LocalStorage`.
- `StableSort`: the sort.
- `WikiText`: page-path test, `trim`, link extraction, title from address.
- `TimeAgo`: the relative-time buckets.
- `Dwell`: the active-reading timer, as a class `ReadTimer` whose methods
  are the event handlers.
- `Capture`: the heading and the save message built from the extracted links.
- `Sidebar`: the sidebar's analytics and `displaySidebar`.
- `Scenarios`: worked examples on small concrete graphs.

Inputs the model cannot see are parameters:

- the clock reading `now`;
- whether a storage read or write succeeds (`storageOk`);
- `normalizeUrl`, which is built on the `URL` parser (`normalize`);
- `decodeURIComponent` (`decode`);
- the page the browser provides: its path, the heading text, the anchors of
  the content area, and whether a clicked element is inside a `/wiki/` link.

## Model

| member | source | states |
|---|---|---|
| AssocList.Put | background.js:25-39 | Assigning a key makes its lookup the new value and leaves every other lookup unchanged. An existing key keeps its position; a new key is appended to the key order. |
| AssocList.PutDistinct | background.js:25-39 | Assigning a key keeps the key list free of repeats. |
| AssocList.PutEntries | background.js:39 | Every entry after an assignment is either an entry from before or the assigned pair. |
| Background.NextVisitCount | background.js:26 | A repeat visit adds exactly one to a nonzero count. A missing (zero) count reads as one visit, so it becomes two. |
| Background.Visited | background.js:25-36 | First visit: the page's title, timestamp = lastVisit = the save time, one visit, and linkCount = number of links. Repeat visit: title and first-visit time are kept, the count is incremented, lastVisit is the save time, and linkCount is refreshed. |
| Background.SavedArticles | background.js:25-37 | After a save, the saved page's record is the created or updated record. All other records are unchanged. The key order is kept; a new page is appended at the end. |
| Background.SavedLinks | background.js:39 | After a save, the page's stored list is exactly the new list, replaced and not merged. All other lists are unchanged. The key order is kept; a new page is appended. |
| Background.SavePreservesConsistent | background.js:17-50 | A save keeps both maps on the same duplicate-free key list. It keeps every record at one visit or more, with linkCount equal to the length of its stored list. |
| Background.RepeatedSaves | background.js:25-39 | N saves of a page that was unread give N visits, the first save's title and time, and the last save's time, link count and link list. |
| Background.FilterLengths | background.js:59-68 | The read and unread filters split a page's links: their lengths add up to the total. |
| Background.FilterOrder | background.js:59-68 | Each filter keeps the page's link order (its result is a subsequence). |
| Background.ReadInOrder | background.js:59 | The read filter keeps the page's link order: its result is a subsequence of the list. |
| Background.UnreadInOrder | background.js:68 | The unread filter keeps the page's link order: its result is a subsequence of the list. |
| Background.FilterMembers | background.js:59-68 | An address survives the read filter iff it is on the list and has a record, and survives the unread filter iff it is on the list and has none. |
| Background.FilterCounts | background.js:59-68 | Each filter keeps every occurrence of an address on its side. |
| Background.PercentageRounds | background.js:60-62 | The integer formula is round-half-up of 100·read/total. It lies in [0,100] when read ≤ total, is 100 when all are read, and 0 when none are. |
| Background.Percentage | background.js:60-62 | An empty list gives 0. Otherwise the result is the nearest integer to 100·read/total, ties up. It is within [0,100] when read ≤ total, and 100 at full progress. |
| Background.StatsOf | background.js:58-69 | totalLinks is the length of the page's stored list (empty when missing); readLinks is the length of the read filter, and readLinks + unread count = totalLinks. The percentage is `Percentage(readLinks, totalLinks)`, the round-half-up of 100·read/total, so it is in [0,100], 0 without links, and 100 when every link is read. The unread list is the order-preserving unread filter. |
| Background.LocalStorage.constructor | background.js:22-23 | An empty store, which satisfies the consistency invariant. |
| Background.LocalStorage.SaveArticleData | background.js:17-50 | On success the store becomes the saved maps. On a storage failure nothing changes. The consistency invariant is preserved either way. |
| Background.LocalStorage.GetArticleStats | background.js:52-79 | Changes nothing. On success it returns the progress of the stored graph; on a failure it returns the zero result {0, 0, 0, []}. Either way the percentage is the rounded ratio of its own read and total counts. |
| WikiText.IsArticlePage | content.js:92-101 | True iff the path contains `/wiki/` somewhere and none of `Special:`, `Talk:`, `Help:`, `Wikipedia:`, `File:`, `Category:` anywhere. |
| WikiText.TrimStart | content.js:110 | Drops exactly a leading run of white space; what remains does not start with white space. |
| WikiText.TrimEnd | content.js:110 | Drops exactly a trailing run of white space; what remains does not end with white space. |
| WikiText.Trim | content.js:110 | The result is what is left after dropping the leading and trailing white space: it occurs in the input with only white space before and after it, and neither starts nor ends with white space. It is empty iff the input is all white space. |
| WikiText.CollectAnchor | content.js:127-146 | One anchor adds its link iff the href starts with `/wiki/`, names no excluded namespace, has no `#`, has non-blank trimmed text, and its normalised address is not yet collected. Otherwise the list is unchanged. |
| WikiText.ExtractWikipediaLinks | content.js:113-151 | No content area gives no links. Otherwise the result is the first-by-address scan of the anchors' contributions, in document order. |
| WikiText.FirstByUrlDistinct | content.js:140-145 | The scan never keeps two links with the same address. |
| WikiText.FirstByUrlComplete | content.js:140-145 | Every contributed address ends up in the scan's output. |
| WikiText.FirstByUrlFirst | content.js:140-145 | Each kept link is the first contribution with its address. |
| WikiText.FirstByUrlOrder | content.js:140-145 | The scan keeps document order: its output is a subsequence of the anchors' contributions. |
| WikiText.FirstByUrlPositions | content.js:140-145 | Of two kept links, the earlier one in the output first appears earlier among the contributions. |
| WikiText.ExtractedDistinct | content.js:117-147 | Extracted links have pairwise distinct addresses. |
| WikiText.ExtractedSources | content.js:127-147 | Each extracted link comes from an anchor whose href starts with `/wiki/`, is outside the excluded namespaces and has no `#`. That anchor's trimmed text is its non-empty title, and no earlier anchor yields the same address. |
| WikiText.ExtractedComplete | content.js:127-147 | Every anchor with a followed href and non-blank text has its normalised address extracted. |
| WikiText.ExtractedOrder | content.js:127-147 | Extracted links are in document order: the output is a subsequence of the anchors' contributions, and of two extracted links the earlier one comes from an earlier anchor. |
| WikiText.PlainRun | content.js:331 | The longest prefix free of `?` and `#`: the greedy `[^?#]+`. |
| WikiText.WikiCapture | content.js:331 | There is no match iff no `/wiki/` is followed by a character other than `?` or `#`. A match is the longest run free of `?` and `#` after the leftmost such `/wiki/`, and is non-empty. |
| WikiText.UnderscoresToSpaces | content.js:333 | Every underscore becomes a space, and every other character is kept. |
| WikiText.TitleFromUrl | content.js:330-336 | `Unknown Article` when the address has no `/wiki/` segment (no regex match); otherwise the decoded capture of the leftmost segment with every underscore turned into a space, so a title with no underscore. |
| TimeAgo.GetTimeAgo | content.js:319-328 | With s = whole seconds elapsed, the bucket is: just now iff s < 60; minutes iff s < 3600; hours iff s < 86400; days iff s < 604800; otherwise the absolute date. The count is s/60, s/3600 or s/86400 and lies in the bucket's range. |
| TimeAgo.NewerIsNotOlder | content.js:319-328 | A later timestamp never lands in an older bucket, and within one relative bucket never shows a larger count. |
| Dwell.ReadTimer.constructor | content.js:17-21 | Zero accumulated time, the clock starting now, active unless hidden, not counted, and the interval scheduled. |
| Dwell.ReadTimer.UpdateActiveTime | content.js:23-27 | While active, adds the whole time since lastActiveStart, without moving lastActiveStart (so repeated calls over-count). It changes nothing while inactive and never decreases for clock readings at or after lastActiveStart. |
| Dwell.ReadTimer.OnVisibilityChange | content.js:29-37 | Hidden: accrues, then goes inactive. Visible: goes active with the clock restarted and the accumulated time untouched. |
| Dwell.ReadTimer.OnBlur | content.js:39-42 | Accrues, then goes inactive. |
| Dwell.ReadTimer.OnFocus | content.js:44-49 | Goes active with the clock restarted unless the document is hidden, in which case nothing changes. |
| Dwell.ReadTimer.ShouldSave | content.js:51-54 | After accruing, answers yes iff the threshold of 15000 ms is reached and the page is not counted. Once counted, it is never yes. |
| Dwell.ReadTimer.SaveIfReady | content.js:56-63 | Saves iff ShouldSave says so, then marks the page counted. The number of saves stays 1 once counted and 0 before, so the page is saved at most once. |
| Dwell.ReadTimer.OnTick | content.js:65-69 | A scheduled check saves when ready and then unschedules itself. An unscheduled check does nothing. |
| Dwell.ReadTimer.OnPageExit | content.js:71-79 | Unschedules the check, then saves when ready; there is still at most one save. |
| Dwell.ReadTimer.OnClick | content.js:81-88 | Only a click inside a `/wiki/` link accrues time. It saves iff the page is ready and uncounted, and then marks it counted and unschedules the check. |
| Dwell.TicksOverCount | content.js:23-69 | A worked run: with checks every second, the accumulated time reaches 15 s after 5 s on the page, the fifth check saves, and leaving the page does not save again. |
| Capture.ArticleTitle | content.js:108-111 | No heading gives `Unknown`; otherwise the trimmed heading text, starting and ending with non-space. |
| Capture.SaveMessage | content.js:153-163 | The save payload carries the page address, title and clock reading, and the addresses of the links in page order. |
| Capture.ExtractedMessageDistinct | content.js:160 | A payload built from extracted links has no repeated address. |
| Capture.SaveKeepsListsDistinct | background.js:39 | Saving a duplicate-free list keeps every stored list duplicate-free. |
| Sidebar.ExploreNext | content.js:179-181 | The first min(3, unread) unread links of the page: a prefix of the page's unread links of exactly that length. |
| Sidebar.UnreadPageLinksMembers | content.js:180 | A page link survives the filter iff it is on the page and unread. |
| Sidebar.UnreadPageLinksOrder | content.js:180 | The filter keeps page order. |
| Sidebar.ExploreNextSpec | content.js:179-181 | Only unread page links, in page order, min(3, unread) of them, and none exactly when every page link is read. |
| Sidebar.VisitTime | content.js:189 | `lastVisit`, or the first-visit timestamp when lastVisit is zero. |
| Sidebar.CollectIncoming | content.js:183-194 | The referrers found by the loop, sorted most recent first. The result is a permutation of them, and it is the stable sort. |
| Sidebar.ReferrersSound | content.js:184-191 | Every referrer is a read page whose stored list contains the address, shown with its own title and visit time. |
| Sidebar.ReferrersComplete | content.js:184-191 | Every read page whose stored list contains the address is a referrer. |
| Sidebar.ReferrersInView | content.js:183-194 | In a consistent store, the sorted "Referenced in" list contains every read page whose stored list contains the address, and nothing else. |
| Sidebar.IncomingOrder | content.js:194 | The list is non-increasing by visit time, and referrers with equal times stay in store order. |
| Sidebar.Increment | content.js:201 | One more occurrence adds exactly one to that address's count (from 0 when absent) and leaves others alone. A new address is appended to the key order. |
| Sidebar.CountUnreadLinks | content.js:199-203 | Starting from the counts so far, the inner loop adds one for each unread link of the page, in list order; read links change nothing. |
| Sidebar.CountIntoAppend | content.js:196-205 | Counting one page's unread links on top of the counts of the pages before it gives the counts of all of them together. |
| Sidebar.CountLinks | content.js:196-205 | The nested loops produce the counts of the unread targets of all read pages, in visiting order. |
| Sidebar.TallyKeys | content.js:196-205 | The counted addresses, in key order, are the targets in first-discovered order without repeats. |
| Sidebar.TallyLookup | content.js:196-205 | An address has a count iff it is a target, and the count is its number of occurrences among the targets. |
| Sidebar.TargetsUnread | content.js:198-200 | Only unread pages are counted. |
| Sidebar.CountIsReferrers | content.js:196-205 | When stored lists have no repeats, an unread page's count equals the number of read pages that link to it. |
| Sidebar.Suggestions | content.js:207-214 | At most three suggestions, each titled from its address. |
| Sidebar.SuggestionsSpec | content.js:196-214 | Every suggestion is an unread target whose count is its number of occurrences (at least 1). Counts never increase down the list, and there are min(3, distinct targets) suggestions. |
| Sidebar.EntryOfTally | content.js:196-205 | Each counts entry is a target with its own occurrence count. |
| Sidebar.SuggestionsTop | content.js:207-209 | A counted page left out means three pages were shown, each counted at least as often as the one left out. |
| Sidebar.SuggestionsTopOf | content.js:207-209 | The same for any counts table: an entry left out implies three shown, each counted no less. |
| Sidebar.SuggestionsTies | content.js:207-208 | Pages with equal counts keep their first-discovered order. |
| Sidebar.DisplayedVisitCount | content.js:216-217 | 1 for an unread page or a zero count; otherwise the stored count. |
| Sidebar.VisitNumberAfterSaves | content.js:216-217 | After N saves of a page that was unread, the sidebar shows visit number N. |
| Sidebar.DisplaySidebar | content.js:169-223 | For a consistent store: changes nothing, and each sidebar field is the matching analytic of the store: progress, or the zero result on failure; visit number; next links; referrers by recency; top suggestions. "Referenced in" holds exactly the read pages whose stored list contains the address, each with its own title and visit time. |
| StableSort.SortDesc | content.js:194 | The sort result has the same length as its input. |
| StableSort.SortDescSorted | content.js:194 | The result is non-increasing in the key. |
| StableSort.SortDescPermutes | content.js:194 | The result is a permutation of the input. |
| StableSort.SortDescStable | content.js:194 | Elements with equal keys keep their relative order. |
| Scenarios.TwoVisits | background.js:25-36 | Two saves of one page give two visits, the later time as lastVisit, and its link count. |
| Scenarios.HalfRead | background.js:58-69 | A page linking to one read and one unread page shows 2 links, 1 read, 50%, with the unread one listed. |
| Scenarios.SharedTarget | content.js:196-214 | Two read pages that both link to the same unread page give a single suggestion counted twice. |
| Scenarios.LatestScanOnly | background.js:58-68 | After a save, the page's progress counts only the links of the latest scan: its total is the new list's length, and a link the new scan dropped is not listed as unread. |

## Left out

- chrome.runtime messaging (background.js:1-15, content.js:155-163, 170-173) is not modelled. A save or query is a direct call.
- The save handler answers `{success: true}` even when the save failed, because the error is caught and only logged (background.js:3-5, 47-49). The model has no reply; the failure is the `storageOk` flag leaving the store as it was.
- chrome.storage get, set and clear are the fields of `LocalStorage`. A failure of either the read or the write is one flag. Clear Data (content.js:309-316) is not modelled.
- `displaySidebar`'s second storage read (content.js:175) is modelled as reading the same store that answered the progress query.
- The `if (stats)` guard (content.js:174) cannot fail in the model, since the progress query always answers.
- DOM work is not modelled: `createSidebar`'s HTML (content.js:225-317), `querySelector`, `textContent` and `getAttribute`. Its display choices (visit number shown only above 1, only five referrers shown) are left out too. The page's anchors and heading are parameters.
- The `!href` case (content.js:130) cannot arise for anchors chosen by `a[href^="/wiki/"]`, so an anchor always has an href.
- Event wiring, the one-second timer and page reload are not modelled. Only the state transitions the listeners make are modelled, each taking the clock reading; whether the interval is still scheduled is a field.
- `Date.now()` is the parameter `now` (or the payload's timestamp).
- `toLocaleDateString` (content.js:327) is the opaque bucket `Absolute(timestamp)`.
- `Math.round` over floating point (background.js:61) is the integer round-half-up formula; IEEE rounding artefacts are not modelled.
- The `URL` parser in `normalizeUrl` (content.js:103-106) and `decodeURIComponent` (content.js:333) are uninterpreted function parameters. A `URIError` thrown by the decoder is not modelled.
- Console logging is not modelled.
- Concurrent saves interleaving their reads and writes (lost updates) are not modelled; saves are sequential.
- The in-place `sort` calls (content.js:194, 208) are modelled on values, as the stable sort returning a new sequence.
- JavaScript puts integer-like keys before the others in object order. The model assumes no stored address is integer-like (addresses are full URLs), so key order is plain insertion order.
- Stored values are assumed to have the recorded shape. Any stored `visitCount` is an integer; arrays and records are never replaced by other JSON.
- `lastVisit` is the last save's timestamp, not the latest one: the code does not keep it monotone when timestamps go backwards, and neither does the model.
- Sidebar.CountIsReferrers: needs duplicate-free stored lists. Capture.SaveKeepsListsDistinct shows such lists stay duplicate-free when saves come from extraction. A payload with repeated addresses would count the repeats.
- Sidebar.Suggestions: states only the bound and the titles; the ranking is stated by Sidebar.SuggestionsSpec, Sidebar.SuggestionsTop and Sidebar.SuggestionsTies.
