# Tab cleaner: a Dafny model

This project models the decision logic of a browser extension that tidies tabs. The extension
comes in two variants: the "duplicate window cleaner" and the slimmer "release" build.

- **Duplicate cleaning** (`cleanWindowTabs`, the same text in both variants). The popup walks
  a window's tabs in order. It skips audible tabs and `chrome://` / `edge://` pages. It keys
  every other tab by origin, path and query, so the fragment is dropped. The first tab with a
  key is kept; every later tab with that key is queued and asked to close.
  - `cleanTabs` runs this over the current window or over every window and adds the counts up.
  - The statistics line (`updateTabStats`) runs the same grouping over the current window and
    skips nothing.
- **Stale-tab cleaning** (`cleanOldTabs`, cleaner variant only). It closes every tab that is
  not pinned, not audible and not internal, and whose recorded last access lies strictly more
  than seven days (604 800 000 ms) in the past.
- **The access-time table** (`background.js`): a map from tab id to epoch milliseconds. It is
  kept up to date by read-modify-write handlers:
  - install-time initialisation, which never overwrites a truthy entry;
  - recording an access;
  - deleting an entry;
  - the `onUpdated` guard;
  - an hourly sweep that deletes the entries of closed tabs and counts them.
- **The "last clean" line** (`formatRelativeTime`). Integer millisecond arithmetic picks one of
  five buckets.

## How the browser is replaced

The browser, the storage and the page are replaced by plain values.

- A tab is a `Tab(id, url, pinned, audible)` record. A window is a `seq<Tab>` in enumeration
  order.
- The stored table is a `map<int, int>`: the field of class `AccessTimes.AccessTimeTracker`.
  Each handler is one method that rewrites the field.
- `Date.now()` is a parameter `now`.
- The tabs whose removal the browser refuses are a parameter `failing: set<int>`. The closing
  loop returns the ids actually closed (`Removal.Succeeded`).
- JavaScript truthiness is written out:
  - an access-time entry counts only when present and not 0;
  - `changeInfo.url` counts only when present and not the empty string.

### The URL key

`new URL(...)` is a browser library, so the model uses a concrete stand-in, `Tabs.Normalize`:

- a URL "parses" when it starts with a letter, followed by scheme characters and a `:`;
- its key is then its text up to the first `#`;
- any other URL gets no key (`None`), and the tab is passed over.

The browser's constructor differs from this in both directions (see "## Left out"). It
throws for some strings that do open with a scheme, and the model gives those a key. It also
accepts some strings without a leading scheme, because it first strips surrounding spaces
and control characters, and the model gives those no key.

What the algorithms rely on is proved of this function: the key ignores the fragment
(`Tabs.NormalizeIgnoresFragment`).

### Where the code differs from the intended behaviour

Two rules one would expect of the cleaner do not hold in the code. The model follows the code
and proves what the code does.

- **Closed count.** One would expect `tabsClosed` to count only the closings that succeeded.
  The code sets it to `tabsToClose.length`, whatever `chrome.tabs.remove` does
  (chrome-duplicate-window-cleaner/popup.js:199-212).
  - `Dedup.CleanWindowTabs` proves `tabsClosed == duplicatesFound == |tabsToClose|` for every
    set of failing removals.
  - The tabs actually closed are returned separately.
  - `Rerun.SecondRunQueuesRefused` shows that the refused tabs are found again by the next clean.
- **Pinned tabs.** Stale-tab cleaning never closes a pinned tab
  (chrome-duplicate-window-cleaner/popup.js:52-54). Duplicate cleaning has no pinned check: it
  passes over audible tabs and internal pages only
  (chrome-duplicate-window-cleaner/popup.js:173-182, chrome-extension-release/popup.js:82-91).
  - A pinned tab that repeats an earlier tab's key is queued and closed.
  - `DedupProperties.PinnedDuplicateQueued` states this.

### Layout

| file | module | models |
|---|---|---|
| wrappers.dfy | `Wrappers` | `Option` |
| tabs.dfy | `Tabs` | the tab record, the internal-page test, the URL key |
| removal.dfy | `Removal` | the try/remove/catch loop both cleaners end with |
| dedup.dfy | `Dedup` | `cleanWindowTabs`, the counting loop of `updateTabStats` |
| dedup_properties.dfy | `DedupProperties` | first-wins, exemptions, counting, pinned tabs, an example window |
| rerun.dfy | `Rerun` | cleaning the window the first clean left behind |
| staleness.dfy | `Staleness` | `cleanOldTabs` |
| duplicate_cleaning.dfy | `DuplicateCleaning` | the part of `cleanTabs` both variants share |
| cleaner_popup.dfy | `CleanerPopup` | `cleanTabs` of the cleaner variant |
| release_popup.dfy | `ReleasePopup` | `cleanTabs` of the release variant |
| relative_time.dfy | `RelativeTime` | the bucket choice of `formatRelativeTime` |
| key_choice.dfy | `KeyChoice` | visiting the keys of the stored table one at a time |
| access_times.dfy | `AccessTimes` | the background script's table and its handlers |

The duplicate algorithm is defined once. Both popup files carry the same text for it
(chrome-duplicate-window-cleaner/popup.js:165-250 and chrome-extension-release/popup.js:74-159).

## Model

| member | source | states |
|---|---|---|
| Tabs.Normalize | chrome-duplicate-window-cleaner/popup.js:184-186 | A key exists exactly when the URL parses. The key is a prefix of the URL, holds no `#`, and stops at the first `#` when there is one. |
| Tabs.NormalizeIgnoresFragment | chrome-duplicate-window-cleaner/popup.js:185-186 | `u#f` has the same key as `u`, for every fragment `f`. A parseable URL without `#` is its own key. |
| Dedup.DuplicateIndices | chrome-duplicate-window-cleaner/popup.js:173-197 | The queued positions are strictly increasing, so they keep window order. Position `i` is queued exactly when tab `i` takes part and an earlier participating tab has its key. |
| Dedup.CleanWindowTabs | chrome-duplicate-window-cleaner/popup.js:165-216 | The loop queues exactly the ids of the later duplicates, in window order. `duplicatesFound` and `tabsClosed` both equal the number queued, whatever removals fail. The message is "cleaned n" exactly when n > 0. The tabs closed are the queued ones the browser does not refuse. |
| Dedup.CountDuplicates | chrome-extension-release/popup.js:137-159 | The statistics loop reports the window's tab count. Its duplicate count is the number of later duplicates when no tab is skipped. |
| Removal.Succeeded | chrome-duplicate-window-cleaner/popup.js:199-207 | An id is closed exactly when it was queued and the browser does not refuse it. A refusal never stops later requests. |
| Removal.RemoveEach | chrome-extension-release/popup.js:108-116 | The closing loop closes exactly `Succeeded(queued, failing)`, in request order. |
| DedupProperties.FirstKeptLaterQueued | chrome-extension-release/popup.js:93-102 | The first participating tab with a key is not queued. A later participating tab with the same key is queued. |
| DedupProperties.QueuedIdsWellFormed | chrome-duplicate-window-cleaner/popup.js:173-197 | With distinct tab ids, no id is queued twice. A tab's id is queued exactly when the tab is a later duplicate. |
| DedupProperties.QueuedIdIff | chrome-extension-release/popup.js:97-101 | One tab at a time: its id is queued if and only if it is a later duplicate. |
| DedupProperties.UngroupedNeverQueued | chrome-extension-release/popup.js:84-105 | Audible tabs, `chrome://` and `edge://` pages, and tabs whose URL does not parse are never queued. |
| DedupProperties.UngroupedNotRecorded | chrome-duplicate-window-cleaner/popup.js:184-196 | A skipped or unparseable tab adds no key to the seen keys. |
| DedupProperties.DuplicateCount | chrome-duplicate-window-cleaner/popup.js:188-193 | Duplicates found plus distinct keys equals the number of participating tabs. |
| DedupProperties.FragmentVariantsAreDuplicates | chrome-duplicate-window-cleaner/popup.js:185-189 | Two eligible tabs whose URLs agree before any `#` (either one plain, or with a fragment of its own): the later one is queued. |
| DedupProperties.CleaningDuplicateIsStatsDuplicate | chrome-duplicate-window-cleaner/popup.js:237-250 | Every tab the cleaning loop queues also counts as a duplicate on the statistics line. |
| DedupProperties.StatsCoverCleaning | chrome-duplicate-window-cleaner/popup.js:237-250 | The statistics line never shows fewer duplicates than one cleaning run would close. |
| DedupProperties.PinnedDuplicateQueued | chrome-duplicate-window-cleaner/popup.js:173-193 | A pinned, non-audible, non-internal tab whose key repeats an earlier grouped tab's key is queued. Pinned tabs are not exempt from duplicate cleaning. |
| Rerun.KeptIndices | chrome-duplicate-window-cleaner/popup.js:199-207 | The positions of the tabs left open are strictly increasing. A position is kept exactly when its tab's id was not closed. |
| Rerun.Remaining | chrome-duplicate-window-cleaner/popup.js:199-207 | The window after the closing is the kept tabs, in their window order. |
| Rerun.RemainingTabs | chrome-duplicate-window-cleaner/popup.js:199-207 | A tab remains exactly when it was in the window and its id was not closed. The remaining tabs still have distinct ids. |
| Rerun.FirstWithKey | chrome-duplicate-window-cleaner/popup.js:188-193 | Every grouped tab has, at or before it, a tab with its key that the walk keeps. |
| Rerun.QueuedMeansLaterDuplicate | chrome-duplicate-window-cleaner/popup.js:173-197 | An id is queued exactly when some tab with that id is a later duplicate. |
| Rerun.RequeuedWasRefused | chrome-duplicate-window-cleaner/popup.js:199-207 | A duplicate that a second clean finds was queued by the first clean, and its closing was refused. |
| Rerun.RefusedIsRequeued | chrome-duplicate-window-cleaner/popup.js:199-207 | A queued duplicate whose closing was refused is found again by the second clean, because the tab kept for its key is never closed. |
| Rerun.SecondRunQueuesRefused | chrome-duplicate-window-cleaner/popup.js:165-216 | Clean the window left after the first clean's closings (`CleanWindowTabs`' `removed`). The second clean queues exactly the ids the first queued and the browser refused. |
| Rerun.SecondRunFindsNothing | chrome-duplicate-window-cleaner/popup.js:165-216 | When every closing succeeds, a second clean of the window queues nothing: cleaning is idempotent. |
| DedupProperties.ThreeTabWindow | chrome-extension-release/popup.js:97-102 | Three participating tabs where only the first two share a key: only the second is queued. |
| DedupProperties.FragmentScenario | chrome-extension-release/popup.js:93-102 | For the window `https://x.com/p?q=1#frag1`, `https://x.com/p?q=1#frag2`, `https://y.com/`, exactly the second tab is queued. |
| Staleness.StaleIndices | chrome-duplicate-window-cleaner/popup.js:50-74 | The selected positions are in range and strictly increasing, so they follow enumeration order. A position is selected exactly when its tab passes the staleness test: not pinned, not audible, not internal, a truthy entry, and more than seven days old. |
| Staleness.StaleIdsWellFormed | chrome-duplicate-window-cleaner/popup.js:50-74 | The queued list (the ids at the selected positions) holds an id exactly when some tab with that id passes the staleness test. It is never longer than the tab list, and it repeats no id when the browser's ids are distinct. |
| Staleness.SelectStaleTabs | chrome-duplicate-window-cleaner/popup.js:50-74 | The loop, with its early `continue`s and its truthiness test on the entry, pushes exactly the ids at the stale positions, in enumeration order. |
| Staleness.CleanOldTabs | chrome-duplicate-window-cleaner/popup.js:31-97 | The queued list is exactly the ids at the stale positions, in enumeration order. The "closed n" message, the clean-time save and the popup close happen exactly when n > 0. Closing skips refused tabs. |
| Staleness.NoEntryNeverClosed | chrome-duplicate-window-cleaner/popup.js:67-68 | A tab with a missing entry, or an entry equal to 0, is never closed, however old. |
| Staleness.ExemptNeverClosed | chrome-duplicate-window-cleaner/popup.js:51-64 | Pinned tabs, audible tabs and internal pages are never closed. |
| Staleness.ExactlySevenDaysKept | chrome-duplicate-window-cleaner/popup.js:69-71 | A tab last seen exactly 604 800 000 ms ago is kept: the threshold is strict. |
| Staleness.StaleStaysStale | chrome-duplicate-window-cleaner/popup.js:66-73 | With the same table, a tab stale now is still stale at any later time. |
| Staleness.EightDaysScenario | chrome-duplicate-window-cleaner/popup.js:50-74 | A tab last seen eight days ago is closed. A tab with no entry is not. |
| RelativeTime.FormatRelativeTime | chrome-duplicate-window-cleaner/popup.js:292-316 | The bucket is chosen by the range of `now - timestamp`: < 1 min, < 1 h, < 1 day, < 7 days, else a date. The ranges are exclusive and cover every difference. The number shown is the floored quotient, at least 1 and below the next unit. |
| RelativeTime.OlderNeverLooksNewer | chrome-duplicate-window-cleaner/popup.js:294-307 | An older timestamp never falls in a more recent bucket. Within the minutes, hours or days bucket it never shows a smaller number. |
| DuplicateCleaning.NoneFoundIffEveryWindowClean | chrome-extension-release/popup.js:43-45 | The all-windows total is 0 exactly when no window holds a duplicate. |
| DuplicateCleaning.CleanEveryWindow | chrome-duplicate-window-cleaner/popup.js:124-128 | The totals are the sums of the per-window duplicate counts and closed counts. The two sums are equal. |
| DuplicateCleaning.CleanAndReport | chrome-duplicate-window-cleaner/popup.js:116-153 | Cleaning all windows gives the summed total and the all-windows message ("none" exactly when the total is 0). Cleaning the current window gives that window's count and message. The popup closes exactly when some tab was queued (`totalTabsClosed > 0`), whether or not its removal succeeded. |
| CleanerPopup.CleanTabs | chrome-duplicate-window-cleaner/popup.js:110-162 | The totals are the all-windows sums or the current window's count. The message is the all-windows one ("none" exactly when the total is 0) or the current window's own. The cleaner variant saves the clean time and closes the popup exactly when some tab was queued (`totalTabsClosed > 0`), whether or not its removal succeeded. |
| ReleasePopup.CleanTabs | chrome-extension-release/popup.js:23-71 | The totals and messages are as in the cleaner variant. "None in any window" is shown exactly when every window is free of duplicates. The release variant never saves a clean time, and closes the popup exactly when some tab was queued (`totalTabsClosed > 0`), whether or not its removal succeeded. |
| AccessTimes.Initialized | chrome-duplicate-window-cleaner/background.js:20-25 | Every enumerated tab gets an entry. Truthy entries keep their value. Tabs without a truthy entry get `now`. Entries of other tabs are untouched. |
| AccessTimes.InitializeIdempotent | chrome-duplicate-window-cleaner/background.js:20-25 | A second initialisation over the same tabs, at any time, leaves the first one's table unchanged. |
| AccessTimes.Swept | chrome-duplicate-window-cleaner/background.js:94-99 | After the sweep the keys are exactly the old keys of live tabs, and each keeps its value. |
| AccessTimes.SweptSize | chrome-duplicate-window-cleaner/background.js:93-99 | Entries kept plus entries of closed tabs equals the old table's size. |
| AccessTimes.SweepIdempotent | chrome-duplicate-window-cleaner/background.js:94-99 | After a sweep no key belongs to a closed tab, and a second sweep with the same tabs changes nothing. |
| AccessTimes.DropDeadEntries | chrome-duplicate-window-cleaner/background.js:93-99 | The key-by-key deletion loop yields the swept table. Its counter equals the number of keys of closed tabs. |
| AccessTimes.NothingGoneNothingSwept | chrome-duplicate-window-cleaner/background.js:101-104 | When no key belongs to a closed tab, the swept table is the stored one, so skipping the write loses nothing. |
| AccessTimes.AccessTimeTracker.constructor | chrome-duplicate-window-cleaner/background.js:87-88 | A missing stored table reads as empty. |
| AccessTimes.AccessTimeTracker.InitializeExistingTabs | chrome-duplicate-window-cleaner/background.js:13-32 | The new table is `Initialized(old table, tab ids, now)`, so every open tab has an entry. |
| AccessTimes.AccessTimeTracker.RecordTabAccessTime | chrome-duplicate-window-cleaner/background.js:61-70 | The tab's entry becomes `now` and no other entry changes. |
| AccessTimes.AccessTimeTracker.RemoveTabAccessTime | chrome-duplicate-window-cleaner/background.js:73-82 | The tab's entry is gone and no other entry changes. Removing an absent id leaves the table as it was. |
| AccessTimes.AccessTimeTracker.OnUpdated | chrome-duplicate-window-cleaner/background.js:47-52 | An access is recorded exactly when the update carries a non-empty URL. Otherwise the table is unchanged. |
| AccessTimes.AccessTimeTracker.Sweep | chrome-duplicate-window-cleaner/background.js:85-108 | The new table is the swept old one. `cleaned` is the number of keys of closed tabs. The table is written exactly when `cleaned > 0`. |

## Left out

- `chrome.*` calls are not modelled as calls. Their results become parameters:
  - `tabs.query` and `windows.getAll` / `getCurrent` become the tab sequences;
  - the refusals of `tabs.remove` become `failing`;
  - `storage.local` becomes the class field;
  - `Date.now()` becomes `now`.
- The lifecycle listeners `onInstalled`, `onCreated`, `onActivated` and `onRemoved` only call an
  initialiser, recorder or remover, which are modelled. Registering them is not.
- Asynchronous interleaving of the handlers is not modelled. Two read-modify-write handlers that
  overlap can lose an update in the browser. The model runs each handler to completion on its
  own.
- Tabs.Normalize: a simplified stand-in for WHATWG URL parsing.
  - It accepts every string that opens with a scheme. The browser's URL constructor also throws
    for some of those, such as `http://` (empty host), `https://a b/` (forbidden host
    character) and `https://x.com:99999/` (port out of range). The model gives them a key, so it
    can queue such a tab where the source passes it over. The URLs the browser reports for its
    tabs are already canonical, so such strings should not reach the popup.
  - The URL constructor first strips leading and trailing spaces and C0 control characters,
    and removes every ASCII tab and newline. So ` https://x.com/` and `ht\ttps://x.com/`
    parse in the source and are keyed and grouped there. The model gives them no key and
    passes such a tab over. Tab URLs reported by the browser are canonical, so such strings
    should not reach the popup either.
  - It does not lower-case the scheme or host, drop default ports or userinfo, resolve dot
    segments or percent-encode. So two URLs that the browser keys alike may get different keys
    here.
  - The source key is `origin + pathname + search`, and `search` is empty for an empty query.
    So `https://x.com/p?` and `https://x.com/p` share a key in the source, but the model keys
    them apart, because the `?` stays in its key.
  - It does not give opaque origins (`null` for `data:` and similar URLs). So `data:` URLs
    that share the origin `null` and a path are told apart here by their whole text.
- A tab without a `url` field is not modelled; here every tab has a URL. In the source,
  `tab.url.startsWith` throws. In duplicate cleaning the throw is caught inside
  `cleanWindowTabs`, so that window takes the error branch (left out, see the next line) and
  the other windows are still cleaned. In stale-tab cleaning it reaches the outer `catch`,
  and the whole clean fails.
- The error branch of `cleanWindowTabs` (chrome-duplicate-window-cleaner/popup.js:218-224) is
  not modelled. It returns no counts, and adding it to the totals gives `NaN`. The `catch`
  blocks of `cleanTabs`, `cleanOldTabs` and the background handlers only log or show text.
- Message text and DOM work are not modelled: `showResult`, button enabling, `textContent` and
  `window.close`. Messages become datatype constructors, and closing the popup a flag.
- `updateLastCleanTime` and `saveLastCleanTime` only read or write storage for display. Saving
  is the `savesCleanTime` flag.
- The date formatting of the last bucket of `formatRelativeTime` (`toLocaleDateString`) is not
  modelled. The model returns the timestamp instead.
- `setTimeout`, `setInterval` and `console` logging are not modelled.
- Storage keys are strings in the browser, and the sweep compares `parseInt(key)` with the open
  tab ids. The model keeps integer keys, for which that conversion is the identity.
- The order in which `for...in` visits the stored keys is not modelled. The sweep visits them in
  an arbitrary order, and its result does not depend on that order.
