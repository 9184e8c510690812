# MMM-CrisisInformationSweden, modelled in Dafny

MMM-CrisisInformationSweden is a MagicMirror² module that shows crisis messages
from Krisinformation.se. It has two halves:

- a back-end **helper** (`node_helper.js`). It starts polling the feed when it
  receives the first `CONFIG` notification. On each poll it keeps only the items
  aimed at the configured counties (`filterFeed`). It then sends either
  `NEW_FEED` with those items or `SERVICE_FAILURE` with a message;
- a front-end **display module** (`MMM-CrisisInformationSweden.js`). On each UI
  tick (`getDom`) it shows one item of the last feed and moves a cursor on. It
  skips back to the start when the cursor runs past the end or lands on a stale
  item. It records a new feed or a failure when a notification arrives.

The model is functional. Each piece of state is an immutable datatype and each
operation is a pure function:

- `feed.dfy`, module `Feed`: items, areas, the configuration and the
  notifications.
- `area_filter.dfy`, module `AreaFilter`: `filterFeed`, both as a function and
  as the original nested loops, with the laws it obeys.
- `helper.dfy`, module `Helper`: the failure messages of `getFeed`'s catch
  block, the notification each poll outcome produces, and the start-once guard.
- `rotator.dfy`, module `Rotator`: one `getDom` tick as a step function from a
  state to `(next state, frame)`, the display module's notification handler,
  and multi-tick runs.
- `pipeline.dfy`, module `Pipeline`: what a poll outcome does to the next tick.

Timestamps are integers (milliseconds) and `now` is a parameter of a tick. The
outcome of the network call is a parameter of a poll.

Facts about the code that the model keeps as they are:

- the filter selects by area only; there is no content filter;
- an empty feed renders nothing;
- when the item under a cursor at 0 is stale, `getDom` builds a "no messages
  younger than N days" element but never attaches it to the element it
  returns (MMM-CrisisInformationSweden.js:83-88). Such a tick shows nothing,
  and the `silent` setting, which only guards that element, has no effect;
- the failure banner is shown only once a feed has been loaded, because
  `getDom` returns early while loading;
- a failure carries only a message, never a status code;
- after a tick the cursor may equal the feed length. It is reset at the start
  of the next tick, so it is not always inside `0..length-1`.

The stale-item shortcut is reproduced as written. A stale item at a non-zero
cursor sends the cursor to 0 and shows item 0 in the same tick, without
checking item 0's age. `Rotator.StaleSecondItemRepeatsFirst` proves what
follows from this: with a stale item at position 1 and the cursor at 1, every
tick shows item 0 and the cursor returns to 1. So when every item is stale,
that state keeps a stale item on screen forever.

## Model

| member | source | states |
|---|---|---|
| AreaFilter.FilterFeed | node_helper.js:70-93 | With an undefined or empty allowlist the feed comes back unchanged. In every case the result is no longer than the feed and every item in it is admitted by the configuration. |
| AreaFilter.Select | node_helper.js:73-92 | The selection is no longer than its input, and every item in it passes the area rule. |
| AreaFilter.FilterFeedLoop | node_helper.js:70-93 | The original loops (the per-item `inc` flag, raised by any county in the allowlist or by the nation under `alwaysNational`) compute exactly the functional filter. |
| AreaFilter.SelectIsSubsequence | node_helper.js:73-92 | The selection is a subsequence of the input: same relative order, items only removed. |
| AreaFilter.FilterIsSubsequence | node_helper.js:72-92 | The filter's output is a subsequence of its input in original order, for every configuration. |
| AreaFilter.SelectCounts | node_helper.js:73-92 | Counted with multiplicity, each admitted item occurs as often in the selection as in the input, and every other item occurs 0 times. |
| AreaFilter.FilterCounts | node_helper.js:72-92 | Counted with multiplicity, the filter keeps every occurrence of an admitted item and drops every occurrence of any other item. |
| AreaFilter.FilterMembership | node_helper.js:72-92 | An item is in the output if and only if it is in the input and the configuration admits it. |
| AreaFilter.SelectIdempotent | node_helper.js:73-92 | Selecting again from a selection changes nothing. |
| AreaFilter.FilterIdempotent | node_helper.js:70-93 | Filtering twice with the same configuration gives the same result as filtering once. |
| AreaFilter.NoAreaAlwaysKept | node_helper.js:80 | An item whose areas are undefined, null or empty is always kept. |
| AreaFilter.RestrictedMembership | node_helper.js:82-88 | With a non-empty allowlist, an item with areas is kept if and only if one area is a listed County, or `alwaysNational` holds and one area is Country "Sverige". |
| AreaFilter.NationalOnlyItem | node_helper.js:87 | With a non-empty allowlist, an item aimed only at Country "Sverige" is kept if and only if `alwaysNational` is set, whatever counties are listed. |
| AreaFilter.DefaultConfigKeepsAll | MMM-CrisisInformationSweden.js:19-31 | Under the declared defaults, whose allowlist is empty, the filter returns every feed unchanged. |
| AreaFilter.StockholmScenario | node_helper.js:82-90 | With allowlist ["Stockholm"] and `alwaysNational`, a Stockholm item and a national item are kept and an Uppsala item is dropped. |
| Helper.HttpErrorMessage | node_helper.js:46-48 | The error thrown for a non-2xx status has a message that starts with "HTTP error!". |
| Helper.HttpErrorMessageInjective | node_helper.js:47 | Different HTTP statuses give different messages, so the message identifies the status. |
| Helper.FailureMessage | node_helper.js:55-66 | An abort gives "Request timed out". Any other error gives its own message when that is defined and non-empty, and "Unknown error" otherwise. The result is never empty. |
| Helper.GetFeed | node_helper.js:40-66 | A poll yields `NEW_FEED` exactly when the status is 2xx and the body parses, and then it carries the filtered items. A non-2xx status yields the HTTP error message. A 2xx response whose body does not parse, and a rejected fetch, yield the classified message of the thrown error. |
| Helper.Status503Message | node_helper.js:46-61 | An HTTP 503 answer becomes `SERVICE_FAILURE` with message "HTTP error! status: 503". |
| Helper.Receive | node_helper.js:96-104 | Polling starts if and only if the notification is `CONFIG` and the helper has not started. Starting stores the configuration. Anything else leaves the state unchanged. |
| Helper.StartedIsFixed | node_helper.js:98-103 | Once started, no sequence of notifications changes the helper or starts polling again. |
| Helper.FirstConfigWins | node_helper.js:96-104 | From the state `start` leaves, polling starts at most once. It starts exactly when some `CONFIG` arrives, and the stored configuration is that of the first `CONFIG`. |
| Rotator.Tick | MMM-CrisisInformationSweden.js:57-159 | Before loading, the tick shows the loading text, no banner, and leaves the state alone. With an empty feed it shows nothing and sets the cursor to 0. Otherwise the cursor ends in `0..length`. Only the cursor changes. A shown position is valid and the cursor ends just past it. Any shown position other than 0 is the cursor's own and holds a fresh item. No item is shown only when the bounds-reset cursor is 0 and item 0 is stale. |
| Rotator.Receive | MMM-CrisisInformationSweden.js:167-180 | `NEW_FEED` sets loaded, clears the failure, replaces the feed and keeps the cursor. `SERVICE_FAILURE` records the failure and changes nothing else. Other notifications change nothing. |
| Rotator.BoundsReset | MMM-CrisisInformationSweden.js:68 | Once loaded, a cursor at or past the end of the feed gives the same tick as a cursor at 0. |
| Rotator.StaleAtStartShowsNothing | MMM-CrisisInformationSweden.js:72-88 | A stale item under a cursor at 0 leaves the screen without an item (the "no messages younger than" element is built but never attached) and leaves the cursor at 0. |
| Rotator.SilentHasNoEffect | MMM-CrisisInformationSweden.js:82-88 | Every tick is the same whether `silent` is set or not, because the only element it guards is never attached. |
| Rotator.StaleElsewhereShowsFirst | MMM-CrisisInformationSweden.js:77-90 | A stale item under a cursor past 0 shows item 0 without checking its age, and leaves the cursor at 1. |
| Rotator.FreshAdvances | MMM-CrisisInformationSweden.js:68-147 | A fresh item under the bounds-reset cursor is shown, and the cursor moves one past it. |
| Rotator.RotationInOrder | MMM-CrisisInformationSweden.js:68-147 | With every item fresh and the cursor at most the length, tick k shows position (cursor + k) mod length. |
| Rotator.FullPassVisitsEachOnce | MMM-CrisisInformationSweden.js:68-147 | With every item fresh and the cursor at 0, N ticks over an N-item feed show positions 0 to N-1 once each, in order, and leave the cursor at N. |
| Rotator.StaleFirstItemHoldsBlank | MMM-CrisisInformationSweden.js:77-88 | With the cursor at 0 and item 0 stale, every tick shows no item (only the banner, if any) and the state never changes. |
| Rotator.InitialShowsLoading | MMM-CrisisInformationSweden.js:39-65 | From the state `start` leaves, and until a notification arrives, every tick shows the loading text with no banner and the state never changes. |
| Rotator.StaleSecondItemRepeatsFirst | MMM-CrisisInformationSweden.js:77-90 | With the cursor at 1 and item 1 stale, every tick shows item 0 (stale or not) and the state never changes. |
| Rotator.FailureKeepsRotation | MMM-CrisisInformationSweden.js:175-178 | A `SERVICE_FAILURE` before a tick changes neither the content shown nor the cursor. Only the recorded failure differs. |
| Rotator.BannerIffLoadedAndFailed | MMM-CrisisInformationSweden.js:61-157 | A tick shows the failure banner if and only if a feed has been loaded and a failure is recorded. |
| Rotator.NewFeedClearsBanner | MMM-CrisisInformationSweden.js:168-173 | The tick after a `NEW_FEED` shows no banner and not the loading text. |
| Pipeline.FailedPollKeepsRotation | MMM-CrisisInformationSweden.js:175-178 | A poll that does not end in a parsed 2xx response keeps the feed, the next tick's content and its cursor unchanged. |
| Pipeline.ShownItemPassedFilter | node_helper.js:50-54 | After a successful poll the display is loaded with no failure, and any item it shows is one of the polled items that the area filter admits. |

## Left out

- The network call, `AbortController`, the 5-second timer and `response.json()` (node_helper.js:40-54): their outcome is the `Helper.FetchOutcome` parameter of a poll.
- The `setInterval` timers of `scheduleUpdate` and `start`: each poll and each UI tick is one call of the model's functions, and time is the `now` parameter.
- Overlapping polls: the poll timer fires regardless of a poll still in flight, and the code has no guard against that. Each poll is modelled as one call, so interleaving is not modelled.
- The `updateDom()` calls after a notification: the host schedules a re-render. The lemmas that compose `Rotator.Receive` with `Rotator.Tick` describe that re-render.
- DOM construction, CSS, message text, `showDescription`, the debug output and `moment(...).fromNow()` formatting: these are UI only. A frame records what is shown, not how.
- Logging and the `CIS_LOG` notification: both receivers ignore `LogMsg`.
- The failure banner's text. Failure payloads carry a lowercase `message` (node_helper.js:58-64), but the banner reads `StatusCode` and `Message` (MMM-CrisisInformationSweden.js:154). The banner therefore prints undefined fields. The model records only which payload the banner shows.
- JavaScript loose typing: `Type` and `Description` are strings, compared with string equality. Loose equality against non-string values, a non-array `areas` setting, and `started` being undefined before `start` runs are not modelled.
- Unparsable timestamps. `moment` would give NaN ages, and every comparison would then be false, so such an item is never stale. The model's timestamps are always integers.
- Helper.FailureMessage: a message that is not a string would make `startsWith` throw; this is not modelled.
- Rotator.Tick: `oldest` is an integer number of days; fractional settings are not modelled.
- Content-exclusion filtering: the code has none.
