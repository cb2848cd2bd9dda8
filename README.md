# djs-breakpoints in Dafny

A verified model of `djs.breakpoints`. This is a jQuery singleton that tracks which responsive breakpoint the window width falls in. On each resize it runs the callbacks registered for every breakpoint the width passed through, in the direction it moved ("up" or "down").

There are two versions of the tracker:

- **dist/djs-breakpoints.js** is the newer build, modelled by `DistBreakpoints.Tracker`. Its `init` keeps the current table when given none, and it adds the `up`, `down`, `max` and `min` shortcuts.
- **src/djs-breakpoints.js** is the older source, modelled by `SrcBreakpoints.Tracker`. Its `init` always stores its argument, so calling it with no table leaves no breakpoints.

Both classes keep the tracker's four fields:

- `values`: the threshold table, in definition order.
- `actualWidth`: the last width seen.
- `actualPoint`: the active breakpoint. `None` stands for JavaScript `null`.
- `callbacks`: the callback registry.

The logic the two versions share lives in four modules:

- `Thresholds`:
  - the table;
  - the direction of a resize and the points it crosses (`Direction`, `Crossed`);
  - the active point (`PointFor`);
  - the two loops of `_run` and `_setPoint` (`ScanPassed`, `ScanPoint`), each proved equal to its specification function.
- `Registry`:
  - the registry as a map from (point, direction) to tag buckets in insertion order;
  - its updates (`Added`, `Removed`);
  - the dispatch order (`Fired`) and the dispatch loop (`Dispatch`).
- `Queries`:
  - JavaScript's `String.prototype.split` on one character, `trim` and `Array.prototype.join`;
  - the piece test behind `is` (`Listed`);
  - the slices `to` and `from` collect (`NamesTo`, `NamesFrom`).
- `Wrappers`: `Option`.

Other modelling choices:

- The window width is a parameter of `Init` and `Run`. Each source file measures it from the browser window in its own way.
- Callbacks are opaque ids. `Run` returns the calls it would make, in calling order. Each call is paired with the active point the callback would read through `current()`. That point is the one for the new width, because `_run` updates the width and the point before it runs any callback.
- `return false` ends a jQuery `$.each`, so `to(v)` stops right after the first `v`. It returns every name only when `v` is not a name.
- The active point is the last entry in definition order whose threshold is at most the width. `PointForAscending` shows that on an ascending table this is the largest threshold ≤ width.

## Model

| member | source | states |
|---|---|---|
| Thresholds.Direction | dist/djs-breakpoints.js:163 | The direction is "down" exactly when the new width is strictly below the old one, and "up" exactly otherwise, so an equal width counts as up |
| Thresholds.BetweenCounts | dist/djs-breakpoints.js:167-176 | Each entry in (lo, hi] is kept as often as it occurs in the table, and no other entry is kept; with the subsequence order this fixes the result even when entries repeat |
| Thresholds.BetweenFacts | dist/djs-breakpoints.js:167-176 | The entries kept are exactly those with lo < value <= hi, and they appear in the table's order |
| Thresholds.Collect | src/djs-breakpoints.js:198-205 | One `$.each` pass collects, in definition order, exactly the names of the entries with lo < value <= hi |
| Thresholds.Reverse | dist/djs-breakpoints.js:175 | `points.reverse()`: the same length, with element i taken from position n-1-i |
| Thresholds.Crossed | dist/djs-breakpoints.js:166-176 | The points collection of `_run`: the names with old < value <= w in definition order when growing, and those with w < value <= old in reverse order when shrinking; its meaning is proved in the rows below |
| Thresholds.CrossedGrowing | dist/djs-breakpoints.js:167-170 | Going up, a name is crossed iff some entry with that name has old < value <= w; the crossed names keep definition order |
| Thresholds.CrossedShrinking | dist/djs-breakpoints.js:171-176 | Going down, a name is crossed iff some entry with that name has w < value <= old; the crossed names are in reverse definition order |
| Thresholds.CrossedSameWidth | dist/djs-breakpoints.js:163-170 | A call with an unchanged width counts as up and crosses nothing |
| Thresholds.CrossedOrder | src/djs-breakpoints.js:198-207 | On an ascending table, crossed points come in ascending thresholds going up and descending thresholds going down |
| Thresholds.ScanPassed | src/djs-breakpoints.js:194-207 | The two `$.each` loops and the reversal compute exactly Direction and Crossed of the old width and the new one |
| Thresholds.LastIndexAtMost | dist/djs-breakpoints.js:289-292 | The index found is the last one whose threshold is at most the width, or -1 when no threshold is |
| Thresholds.PointFor | dist/djs-breakpoints.js:282-298 | The active point is null exactly when the table is empty; otherwise it is one of the table's names |
| Thresholds.PointForLast | dist/djs-breakpoints.js:289-292 | When entry k is the last whose threshold is at most the width, the active point is its name |
| Thresholds.PointForFallback | dist/djs-breakpoints.js:294-295 | When every threshold exceeds the width, the active point is the first name |
| Thresholds.PointBelowLowest | dist/djs-breakpoints.js:282-298 | When k is the first entry above the width and all earlier ones are not, the active point is entry k-1, or the first entry when k is 0 |
| Thresholds.PointForAscending | src/djs-breakpoints.js:297-304 | On an ascending table, the active point is the entry k with t[k] <= w < t[k+1] |
| Thresholds.ScanPoint | src/djs-breakpoints.js:291-307 | The `_setPoint` loop, with its `first` and `point` variables, yields exactly PointFor of the table and width |
| Thresholds.GrowingLandsOnLastCrossed | dist/djs-breakpoints.js:167-182 | After growing past at least one point on an ascending table, the new active point is the last point crossed |
| Thresholds.ShrinkingLandsBelowLastCrossed | dist/djs-breakpoints.js:171-182 | After shrinking past points on an ascending table, the last point crossed is the lowest one, and the new active point is the entry just below it (the first entry if there is none) |
| Registry.TagOrDefault | dist/djs-breakpoints.js:219 | A missing tag becomes the default tag "__"; a given tag is kept |
| Registry.FindTag | src/djs-breakpoints.js:255 | The index found is that of the first bucket with the tag, or -1 when no bucket has it |
| Registry.Added | src/djs-breakpoints.js:247-261 | Adding creates the (point, direction) path if missing, appends the callback to the tag's list and leaves every other path unchanged |
| Registry.AddedWellFormed | src/djs-breakpoints.js:253-258 | After an add, every path still holds each tag at most once |
| Registry.AddedBucket | dist/djs-breakpoints.js:216-230 | After an add, the (point, direction, tag) list gains the callback at its end, and every other list is unchanged |
| Registry.AddedTagOrder | dist/djs-breakpoints.js:223-226 | A new tag is appended after the existing tags; an existing tag keeps its place |
| Registry.AddedFires | dist/djs-breakpoints.js:185-203 | After an add, crossing that point in that direction fires one more copy of the callback; for a new tag it fires last |
| Registry.Removed | src/djs-breakpoints.js:270-284 | A remove deletes only that tag's bucket, and a missing path leaves the registry unchanged |
| Registry.RemovedWellFormed | src/djs-breakpoints.js:270-284 | After a remove, every path still holds each tag at most once, and the removed tag has no bucket |
| Registry.RemovedBucket | dist/djs-breakpoints.js:261-275 | After a remove, the (point, direction, tag) list is empty and every other list is unchanged |
| Registry.RemovedTagOrder | dist/djs-breakpoints.js:261-275 | After a remove, the remaining tags under the path keep their insertion order: the old tag list with that one tag deleted |
| Registry.RemovedFires | dist/djs-breakpoints.js:185-203 | After a remove, the point fires exactly its former callbacks minus the removed tag's, counted as a multiset; in order, it fires the buckets before the removed one, then those after it |
| Registry.RemoveUndoesAdd | dist/djs-breakpoints.js:216-275 | Removing a tag that an add had just created restores every (point, direction) path |
| Registry.FireList | dist/djs-breakpoints.js:194-202 | What one crossed point fires in one direction: every bucket in insertion order and every callback in list order, nothing for a missing path |
| Registry.Fired | dist/djs-breakpoints.js:185-203 | What a dispatch over the crossed points fires: FireList of each point, point by point; FiredAppend and FiredMembers state its meaning |
| Registry.Calls | dist/djs-breakpoints.js:178-203 | A dispatch's calls, each paired with the point the callback observes: the same callbacks in the same order, all seeing one point |
| Registry.FiredAppend | src/djs-breakpoints.js:216-234 | Dispatching a list of points fires the first part's callbacks, then the rest's |
| Registry.FiredMembers | dist/djs-breakpoints.js:185-203 | A callback fires iff it sits in some bucket under (crossed point, direction); missing paths fire nothing |
| Registry.FirePoint | src/djs-breakpoints.js:228-233 | The `$.each` over a point's tag buckets and the inner `for` fire every bucket in insertion order and every callback in list order, exactly Flatten of the buckets, each call seeing the given point |
| Registry.Dispatch | src/djs-breakpoints.js:216-234 | The nested loops fire, point by point, every tag bucket in insertion order and every callback in list order, skipping missing paths; the calls are exactly Fired, each seeing the given point |
| Queries.Trim | src/djs-breakpoints.js:324 | `trim` returns a piece no longer than its input that neither starts nor ends with ECMAScript white space |
| Queries.TrimKeepsInnerRun | src/djs-breakpoints.js:324 | The trimmed piece is a run of the input with nothing but white space before and after it; with Trim's contract this fixes the result |
| Queries.Split | src/djs-breakpoints.js:320 | `split` on one character gives at least one piece, and no piece contains the separator |
| Queries.Join | dist/djs-breakpoints.js:359 | `out.join(', ')`: the names with the separator between consecutive ones; JoinSplit and SplitJoin state its meaning |
| Queries.JoinSplit | dist/djs-breakpoints.js:311 | Joining the pieces of a split with the same separator gives the original string back |
| Queries.SplitJoin | src/djs-breakpoints.js:320 | Splitting a join of separator-free pieces gives the pieces back |
| Queries.SplitJoinedNames | dist/djs-breakpoints.js:330 | Splitting a ", "-joined list on ',' gives each name once, preceded by one space after the first |
| Queries.Listed | src/djs-breakpoints.js:323-328 | The `is` loop returns true iff some trimmed piece equals the point |
| Queries.ListedJoin | dist/djs-breakpoints.js:327-342 | When names contain no comma and no outer spaces, a point is listed in their ", " join iff it is one of them (or the join is empty and the point is "") |
| Queries.FirstIndex | src/djs-breakpoints.js:339-343 | The index of the first `v` among the names, or their count when `v` is absent |
| Queries.NamesTo | src/djs-breakpoints.js:339-343 | `to`'s loop collects a prefix that ends at the first `v` and does not contain `v` earlier; if `v` is absent, it collects every name |
| Queries.NamesFrom | src/djs-breakpoints.js:357-362 | `from`'s loop collects a suffix that starts at the first `v`, with no earlier `v` before it; if `v` is absent, the result is empty |
| Queries.SlicesMeetAtFirst | dist/djs-breakpoints.js:349-379 | When `v` is a name, `to(v)` and `from(v)` overlap only at `v` and together give back all the names |
| Queries.SlicesAt | src/djs-breakpoints.js:336-366 | When the first occurrence of `v` is at k, `to(v)` is names[..k+1] and `from(v)` is names[k..] |
| Queries.SlicesEverywhere | dist/djs-breakpoints.js:349-379 | For every name, `to` and `from` are the slices through and from its first occurrence |
| DistBreakpoints.MaxOfState | dist/djs-breakpoints.js:327-331 | For a tracker state with plain names and a point among them, `is(to(v))` holds iff the point lies in the prefix through the first `v` |
| DistBreakpoints.MinOfState | dist/djs-breakpoints.js:338-342 | For a tracker state with plain names and a point among them, `is(from(v))` holds iff the point lies in the suffix from the first `v` |
| DistBreakpoints.MaxMeaning | dist/djs-breakpoints.js:327-331 | `is(to(v))` holds iff the active point comes no later than the first `v`, or `v` is absent |
| DistBreakpoints.MinMeaning | dist/djs-breakpoints.js:338-342 | `is(from(v))` holds iff the active point comes no earlier than the first `v`, and it is false when `v` is absent |
| DistBreakpoints.GrowingExample | test/simple.js:36-41 | On the table the test initialises with, widths 500 and 700 select "xs" and "sm", and a resize between them crosses exactly "sm" |
| DistBreakpoints.ShrinkingExample | test/simple.js:36-41 | On the table the test initialises with, a resize from 1300 to 500 crosses "lg", "md", "sm" in that order |
| DistBreakpoints.QueryExample | dist/djs-breakpoints.js:349-379 | On the shipped table, `to('md')` lists xs, sm, md and `from('sm')` lists sm, md, lg |
| DistBreakpoints.StateTestExample | test/simple.js:56-61 | On the test's table at a width of 500, `is(to('sm'))` holds and `is(from('md'))` does not |
| DistBreakpoints.Tracker.constructor | dist/djs-breakpoints.js:27-82 | The tracker starts with the default table, width 0, no point and an empty registry |
| DistBreakpoints.Tracker.Init | dist/djs-breakpoints.js:90-107 | A given table replaces the current one and a missing one keeps it; the width is stored and the active point recomputed; the registry is kept |
| DistBreakpoints.Tracker.Destroy | dist/djs-breakpoints.js:113-119 | Unbinding changes no tracker state |
| DistBreakpoints.Tracker.Run | dist/djs-breakpoints.js:157-206 | The width becomes w and the point matches it; the calls are every callback of every crossed point, for the resize's direction, in order, each seeing the point for the new width; table and registry unchanged |
| DistBreakpoints.Tracker.SetPoint | dist/djs-breakpoints.js:282-301 | The stored point is PointFor of the table and current width, and nothing else changes |
| DistBreakpoints.Tracker.Add | dist/djs-breakpoints.js:216-230 | The registry becomes Added with the tag defaulted to "__"; the registry stays well formed |
| DistBreakpoints.Tracker.Up | dist/djs-breakpoints.js:239-241 | `add` with the direction "up" |
| DistBreakpoints.Tracker.Down | dist/djs-breakpoints.js:250-252 | `add` with the direction "down" |
| DistBreakpoints.Tracker.Remove | dist/djs-breakpoints.js:261-275 | The registry becomes Removed; the tracker is returned exactly when the bucket existed, and undefined otherwise |
| DistBreakpoints.Tracker.Is | dist/djs-breakpoints.js:308-320 | True iff a point is active and some trimmed comma-separated piece of the argument equals it |
| DistBreakpoints.Tracker.Max | dist/djs-breakpoints.js:327-331 | With plain names, true iff the active point lies in the prefix through the first `v` (all names if `v` is absent) |
| DistBreakpoints.Tracker.Min | dist/djs-breakpoints.js:338-342 | With plain names, true iff the active point lies in the suffix from the first `v` (false if `v` is absent) |
| DistBreakpoints.Tracker.To | dist/djs-breakpoints.js:349-360 | The ", " join of the names through the first `v`, or of all names if `v` is absent |
| DistBreakpoints.Tracker.From | dist/djs-breakpoints.js:367-379 | The ", " join of the names from the first `v` on, or "" if `v` is absent |
| DistBreakpoints.Tracker.Current | dist/djs-breakpoints.js:385-387 | The active point, which is one of the names and, once settled, the point for the current width |
| SrcBreakpoints.Tracker.constructor | src/djs-breakpoints.js:26-109 | The tracker starts with the default table, width 0, no point and an empty registry |
| SrcBreakpoints.Tracker.Init | src/djs-breakpoints.js:117-138 | The argument always replaces the table, and a missing one leaves it empty with no active point; the width is stored and the point recomputed |
| SrcBreakpoints.Tracker.Destroy | src/djs-breakpoints.js:144-150 | Unbinding changes no tracker state |
| SrcBreakpoints.Tracker.Run | src/djs-breakpoints.js:188-237 | The width becomes w and the point matches it; the calls are every callback of every crossed point, for the resize's direction, in order, each seeing the point for the new width; table and registry unchanged |
| SrcBreakpoints.Tracker.SetPoint | src/djs-breakpoints.js:291-310 | The stored point is PointFor of the table and current width, and nothing else changes |
| SrcBreakpoints.Tracker.Add | src/djs-breakpoints.js:247-261 | The registry becomes Added with the tag defaulted to "__"; the registry stays well formed |
| SrcBreakpoints.Tracker.Remove | src/djs-breakpoints.js:270-284 | The registry becomes Removed; the tracker is returned exactly when the bucket existed, and undefined otherwise |
| SrcBreakpoints.Tracker.Is | src/djs-breakpoints.js:317-329 | True iff a point is active and some trimmed comma-separated piece of the argument equals it |
| SrcBreakpoints.Tracker.To | src/djs-breakpoints.js:336-347 | The ", " join of the names through the first `v`, or of all names if `v` is absent |
| SrcBreakpoints.Tracker.From | src/djs-breakpoints.js:354-366 | The ", " join of the names from the first `v` on, or "" if `v` is absent |
| SrcBreakpoints.Tracker.Current | src/djs-breakpoints.js:372-374 | The active point, which is one of the names and, once settled, the point for the current width |

## Left out

- Window width measurement is browser I/O, so it becomes the `width`/`w` parameter. In src this is `_getScrollBarWidth`, `_bodyHasScrollbar` and `_getWindowWidth`, plus the cached jQuery elements. In dist it is `djs.tools.ui.getWindowWidth`.
- `_bind` and `_unbind` register with the `djs.resize` event library, which is not part of this model. `Destroy` therefore changes no state, and `Run` stands for one resize event.
- Callback bodies are opaque ids. A callback that calls `add` or `remove` while dispatch is running is not modelled.
- Debug `console.log` output is left out.
- JavaScript objects list integer-like keys first, in numeric order. The table and the tag buckets here are kept in plain definition/insertion order. A breakpoint or tag named like "10" would therefore be visited in a different order by the source.
- Keys inherited from `Object.prototype` are not modelled: a breakpoint, direction or tag named "constructor" would look present to the source's truthiness tests.
- A table with a key named "length" makes jQuery treat it as an array. This is not modelled either.
- The registry's point → direction → tag nesting is flattened to a (point, direction) key. `add` always creates both levels together and `remove` never deletes them, so the source's two presence tests agree with the model's one key test.
- Thresholds are unbounded integers. The source compares JavaScript numbers, and non-integer or non-numeric thresholds are not modelled.
- `chained` stands for the two return values of `remove`: `true` for the tracker and `false` for `undefined`. The other chainable methods return the tracker, which the model does not represent.
- SrcBreakpoints.Tracker.Init: assumes jQuery 3 or later, whose `$.each` visits nothing over `undefined`. Under jQuery 1.x and 2.x, `init()` with no table throws in `_setPoint` (src/djs-breakpoints.js:298) after storing `_values` and the width, and never binds; the model does not capture that failure.
- DistBreakpoints.Tracker.Max: the contract assumes names without commas or outer spaces. `is(to(v))` re-splits the joined names, so other names can match pieces in ways the contract does not state.
- DistBreakpoints.Tracker.Min: the same assumption as `Max`, for the same reason.
