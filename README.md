# BookReader core logic in Dafny

This project models the sequential logic inside the Internet Archive
BookReader viewer (`src/js/BookReader.js`), with the DOM, jQuery and timing
code taken away, and proves what that logic promises.

- **Reduction factors** (`reduction.dfy`, module `Reduction`):
  - `quantizeReduce` picks the first nearest factor;
  - `nextReduce` steps the zoom in or out, or picks an autofit factor;
  - the thumbnail reducer is rounded to an even number;
  - `_getPageURI` and `_getPageURISrcset` choose power-of-two scales and
    `srcset` density descriptors (WHATWG HTML, section 4.8.4.2).
- **Thumbnail grid** (`thumbs.dfy`, module `ThumbnailLayout`), the layout of
  `drawLeafsThumbnail`:
  - greedy row packing;
  - the three-way visibility test;
  - the asymmetric row buffer;
  - the build / tear-down diff against the displayed rows;
  - moving the current page into the visible range;
  - `getThumbnailWidth`.
- **Viewer state machine** (`viewer.dfy`, module `Viewer`): a class
  `BookReader` with fields for:
  - the mode and the reading mode to return to;
  - the first index and the global fragment-change suppression;
  - the reduce and the thumbnail state;
  - the two-page container cache;
  - the trace of triggered event names.

  Its methods are:
  - `switchMode`, `updateFirstIndex`, `zoomThumb`;
  - `jumpToIndex` (dispatch), `jumpToPage`;
  - the thumbnail redraw;
  - `pruneUnusedImgs` and `prefetchImg`.

  Its functions are `canSwitchToMode`, `getInitialMode`, `getPrevReadMode`,
  `currentIndex`, the displayable range and the navigation commands.
- **URL fragment** (`fragment.dfy`, module `Fragment`):
  - `paramsFromFragment` (a loop filling the key/value hash);
  - `fragmentFromParams`, with the write-then-read round trip;
  - `extendParams`;
  - the source precedence of `initParams`.
- **Shared pieces** (`js.dfy`, `book.dfy`):
  - JavaScript's `undefined`-or-value and throw-or-value;
  - `Math.round`, truncation and clamping;
  - the book as the viewer queries it. The book model itself is not part of
    this model: page side, size, viewability and unviewable runs are
    functions supplied as data.

The emitted events are modelled as a trace of event names (`stop`,
`fragmentChange`, `pageChanged`, `<mode>PageViewSelected`). JavaScript
numbers used as reduces are exact `real`s; pixel positions and page indices
are `int`s.

## Model

| member | source | states |
|---|---|---|
| Reduction.QuantizeReduce | src/js/BookReader.js:1107-1119 | the result is the reduce of a factor at minimal distance from the requested reduce, and no earlier factor is as near (ties go to the earlier factor) |
| Reduction.FirstNearestUnique | src/js/BookReader.js:1107-1119 | the first-nearest position is unique, so the quantized value is determined |
| Reduction.QuantizeTieGoesToSmaller | src/js/BookReader.js:1111-1116 | on a sorted list, a tie between two equally near factors goes to the smaller reduce |
| Reduction.NextReduce | src/js/BookReader.js:1127-1169 | the result is absent only for an empty list; otherwise it is the factor at the unique position the selection rule for the direction picks |
| Reduction.FindTagged | src/js/BookReader.js:1150-1151 | the first factor with the tag, or none has it |
| Reduction.SelectedUnique | src/js/BookReader.js:1127-1169 | the selection rule picks at most one position |
| Reduction.InPicksClosestFiner | src/js/BookReader.js:1130-1137 | zooming in on a sorted list gives the largest reduce below the current one, or the first factor when there is none |
| Reduction.OutPicksClosestCoarser | src/js/BookReader.js:1138-1147 | zooming out on a sorted list gives the smallest reduce above the current one, or the last factor when there is none |
| Reduction.ZoomInSteps | src/js/BookReader.js:1130-1137 | from a factor's own reduce on a strictly sorted list, zooming in moves exactly one position down |
| Reduction.ZoomOutSteps | src/js/BookReader.js:1138-1147 | from a factor's own reduce on a strictly sorted list, zooming out moves exactly one position up |
| Reduction.ThumbReduce | src/js/BookReader.js:905-907 | the thumbnail reducer is even, and it is the floored ratio or one more |
| Reduction.EvenRoundingStep | src/js/BookReader.js:906 | `2 * Math.round(n / 2)` keeps an even n and raises an odd n by one |
| Reduction.PowerOfTwoScale | src/js/BookReader.js:2621-2641 | the scale is a power of two from 1 to 32, at most the ratio (or 1), and more than half the ratio (or 32) |
| Reduction.PageUri | src/js/BookReader.js:2616-2644 | a transparent image exactly for out-of-range indices; otherwise the page at the given reduce, or, without one, at the power-of-two scale of the default ratio |
| Reduction.PageUriSrcset | src/js/BookReader.js:2577-2605 | empty exactly when out of range or the ratio is below 2; the i-th candidate has density 2^(i+1); scale times density is constant; the last scale is 1 |
| ThumbnailLayout.RowHeight | src/js/BookReader.js:795-798 | a row is at least as tall as each of its thumbnails |
| ThumbnailLayout.RowHeightAttained | src/js/BookReader.js:795-798 | a row's height is 0 or one of its thumbnails' heights |
| ThumbnailLayout.RowHeightSnoc | src/js/BookReader.js:796-798 | adding a thumbnail raises the row height to the maximum of the two |
| ThumbnailLayout.PackGrid | src/js/BookReader.js:775-807 | the grid is empty exactly for no pages, and its last row is present and non-empty |
| ThumbnailLayout.PackGridPacked | src/js/BookReader.js:775-807 | the packing meets the grid invariant: the pages in order, each row packed and full, only row 0 a hole |
| ThumbnailLayout.GridHoles | src/js/BookReader.js:777-784 | a row is a hole exactly when it is row 0 and one cell is wider than the view |
| ThumbnailLayout.GridRowsPacked | src/js/BookReader.js:784-800 | every present row is packed: cells a step apart from 0, height the maximum of its thumbnails |
| ThumbnailLayout.GridRowsFull | src/js/BookReader.js:777-781 | every row but the last is full: one more cell would pass the view width |
| ThumbnailLayout.CellOffsets | src/js/BookReader.js:790-800 | the k-th cell of a row is at k times the cell step, and the row ends at its length times the step |
| ThumbnailLayout.PackGridNewRow | src/js/BookReader.js:777-793 | a page that does not fit the open row opens a new one (after a hole when it alone is too wide) |
| ThumbnailLayout.PackGridSameRow | src/js/BookReader.js:790-798 | a page that fits is appended to the open row, whose height grows to cover it |
| ThumbnailLayout.PackRows | src/js/BookReader.js:775-807 | the packing loop builds exactly the grid of the definition, and its bottom position uses each row's height at its first cell |
| ThumbnailLayout.InViewOverlap | src/js/BookReader.js:835-838 | for well-ordered extents the three-way test is interval overlap |
| ThumbnailLayout.VisibleRowsValid | src/js/BookReader.js:832-839 | the visible rows are present rows, in increasing order |
| ThumbnailLayout.VisibleRowsExactly | src/js/BookReader.js:832-849 | a row is visible exactly when it is present and its stacked extent passes the three-way test |
| ThumbnailLayout.PlacedRows | src/js/BookReader.js:847-848 | each row's top becomes its stacked top when that is lower |
| ThumbnailLayout.LeastFirst | src/js/BookReader.js:840-842 | the least visible index is at most each visible row's first page and at most its initial value |
| ThumbnailLayout.GreatestLast | src/js/BookReader.js:843-845 | the most visible index is at least each visible row's last page and at least 0 |
| ThumbnailLayout.LeastFirstAttained | src/js/BookReader.js:840-842 | the least visible index is the initial value or some visible row's first page |
| ThumbnailLayout.GreatestLastAttained | src/js/BookReader.js:843-845 | the most visible index is 0 or some visible row's last page |
| ThumbnailLayout.LocateRows | src/js/BookReader.js:822-849 | the visibility loop gives exactly the visible rows, the placed tops and the least and most visible indices |
| ThumbnailLayout.RowsAfterExactly | src/js/BookReader.js:855-857 | the rows after are lastRow+1 .. lastRow+buffer, inside the map |
| ThumbnailLayout.RowsBeforeExactly | src/js/BookReader.js:858-860 | the rows before are firstRow-1 .. firstRow-(buffer-1), not below 0 |
| ThumbnailLayout.NoRowsAround | src/js/BookReader.js:853-860 | with no visible row nothing is buffered |
| ThumbnailLayout.ToDisplayExactly | src/js/BookReader.js:852-861 | a row is displayed exactly when visible, among the buffer rows after, or among the one-fewer buffer rows before |
| ThumbnailLayout.ToDisplayInMap | src/js/BookReader.js:852-861 | the displayed rows are inside the map when the visible ones are |
| ThumbnailLayout.BufferRows | src/js/BookReader.js:852-861 | the buffering loops give exactly the displayed-rows definition |
| ThumbnailLayout.FreshPagesExactly | src/js/BookReader.js:864-867 | a page is built exactly when its row is to be displayed, was not displayed, and exists |
| ThumbnailLayout.FreshPagesSet | src/js/BookReader.js:864-902 | the built pages are the pages of the new rows minus the old ones |
| ThumbnailLayout.MaterializeRows | src/js/BookReader.js:864-902 | the build loop lists exactly the pages of the newly displayed rows, row by row, and places each container at the `CellLeft` of its cell's offset in the row |
| ThumbnailLayout.FreshLeafsNums | src/js/BookReader.js:864-867 | the cells the build loop visits carry exactly the pages it lists |
| ThumbnailLayout.TearDownAsWritten | src/js/BookReader.js:931-940 | the tear-down loop visits the displayed rows in order and throws exactly when some leaving row is not a present row of the map; otherwise it removes the pages of the leaving rows that were not just built |
| ThumbnailLayout.RemoveRow | src/js/BookReader.js:933-937 | the inner loop removes exactly the pages of the row that were not just built |
| ThumbnailLayout.TearDownHoleThrows | src/js/BookReader.js:931-940 | on a concrete grid and scroll, a row of the first draw leaves the display and is not present, so the tear-down as written throws |
| ThumbnailLayout.HoleExamplePacked | src/js/BookReader.js:777-781 | cells wider than the view leave row 0 a hole and put one page per row |
| ThumbnailLayout.ShownAfterDraw | src/js/BookReader.js:864-940 | when no page is in two rows, the pages shown after a draw are exactly the pages of the rows to display |
| ThumbnailLayout.FlattenUnique | src/js/BookReader.js:775-807 | a grid whose pages read in order without repeats has no page in two rows |
| ThumbnailLayout.PackGridUnique | src/js/BookReader.js:775-807 | packing pages without repeats puts no page in two rows |
| ThumbnailLayout.PackGridOrdered | src/js/BookReader.js:775-807 | packing increasing pages gives rows whose first page is at most their last |
| ThumbnailLayout.PackGridRowsNonEmpty | src/js/BookReader.js:784-790 | every present row of the packing has a cell |
| ThumbnailLayout.Retarget | src/js/BookReader.js:943-948 | the current page moves exactly when it is outside the visible range: up to the least visible page when below it, down to the most visible page when above it |
| ThumbnailLayout.VisibleSpan | src/js/BookReader.js:828-848 | with a visible row, the visible range is non-empty and the current page ends inside it |
| ThumbnailLayout.ThumbnailWidth | src/js/BookReader.js:1092-1099 | the width is positive: the truncated fit of the columns, or 100 when that is not positive |
| ThumbnailLayout.CellLeft | src/js/BookReader.js:871-876 | a right-to-left cell is the left-to-right one mirrored across the view |
| Fragment.Split | src/js/BookReader.js:2812 | splitting gives at least one piece and no piece holds the separator |
| Fragment.JoinSplit | src/js/BookReader.js:2812 | joining the pieces of a split gives the string back |
| Fragment.SplitJoin | src/js/BookReader.js:2812 | splitting a join of separator-free pieces gives the pieces back |
| Fragment.Digits | src/js/BookReader.js:2803 | the decimal text of a number matches the all-digits pattern |
| Fragment.DigitsValue | src/js/BookReader.js:2803 | reading back the decimal text gives the number |
| Fragment.HashKeys | src/js/BookReader.js:2814-2816 | the hash's keys are exactly the strings at even positions |
| Fragment.HashLastWins | src/js/BookReader.js:2814-2816 | a key's value comes from its last occurrence (undefined after a trailing key) |
| Fragment.HashSnocPair | src/js/BookReader.js:2814-2816 | appending a pair overrides that one key |
| Fragment.HashPrefix | src/js/BookReader.js:2814-2816 | the hash of the first n pieces does not depend on what follows |
| Fragment.ParamsFromFragment | src/js/BookReader.js:2793-2847 | the parsing loop gives exactly the parameters of the definition |
| Fragment.OldStyleIndex | src/js/BookReader.js:2796-2809 | an all-digit fragment, with or without '#', is only an index |
| Fragment.FragmentFromParams | src/js/BookReader.js:2861-2896 | writing throws exactly for a mode with no name; otherwise the page and search values are written through the encoder |
| Fragment.ModeNameRoundTrip | src/js/BookReader.js:2819-2825 | reading back a written mode name gives the mode |
| Fragment.FragmentRoundTrip | src/js/BookReader.js:2861-2896 | writing then reading (the reader at lines 2828-2838 copies the page undecoded) gives back the mode; the page comes back encoded (an index as the encoded `n<index>`), so a page string survives exactly when the encoder leaves it unchanged; the search term written in hash mode comes back when decoding undoes encoding on it; no index or theme comes back |
| Fragment.ExtendParams | src/js/BookReader.js:267-276 | the page is kept, the index is the new page's parsed index or the new index when given, else the old; mode, search and theme are overridden exactly when given |
| Fragment.ExtendNothing | src/js/BookReader.js:267-276 | extending with no parameters changes nothing |
| Fragment.InitIndexPrecedence | src/js/BookReader.js:299-350 | the start-up index is the URL's, else the resume value, else the defaults', else the title leaf's or 0 |
| Fragment.InitFlags | src/js/BookReader.js:288-350 | a page was found exactly when the defaults or the applied URL had one; the fragment changes exactly when the URL applied or the resume value moved the index |
| Viewer.IndexEvents | src/js/BookReader.js:1543-1555 | a page change is always announced, a fragment change exactly when neither suppression holds and the index moved |
| Js.Clamp | src/js/BookReader.js:1523 | the value when inside the bounds, the lower bound below them, the upper bound above them |
| Viewer.NextColumns | src/js/BookReader.js:1061-1083 | the new column count is in [2, 8]; -1 adds a column, 1 removes one, anything else keeps it |
| Viewer.ZoomRoundTrip | src/js/BookReader.js:1061-1083 | zooming out then in returns to the same count away from the upper bound |
| Viewer.BookReader.constructor | src/js/BookReader.js:110-160 | the initial state: no mode, no reading mode, reduce 8, thumbnail width 100, nothing displayed or cached; with the page scale and the cleared `initComplete` that the start of `init` (lines 441-442) sets |
| Viewer.BookReader.InitialMode | src/js/BookReader.js:413-434 | the chosen mode is always possible; the requested mode when possible, else one-page; without a request one-page on a narrow full-screen view and two-page otherwise (one-page for a book too short) |
| Viewer.BookReader.PrevReadMode | src/js/BookReader.js:1309-1316 | a reading mode is kept; from another mode, `undefined` exactly when a reading mode was already recorded, else one-page |
| Viewer.BookReader.SwitchMode | src/js/BookReader.js:1334-1384 | after init, a switch to the same or an impossible mode changes nothing; otherwise the reading mode, mode, reduce, thumbnail state and event trace are as the source sets them |
| Viewer.BookReader.SetUpView | src/js/BookReader.js:1351-1376 | the one-page view quantizes the page scale, the thumbnail view is prepared, the two-page view takes its calculated reduce |
| Viewer.BookReader.PrepareThumbnailView | src/js/BookReader.js:1505-1507 | the thumbnail width for the column count, the reduce it implies, and no rows displayed |
| Viewer.BookReader.ZoomThumb | src/js/BookReader.js:1061-1083 | the column count follows the clamp, and the view is re-prepared exactly when the count changed |
| Viewer.BookReader.CurrentIndex | src/js/BookReader.js:1517-1527 | throws exactly in an unknown mode; the first index in one-page and thumbnail views; in the two-page view the first index clamped to 0 .. the last page |
| Viewer.BookReader.UpdateFirstIndex | src/js/BookReader.js:1536-1557 | the first index is set, the events are appended, and the global suppression ends only with an initial search term and a real change |
| Viewer.BookReader.FirstDisplayableIndex | src/js/BookReader.js:2399-2419 | 0, or -1 exactly when page 0 is not on the leading side in the two-page view |
| Viewer.BookReader.LastDisplayableIndex | src/js/BookReader.js:2427-2450 | the last page, or one past it exactly when it is not on the trailing side in the two-page view |
| Viewer.BookReader.DisplayableCoversBook | src/js/BookReader.js:2399-2450 | the displayable range covers the book and exceeds it by at most one page on each side |
| Viewer.BookReader.Next | src/js/BookReader.js:1603-1612 | the two-page view always flips forward; elsewhere a jump to the next page before the last displayable page, and nothing at it |
| Viewer.BookReader.Prev | src/js/BookReader.js:1614-1625 | nothing happens exactly on the front page; otherwise the two-page view flips back and the other views jump to the previous page |
| Viewer.BookReader.EndsAndSteps | src/js/BookReader.js:1562-1634 | leftmost and rightmost go to the two displayable ends, leftmost to the lower one exactly for left-to-right books; left and right step to opposite sides |
| Viewer.BookReader.IsIndexDisplayedExactly | src/js/BookReader.js:1196-1201 | an index is displayed exactly when it is at a displayed position, excluding the first and last in the one-page view |
| Viewer.BookReader.JumpTargetSettled | src/js/BookReader.js:1213-1220 | with a well-formed book one retarget lands on a viewable page or a run start, and a settled index is kept |
| Viewer.BookReader.JumpToIndex | src/js/BookReader.js:1210-1265 | the target is settled; two-page: flip back, flip forward or nothing by the spread's bounds; thumbnail: the target becomes the first index with its events and suppression rule, and the jump is an immediate redraw exactly when the view already sits at the target's row, else a scroll; one-page: a scroll; the fields it changes are the first index, the events and the suppression flag, since the redraw is the separate `DrawLeafsThumbnail` |
| Viewer.BookReader.JumpToPage | src/js/BookReader.js:1180-1190 | true exactly when the page string parses; then the state and jump (including the thumbnail view's immediate-redraw case) are those of a jump to the parsed index, otherwise nothing changes |
| Viewer.LayOutGrid | src/js/BookReader.js:775-849 | the grid of the book's pages and its visible rows and range |
| Viewer.DisplayRows | src/js/BookReader.js:852-902 | the rows to display and the pages built for the new ones |
| Viewer.RedrawGrid | src/js/BookReader.js:775-940 | the rows to display are the visible rows plus buffer; the containers on screen gain the built pages and lose the torn-down ones, and are the displayed rows' pages when they were before and no page is in two rows |
| Viewer.BookReader.MoveIntoView | src/js/BookReader.js:943-948 | the first index moves to the nearer visible end exactly when outside, with its events |
| Viewer.BookReader.DrawLeafsThumbnail | src/js/BookReader.js:757-951 | after a redraw the displayed rows are those of the visible rows plus buffer, the shown pages follow the diff (and equal the displayed rows' pages when no page is in two rows), and the first index is retargeted with its events and suppression rule |
| Viewer.BookReader.DrawKeepsCurrentInView | src/js/BookReader.js:828-948 | for pages in increasing order and some row in view, the first index after a redraw is in the visible range |
| Viewer.BookReader.PruneUnusedImgs | src/js/BookReader.js:1735-1746 | exactly the entries far from the spread and coarser than the current reduce are deleted, the others keep their values, and every container but the spread's two is detached |
| Viewer.BookReader.PruneKeepsSpread | src/js/BookReader.js:1740-1743 | the spread's own pages are never deleted when at most four apart |
| Viewer.PruneAsWritten | src/js/BookReader.js:1735-1746 | as written, reading the reduce through the cached wrapper gives `undefined`, so the prune deletes no entry at all |
| Viewer.PruneAsWrittenKeepsStale | src/js/BookReader.js:1739-1744 | a container far from the spread and coarser than the current reduce is kept by the prune as written |
| Viewer.BookReader.PrefetchImg | src/js/BookReader.js:1698-1729 | a container is registered now exactly for a spread page or when fetching now, flagged empty exactly when outside the book; otherwise the cache is unchanged |

## Left out

- DOM and jQuery work is not modelled, because it has no stateable behaviour beyond the positions and sets modelled above. This covers:
  - element creation and CSS;
  - the page-view height;
  - highlights;
  - lazy loading;
  - the toolbar.
- Timing and asynchrony are not modelled, because they depend on wall-clock time. This covers:
  - the `setTimeout` branch of `prefetchImg` (the image-cache request it makes later);
  - throttled navigation updates;
  - animations and the `animating` flag.
- Viewer.BookReader.JumpToIndex: does not model the pixel scroll positions of the one-page and thumbnail branches. They read the container's scroll state. The thumbnail branch also reads page heights by position in the row rather than by page index.
- Viewer.BookReader.JumpToIndex: the thumbnail branch's synchronous `drawLeafs()` (lines 1257-1259, when the container's scroll top already equals the target row's top) is not run inside the method. The method returns `RedrawThumbs` in that case, and the redraw is the separate call `DrawLeafsThumbnail`, which replaces the displayed rows and shown pages and may move the first index again. Whether the scroll top equals the row's top is the parameter `atRowTop`, since pixel positions are not modelled.
- Viewer.BookReader.JumpToPage: inherits the thumbnail branch's immediate redraw from `JumpToIndex`. A `RedrawThumbs` jump is completed by a separate `DrawLeafsThumbnail` call.
- Viewer.BookReader.JumpToIndex: the recursion after an unviewable retarget is modelled as one retarget. With a well-formed book that is all it takes. `JumpTargetSettled` proves the recursive call would not retarget again.
- `seekIndex`/`seekTop` and `maxRight` are not modelled; they only centre and scroll the grid. `pageViewBuffer` is derived from the container's width, so it is a parameter of `DrawLeafsThumbnail` passed on to `CellLeft` through the build loop.
- The book model, the image cache and the one- and two-page view code are not part of this model. What they compute arrives as parameters:
  - the page order of `pagesIterator`;
  - `parsePageString`;
  - `leafNumToIndex`;
  - the one-page reduction factors;
  - the two-page reduce;
  - the image's stored reduce;
  - the decoder of `decodeURIComponentPlus`.
- Viewer.BookReader.SwitchMode: the following are not modelled:
  - removing search highlights;
  - `setSpreadIndices`;
  - the view preparation markup;
  - the text-selection plugin;
  - the quantization to `this.reductionFactors` in the thumbnail branch, whose result `prepareThumbnailView` overwrites at once.
- Viewer.BookReader.PrepareThumbnailView: the redraw it starts at the end is a separate call, `DrawLeafsThumbnail`. `ZoomThumb` and `SwitchMode` inherit this.
- Viewer.BookReader.Next: in the two-page view, the `stop` event that `next` and `prev` trigger before a flip is not in the trace. The flip is returned as an action.
- The event names are the keys passed to the event table. The event table itself is not part of this model.
- Viewer.BookReader.PruneUnusedImgs: the dictionary's string keys are modelled as integers, and their enumeration order is a parameter. The result does not depend on the order.
- ThumbnailLayout.ThumbnailWidth: uses exact reals, not IEEE floating point. `parseInt` of a number written in exponent form is not modelled.
- ThumbnailLayout.ThumbHeights: a page of width 0 or less gets height 0. JavaScript would give `Infinity` or `NaN`; the viewer never asks for such pages.
- `rowsToDisplay.sort()` is JavaScript's lexicographic sort. The model keeps the rows to display as a set, the only way the source uses them after sorting.
- Fragment: `encodeURIComponentPlus` with the `%2F` replacement and `decodeURIComponentPlus` are parameters. The writer applies the encoder to each value rather than to the joined path; that is the same for an encoder that works character by character, since the separators come back as '/'. Keys and mode names are taken as unchanged by the encoder. A key named `__proto__` is not modelled.
- Fragment.FragmentRoundTrip: the source encodes the page when writing (line 2895) but never decodes it when reading (line 2830), so only page strings the encoder leaves unchanged come back as they were; the lemma states the encoded page that does come back. A path-unsafe encoded value (one holding '/') is excluded, since it splits into further pieces.
- Viewer.BookReader.constructor: `initComplete` is a field of each viewer. In the source it is a property of the shared `init` function (`this.init.initComplete`, lines 441 and 525), so all viewers on a page share it.
- Fragment.DecimalValue: integers are unbounded. `parseInt` loses precision past 2^53.
- Fragment.InitIndexPrecedence: what `initParams` does after line 350 is not modelled: the search handling and setting `suppressFragmentChange` from the result's `fragmentChange` flag (line 375). Neither are the cookie and URL reads themselves (they are fields of `StartUp`).
- Viewer.BookReader.CurrentIndex: `firstIndex` starts as `null` in the source; the model starts it at 0.
- Viewer.RedrawGrid: tears down with the corrected `TearDown`, which skips leaving rows that do not exist. As written the draw throws there and then neither retargets the current page nor records the displayed rows; see "## Findings" and `ThumbnailLayout.TearDownAsWritten`.
- Viewer.BookReader.DrawLeafsThumbnail: inherits the corrected tear-down of `RedrawGrid`; see "## Findings".
- Viewer.BookReader.PruneUnusedImgs: deletes stale containers as evidently intended. As written nothing is deleted, because the reduce is read from the cached wrapper; see "## Findings" and `Viewer.PruneAsWritten`.
- Viewer.BookReader.JumpToIndex: requires a known mode and does not model the throw of the `currentIndex` call at line 1211 in any other mode. Jumps happen only after `init`, which always sets a known mode. `JumpToPage` inherits this.

## Findings

| source | as written | input that shows it | evidently intended | confidence | as-written member | corrected member |
|---|---|---|---|---|---|---|
| src/js/BookReader.js:931-940 | the tear-down loop iterates `leafMap[row]?.leafs` for every row leaving the display; for a hole row this is `undefined`, and `for…of undefined` throws | thumbnails 110 wide with padding 10 in a view 100 wide (row 0 is a hole, rows 1-3 hold one page each, 10 high), row buffer 2: a draw at scroll [0, 15] displays rows {0, 1, 2, 3}; a draw at scroll [45, 60] displays {2, 3}, so the hole row 0 leaves and the loop throws | rows that do not exist have nothing to tear down and are skipped, as the build loop does at line 866 | not executed | ThumbnailLayout.TearDownHoleThrows | ThumbnailLayout.ShownAfterDraw |
| src/js/BookReader.js:1714-1741 | `prefetchImg` stores the reduce on the container element (`$pageContainer[0].reduce`) but caches the jQuery wrapper; `pruneUnusedImgs` reads `reduce` from the wrapper, which is `undefined`, and `undefined > this.reduce` is false, so no entry is ever deleted | a cache holding page 0 made at reduce 16, the spread at pages 10 and 11, the current reduce 4: page 0 is more than four pages away and coarser, yet it is kept | containers far from the spread and coarser than the current reduce are deleted | not executed | Viewer.PruneAsWritten | Viewer.BookReader.PruneUnusedImgs |
