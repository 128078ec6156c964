# Verified model of the React demo logic

This project models, in Dafny, the logic of six demo components. The rest of each demo is rendering and browser plumbing.

- **Variable-height virtual list** (`variable_list.dfy`, module `VariableList`).
  - A position table: one `{index, height, top, bottom, isMeasured}` entry per row, starting at an estimated height of 80.
  - `measureItem` corrects one row in place and re-chains every later row.
  - `getStartIndex` is a binary search from a scroll offset to the first visible row, with an exact-hit tie-break.
  - The mounted window holds at most ten rows.
  - `handleScrollTo` resolves a target row and picks a scrolling strategy: smart, native, blur or flash.
- **HTML pretty-printer** `formatHTML` (`html_format.dfy`, module `HtmlFormat`).
  - Whitespace between `>` and `<` is removed and the result is trimmed.
  - The text is split into tags and text.
  - A walk over the tokens keeps an indentation counter. It puts block-level tags on their own lines and appends everything else verbatim.
- **Drag-to-reorder list** (`drag_sort.dfy`, module `DragSort`): the list plus the two drag references, and the remove-and-reinsert move.
- **Seamless carousel** (`carousel.dfy`, module `Carousel`): the cloned slide track, the transition lock, the snap back from a clone, and the indicator mapping.
- **Chunked upload bookkeeping** (`file_upload.dfy`, module `FileUpload`): cutting a file into 50 KB chunks, the pending filter, per-chunk upload flags, the ceiling percentage, MIME classification and the reset.
- **Fixed-height virtual list arithmetic** (`virtual_list.dfy`, module `VirtualList`): start index by floor division, end index, visible slice, offset and total height.

Two helper modules are shared:
- `Wrappers` provides `Option`, which models `null`.
- `JsArray` models how `Array.prototype.slice` normalises its indices.

Heights and scroll offsets are exact `real`s. Integers are unbounded.

State that the components keep in React state or refs is modelled as classes:
- `DragSort.DragList`, `Carousel.Carousel` and `FileUpload.Uploader` have fields that their methods update.
- The position table of the variable list is an `array<Entry>` that `MeasureItem` updates in place.

Each such method is tied by its `ensures` clause to a pure specification function (`Measured`, `Move`, `Snap`, `ChunkPlan`, `Layout`, …). Lemmas then prove properties of that function.

### The scroll offset at and beyond the total height

On an exact hit of `bottom[mid]`, `getStartIndex` returns `mid + 1` (src/demos/VariableList/index.jsx:104). So on five rows of 80, the offset 400 (the total height) resolves to 5, the row count, not to the last row. Beyond the total height no `bottom` exceeds the offset, and the search returns -1.

The model follows the code. `VariableList.StartIndexAtTotalHeight` and `VariableList.StartIndexOnFiveRows` state both values.

## Model

| member | source | states |
|---|---|---|
| VariableList.InitialPositionsShape | src/demos/VariableList/index.jsx:76-84 | the fresh table is chained (top[0] = 0, bottom = top + height, top[i] = bottom[i-1]); heights are 80, tops are 80·i, nothing is measured; the total height is 80·count |
| VariableList.InitialPositions | src/demos/VariableList/index.jsx:76-84 | one entry per row; its shape is stated by `InitialPositionsShape` |
| VariableList.TotalHeight | src/demos/VariableList/index.jsx:92 | definition, no contract of its own: the bottom of the last row; `ChainedTotal` relates it to the row heights |
| VariableList.ChainedTotal | src/demos/VariableList/index.jsx:92 | in a chained table the total height (the last bottom) equals the sum of all row heights |
| VariableList.ChainedSorted | src/demos/VariableList/index.jsx:144-147 | a chained table with non-negative heights has non-decreasing bottoms, and with positive heights strictly increasing ones |
| VariableList.CascadeShape | src/demos/VariableList/index.jsx:144-147 | the forward walk from row i keeps rows before i, keeps every index, height and flag, and leaves each later row starting at the previous bottom and ending at top + height |
| VariableList.Cascade | src/demos/VariableList/index.jsx:144-147 | the table keeps its length; the rest is stated by `CascadeShape` |
| VariableList.Measured | src/demos/VariableList/index.jsx:127-151 | the table keeps its length; the rest is stated by `MeasuredShape` and the lemmas after it |
| VariableList.MeasuredShape | src/demos/VariableList/index.jsx:127-151 | a skipped measurement returns the table unchanged; otherwise row k gets height h, keeps its top, ends at top + h and is marked measured; rows before k are unchanged; no later height or flag changes; an unchanged height leaves later rows alone; a changed one re-chains them |
| VariableList.MeasureIdempotent | src/demos/VariableList/index.jsx:129-132 | measuring the same row twice with the same height: the second measurement changes nothing |
| VariableList.MeasureAbsorbsJitter | src/demos/VariableList/index.jsx:130-132 | after an applied measurement, any later report within 0.5 of it is ignored |
| VariableList.MeasuredChained | src/demos/VariableList/index.jsx:134-148 | a measurement keeps the table chained; the total height changes by exactly h minus the old height, or not at all when skipped |
| VariableList.MeasuredHeights | src/demos/VariableList/index.jsx:134-141 | measuring with a non-negative (positive) height keeps all heights non-negative (positive) |
| VariableList.MeasureItem | src/demos/VariableList/index.jsx:127-151 | the in-place update (entry k replaced, then the forward loop over top and bottom) leaves the array equal to `Measured` of the old table |
| VariableList.FirstAbove | src/demos/VariableList/index.jsx:95-112 | reference for the search: an index r ≤ n with every bottom before r at most s and bottom[r] > s |
| VariableList.StartIndexSpec | src/demos/VariableList/index.jsx:95-112 | definition, no contract of its own: -1 on an empty table or an offset beyond the last bottom, otherwise `FirstAbove`; `GetStartIndex` is proved equal to it on strictly sorted bottoms |
| VariableList.FirstAboveUnique | src/demos/VariableList/index.jsx:95-112 | any index with those two properties is `FirstAbove` |
| VariableList.ExactHit | src/demos/VariableList/index.jsx:104 | the exact-hit shortcut returns the row after the hit, which meets `StartIndexOk`, and on strictly sorted bottoms it is `StartIndexSpec` |
| VariableList.SearchBoundary | src/demos/VariableList/index.jsx:98-111 | when the search closes on the boundary k between rows that end above and rows that end below the offset, -1 (if k = n) or k meets `StartIndexOk` and is `StartIndexSpec` |
| VariableList.GetStartIndex | src/demos/VariableList/index.jsx:95-112 | result in [-1, n]; on sorted bottoms it meets `StartIndexOk`: -1 exactly when every row ends above the offset, otherwise an exact hit on the bottom of row r-1, or the first row r that ends below the offset; on strictly sorted bottoms it is exactly `StartIndexSpec` (the row count on an exact hit of the last bottom, -1 beyond it) |
| VariableList.StartIndexAtRowBoundary | src/demos/VariableList/index.jsx:104 | 1000 fresh rows: offset 4000, the top of row 50, resolves to 50 |
| VariableList.StartIndexAtTotalHeight | src/demos/VariableList/index.jsx:104 | 5 fresh rows: offset 400, the total height, resolves to 5 |
| VariableList.StartIndexOnFiveRows | src/demos/VariableList/index.jsx:98-111 | 5 fresh rows: offsets 0, 80, 81, 399 resolve to 0, 1, 1, 4, and offset 401 to -1 |
| VariableList.VisibleWindow | src/demos/VariableList/index.jsx:114-117 | the mounted rows lie inside the list and number at most 10; for a start in [0, n] they are [start, min(start + 10, n)); for the start -1 given past the total height, only the last row is mounted when n < 10, and none otherwise |
| JsArray.Bound | src/demos/VariableList/index.jsx:117 | a slice bound lies in [0, len]: in-range bounds are kept, negative ones count from the end, and larger ones are clamped to len |
| JsArray.SliceRange | src/demos/VariableList/index.jsx:117 | a slice covers lo ≤ hi ≤ len, and exactly [start, end) when 0 ≤ start ≤ end ≤ len |
| VariableList.ResolveTarget | src/demos/VariableList/index.jsx:157-163 | top gives 0, bottom gives n-1; a non-numeric target gives nothing; numbers are clamped into [0, n-1], with in-range numbers kept |
| VariableList.ChooseStrategy | src/demos/VariableList/index.jsx:172-200 | native smooth iff native mode or a smart jump of at most 50 rows; blur iff blur mode or a longer smart jump; flash iff flash mode, with distance = target top − current top, skipping the middle iff \|distance\| > 3000 |
| VariableList.SmartDelegates | src/demos/VariableList/index.jsx:175-184 | smart mode is native mode for near jumps and blur mode for far ones |
| VariableList.SmartFarJump | src/demos/VariableList/index.jsx:176 | a smart jump from row 50 to row 900 uses the blur teleport |
| VariableList.HandleScrollTo | src/demos/VariableList/index.jsx:154-204 | nothing happens iff the container is absent or the target is not a number; otherwise the session has the clamped target, that row's top, the current offset, the current row (meeting `StartIndexOk` on sorted tables, and exactly `StartIndexSpec` on strictly sorted ones) and the strategy for the mode |
| HtmlFormat.FormatHtml | src/lib/utils.js:1-122 | the empty input gives ""; the output is `Layout` of the tokens of the cleaned, trimmed input; it has the input's non-whitespace characters in the same order, and neither starts nor ends with whitespace |
| HtmlFormat.WritePart | src/lib/utils.js:64-119 | one step of the walk (closing, opening and text branches) extends the output prefix and the indentation counter by exactly one token of `Layout` |
| HtmlFormat.LayoutOfTrimmed | src/lib/utils.js:62-121 | the layout of the tokens of a trimmed string keeps that string's non-whitespace text, has non-white ends, and is its own trim |
| HtmlFormat.FormattedProps | src/lib/utils.js:58-121 | the layout of the cleaned input keeps the input's non-whitespace text, has non-white ends, and is its own trim |
| HtmlFormat.CleanNoGap | src/lib/utils.js:58 | no match of `>\s+<` is left anywhere in the cleaned string |
| HtmlFormat.CleanKeepsNonWhite | src/lib/utils.js:58 | the `>\s+<` to `><` replacement deletes whitespace and nothing else |
| HtmlFormat.CleanGapFree | src/lib/utils.js:58 | a string in which no `>\s+<` match starts is left unchanged |
| HtmlFormat.CleanIdempotent | src/lib/utils.js:58 | cleaning a cleaned string changes nothing |
| HtmlFormat.CleanSplit | src/lib/utils.js:58 | a non-white character other than `>` ends any match it is part of, so the string cleans as the part up to it followed by the rest cleaned on its own |
| HtmlFormat.CleanNoGtPrefix | src/lib/utils.js:57-58 | text without `>` at the front is copied unchanged, whitespace included |
| HtmlFormat.CleanKeepsRun | src/lib/utils.js:57-58 | whitespace outside the matches survives: after a non-white character other than `>` (the `<` of a tag, a letter of text), everything up to the next `>` is kept as it is, so the spaces between a tag's attributes stay |
| HtmlFormat.Clean | src/lib/utils.js:58 | definition, no contract of its own: the left-to-right `>\s+<` to `><` replacement; `CleanNoGap` states that every match is removed, `CleanKeepsNonWhite` that only whitespace is deleted, and `CleanKeepsRun` and `CleanGapFree` that whitespace outside the matches is kept |
| HtmlFormat.LeadingWhiteRun | src/lib/utils.js:58 | `LeadingWhite` is the length of the longest whitespace prefix: the prefix is all whitespace and the next character is not |
| HtmlFormat.Trim | src/lib/utils.js:58 | the trimmed string has no whitespace at either end |
| HtmlFormat.NonWhiteTrim | src/lib/utils.js:58 | trimming deletes whitespace and nothing else |
| HtmlFormat.TrimOfTrimmed | src/lib/utils.js:121 | a string with non-white ends is its own trim |
| HtmlFormat.TagFound | src/lib/utils.js:62 | a match of `<[^>]+>` found at i lies inside the string and spans a `<`, at least one character other than `>`, and a `>` |
| HtmlFormat.TagMatchesAt | src/lib/utils.js:62 | wherever such a match starts, the scan finds it there with its full length |
| HtmlFormat.TagFreeSlice | src/lib/utils.js:62 | a stretch in which no match starts contains no tag at all |
| HtmlFormat.SplitFromFlatten | src/lib/utils.js:62 | the tokens of `SplitFrom` concatenate back to the rest of the string |
| HtmlFormat.SplitFromWell | src/lib/utils.js:62 | after a stretch with no tag, every token of `SplitFrom` is non-empty and is a tag or tag-free text |
| HtmlFormat.SplitFrom | src/lib/utils.js:62 | definition, no contract of its own: the split scan from a position; `SplitFromFlatten` and `SplitFromWell` state its properties |
| HtmlFormat.Tokenize | src/lib/utils.js:62 | `split(/(<[^>]+>)/g).filter(Boolean)`: the tokens concatenate back to the string, none is empty, each is a tag `<…>` with no inner `>` or text containing no tag |
| HtmlFormat.NameFromRun | src/lib/utils.js:52 | the tag name is the longest run of ASCII letters and digits after `<` or `</`, as `[a-z0-9]+` with the `i` flag matches, each lower-cased |
| HtmlFormat.TagName | src/lib/utils.js:52 | definition, no contract of its own: the lower-cased name after `<` or `</`, none when the token does not start that way or the run is empty |
| HtmlFormat.IsBlock | src/lib/utils.js:50-54 | definition, no contract of its own: the token's name is one of the 37 block tags of lines 5-43 |
| HtmlFormat.IsClosing | src/lib/utils.js:69 | definition, no contract of its own: the token starts with `</` |
| HtmlFormat.IsOpening | src/lib/utils.js:96 | definition, no contract of its own: the token starts with `<` and has a further character |
| HtmlFormat.PrefixCIMeaning | src/lib/utils.js:105 | the case-insensitive prefix test holds exactly when the token is at least as long as the prefix and agrees with it letter by letter, ignoring ASCII case |
| HtmlFormat.IsSelfClosing | src/lib/utils.js:104-105 | definition, no contract of its own: the token ends in `/>` or starts, ignoring case, with `<br`, `<hr`, `<img`, `<input`, `<meta` or `<link` |
| HtmlFormat.Tab | src/lib/utils.js:45 | `tab.repeat(n)` is 2n characters long |
| HtmlFormat.TabSpaces | src/lib/utils.js:45 | every character of `tab.repeat(n)` is a space |
| HtmlFormat.IndentBefore | src/lib/utils.js:71 | the indentation counter never goes below 0 |
| HtmlFormat.StepIndent | src/lib/utils.js:69-112 | definition, no contract of its own: the counter after one token; `IndentChange` states the change |
| HtmlFormat.IndentChange | src/lib/utils.js:69-112 | a block closing tag lowers the counter by one, floored at 0; a block opening tag that is not self-closing raises it by one; everything else leaves it unchanged |
| HtmlFormat.SepShape | src/lib/utils.js:75-117 | only whitespace goes before a token; a line break goes exactly before a non-first block opening tag and before a block closing tag that follows a block closing tag; after a break comes the indentation of the enclosing level, and without a break nothing is inserted; inline tags and text get nothing and keep the counter; the first token gets nothing |
| HtmlFormat.Sep | src/lib/utils.js:75-117 | definition, no contract of its own: what the walk writes before token k; `SepShape` states its shape |
| HtmlFormat.Layout | src/lib/utils.js:64-119 | definition, no contract of its own: the walk's output over all tokens; `LayoutNonWhite` and `LayoutEnds` state its properties |
| HtmlFormat.LayoutNonWhite | src/lib/utils.js:64-119 | removing whitespace from the layout gives the concatenated tokens with whitespace removed |
| HtmlFormat.LayoutEnds | src/lib/utils.js:99-100 | the layout of the tokens of a trimmed string starts and ends with that string's first and last characters |
| HtmlFormat.NonWhiteAppend | src/lib/utils.js:58 | deleting whitespace distributes over concatenation |
| DragSort.RemoveAt | src/demos/DragSort/index.jsx:42 | `splice(i, 1)`: one shorter; items before i kept; later items shift down by one |
| DragSort.InsertAt | src/demos/DragSort/index.jsx:44 | `splice(i, 0, x)`: one longer; x at i; items before i kept; later items shift up by one |
| DragSort.RemoveInsert | src/demos/DragSort/index.jsx:42-44 | removing what was just inserted gives the list back |
| DragSort.InsertRemove | src/demos/DragSort/index.jsx:42-44 | reinserting the removed item at its place gives the list back |
| DragSort.MovePermutes | src/demos/DragSort/index.jsx:38-44 | a move keeps the length and the multiset of items: it is a permutation |
| DragSort.Move | src/demos/DragSort/index.jsx:38-44 | definition, no contract of its own: remove the item at `from`, insert it at `to`; `MovePermutes`, `MovePlaces` and `MoveKeepsOthers` state the result |
| DragSort.MovePlaces | src/demos/DragSort/index.jsx:40-44 | after the move the hovered row holds the dragged item |
| DragSort.MoveKeepsOthers | src/demos/DragSort/index.jsx:42-44 | without the dragged item, the list is the old list without it: the others keep their relative order |
| DragSort.MoveAt | src/demos/DragSort/index.jsx:38-44 | where every item goes: rows between the two positions shift by one towards the origin, the rest stay |
| DragSort.MoveBack | src/demos/DragSort/index.jsx:38-47 | dragging the item back to where it came from restores the list |
| DragSort.MoveChain | src/demos/DragSort/index.jsx:44-47 | two consecutive enters (the ref follows the item) equal one move from the original position |
| DragSort.DragList.constructor | src/demos/DragSort/index.jsx:14-19 | the initial list, with no drag and no hovered row |
| DragSort.DragList.HandleDragStart | src/demos/DragSort/index.jsx:22-27 | the drag ref becomes the start row; the list and the hover ref are unchanged |
| DragSort.DragList.HandleDragEnter | src/demos/DragSort/index.jsx:30-51 | the hover ref always records the row; with no drag, or on the dragged row itself, the list and drag ref are unchanged; otherwise the list becomes `Move(old, dragged, row)` and the drag ref follows to the row |
| DragSort.DragList.HandleDragEnd | src/demos/DragSort/index.jsx:54-61 | both refs are cleared, and the list keeps its order |
| Carousel.Slides | src/demos/Carousel/index.jsx:14-18 | the track has n+2 slides: the last original, then the originals in order, then the first original |
| Carousel.ActiveIndexShown | src/demos/Carousel/index.jsx:149-151 | for every track position in [0, n+1] the indicator lies in [0, n-1] and names the original slide on screen |
| Carousel.ActiveIndex | src/demos/Carousel/index.jsx:149-151 | definition, no contract of its own: the indicator for a track position; `ActiveIndexShown` states its meaning |
| Carousel.SnapKeepsSlide | src/demos/Carousel/index.jsx:72-83 | the snap lands on a real slide, shows the same picture, and highlights the same indicator |
| Carousel.Snap | src/demos/Carousel/index.jsx:72-83 | definition, no contract of its own: the position after the jump off a copy; `SnapKeepsSlide` states its meaning |
| Carousel.ClonesMatch | src/demos/Carousel/index.jsx:14-18 | slides[n+1] = slides[1] and slides[0] = slides[n] |
| Carousel.Carousel.constructor | src/demos/Carousel/index.jsx:21-23 | the carousel starts at position 1, the first real slide, with no transition |
| Carousel.Carousel.NextSlide | src/demos/Carousel/index.jsx:33-37 | locked while transitioning; otherwise starts a transition one position forward; the range invariant is kept |
| Carousel.Carousel.PrevSlide | src/demos/Carousel/index.jsx:39-43 | locked while transitioning; otherwise starts a transition one position back; the range invariant is kept |
| Carousel.Carousel.HandleTransitionEnd | src/demos/Carousel/index.jsx:72-83 | clears the transition; the position becomes `Snap` of the old one (n+1 to 1, 0 to n, others kept); the slide shown does not change |
| Carousel.Carousel.GoToSlide | src/demos/Carousel/index.jsx:86-89 | with no lock check, sets position i+1 and starts a transition; original slide i is shown |
| FileUpload.CeilDiv | src/demos/FileUpload/index.jsx:53-59 | ceil(n / m): c · m ≥ n and (c − 1) · m < n |
| FileUpload.CeilDivLeast | src/demos/FileUpload/index.jsx:53-59 | k · m ≥ n exactly when k ≥ ceil(n / m), so the ceiling is the least such multiple |
| FileUpload.ChunkCount | src/demos/FileUpload/index.jsx:50-62 | the chunk count is the least c with c · chunkSize ≥ size, that is ceil(size / chunkSize) |
| FileUpload.ChunkStartsInside | src/demos/FileUpload/index.jsx:53 | the cursor's k-th position k · chunkSize is inside the file exactly when k is below the chunk count, so the loop runs `ChunkCount` times |
| FileUpload.ChunkPlan | src/demos/FileUpload/index.jsx:50-62 | reference list: chunk k is [k · size, min((k+1) · size, file size)), not uploaded, and there are `ChunkCount` of them |
| FileUpload.CreateFileChunks | src/demos/FileUpload/index.jsx:50-62 | the cursor loop builds exactly `ChunkPlan` |
| FileUpload.ChunkCountZero | src/demos/FileUpload/index.jsx:53 | a 0-byte file has no chunks, and any other file has at least one |
| FileUpload.ChunkPlanTiles | src/demos/FileUpload/index.jsx:53-59 | the chunks tile the file: the first starts at 0 and the last stops at the size; each starts where the previous stopped; each is non-empty and at most one chunk size long; chunk k has index k and is not uploaded |
| FileUpload.ChunkOfByte | src/demos/FileUpload/index.jsx:53-59 | byte b lies in chunk b / chunkSize |
| FileUpload.PendingMembers | src/demos/FileUpload/index.jsx:94 | a chunk is pending iff it is in the list and not uploaded |
| FileUpload.Pending | src/demos/FileUpload/index.jsx:94 | the filtered list is no longer than the list; `PendingMembers` and `PendingInOrder` state which chunks it keeps and in what order |
| FileUpload.PendingInOrder | src/demos/FileUpload/index.jsx:94 | a list in index order leaves a pending list in index order |
| FileUpload.UploadedCount | src/demos/FileUpload/index.jsx:133 | uploaded count plus pending count is the list length |
| FileUpload.MarkUploaded | src/demos/FileUpload/index.jsx:100-107 | the copy has the same length, chunk k is uploaded and otherwise unchanged, and every other chunk is unchanged |
| FileUpload.MarkCounts | src/demos/FileUpload/index.jsx:100-107 | marking an uploaded chunk changes nothing; marking a pending one adds exactly one to the uploaded count |
| FileUpload.CeilPercent | src/demos/FileUpload/index.jsx:134 | the least p with p · total ≥ 100 · uploaded; in [0, 100]; 0 exactly when nothing is uploaded; 100 when everything is |
| FileUpload.CeilPercentMonotone | src/demos/FileUpload/index.jsx:131-136 | progress does not decrease as the uploaded count grows |
| FileUpload.Classify | src/demos/FileUpload/index.jsx:39-47 | image iff the MIME type starts with "image/", video iff it starts with "video/", other otherwise |
| FileUpload.Uploader.constructor | src/demos/FileUpload/index.jsx:20-29 | the initial state is the cleared state, and the (empty) chunk list keeps every chunk in its own slot |
| FileUpload.Uploader.ResetState | src/demos/FileUpload/index.jsx:144-154 | no file, no preview, type other, no chunks, progress 0, not uploading, not paused; the slot invariant holds |
| FileUpload.Uploader.HandleFileChange | src/demos/FileUpload/index.jsx:32-48 | nothing happens without a file; otherwise the state is reset, the file is stored and classified, and there is a preview iff it is an image or a video; the slot invariant is kept |
| FileUpload.Uploader.HandleUpload | src/demos/FileUpload/index.jsx:82-94 | nothing happens without a file; otherwise the upload runs, unpaused and not aborted; chunks are created only when there are none (a resume keeps its flags); the new chunks keep `chunks[i].index == i`; the chunks still pending are handed back, with strictly increasing indices |
| FileUpload.Uploader.MarkChunkUploaded | src/demos/FileUpload/index.jsx:100-107 | for a chunk position k of a numbered list, the chunk list becomes `MarkUploaded(old, k)` and chunk k stays in slot k, so `newChunks[chunk.index]` is the chunk itself; nothing else changes (a completion after a reset is outside the model, see Left out) |
| FileUpload.Uploader.SyncProgress | src/demos/FileUpload/index.jsx:131-136 | without chunks progress is not touched; otherwise it becomes the ceiling percentage of uploaded chunks; the chunk list is untouched |
| VirtualList.TotalHeight | src/demos/VirtualList/index.jsx:20 | the phantom height grows by one row height per row, from 0 |
| VirtualList.StartIndexAt | src/demos/VirtualList/index.jsx:26 | the floor: start · 50 ≤ scrollTop < (start + 1) · 50, and non-negative for non-negative offsets |
| VirtualList.OnScroll | src/demos/VirtualList/index.jsx:23-31 | a new start index is written exactly when the computed one differs from the current one, and it is the computed one |
| VirtualList.EndIndex | src/demos/VirtualList/index.jsx:34 | the end index is at most the count and at most start + 12, and equals one of the two |
| VirtualList.VisibleRange | src/demos/VirtualList/index.jsx:34-35 | the slice lies inside the list and has at most 12 rows; exactly 12 when start + 12 ≤ count; [start, endIndex) for a start inside the list |
| VirtualList.OffsetCoversTop | src/demos/VirtualList/index.jsx:39 | offsetY ≤ scrollTop < offsetY + 50 |
| VirtualList.OffsetY | src/demos/VirtualList/index.jsx:39 | definition, no contract of its own: the first rendered row's top; `OffsetCoversTop` states where it lies |
| VirtualList.WindowInsideList | src/demos/VirtualList/index.jsx:20-39 | for an offset inside the list, the start row is a row of the list, the window is non-empty and starts there, and the shifted rows end inside the phantom height |

## Left out

- Scroll animation timing in the variable list is not modelled: `setTimeout` delays, `requestAnimationFrame` chains, `performance.now`, and the easing curve of the flash animation. The model keeps the chosen strategy and its inputs: target offset, distance, and whether the middle is skipped.
- DOM measurement in the variable list is not modelled: `getBoundingClientRect` and the scroll listener. A measured height and the container's scroll offset are parameters.
- The random test data of the variable list is not modelled. Only the row count matters.
- `parseInt` is abstracted into the `Target` datatype. `NotANumber` stands for every input that parses to `NaN`.
- The `default` branch of the mode switch in `handleScrollTo` is left out. The mode is always one of the four ids, so the branch cannot be reached.
- VariableList.HandleScrollTo requires a non-empty table. With no rows, `positions[targetIndex]` is `undefined` and reading `.top` throws.
- VariableList.GetStartIndex: with equal bottoms (rows of height 0), the exact-hit shortcut can stop at any of several equal rows. For merely non-decreasing bottoms the contract is therefore the disjunction "exact hit at r-1, or the first row below the offset". It names the exact index only for strictly increasing bottoms.
- VariableList.HandleScrollTo: the current row is named exactly only for strictly increasing bottoms, for the same reason. For merely sorted bottoms it meets the same disjunction `StartIndexOk`.
- The shared entry objects of the shallow copy in `measureItem` are modelled as an update of one array in place. React's replacement of the state array is not modelled.
- The upload network and timing are not modelled: `mockUploadRequest` with its random delays, the asynchronous loop over the pending chunks, `handlePause` and the abort reference that breaks the loop. The completion of one chunk is `MarkChunkUploaded`.
- FileUpload.Uploader.MarkChunkUploaded requires k to be a chunk position, and the class invariant `Valid` (chunk i sits in slot i) is proved only for the states the modelled handlers reach. In the source that case can happen after a reset:
  - The X button (src/demos/FileUpload/index.jsx:223-228) stays on screen during an upload and calls `resetState` (144-154).
  - That empties the chunk list but never sets `abortRef.current`, so the loop at 97-107 keeps going.
  - Each later completion writes `{...undefined, uploaded: true}` at `chunk.index` of the emptied list, leaving a sparse array of entries with no `index`.
  - A later `handleUpload` then reuses that array at line 89 instead of cutting a new file into chunks.
  - Completions that arrive after a reset are outside this model, because the model has no concurrent upload loop.
- DragSort.DragList and Carousel.Carousel assume React re-renders between any two events, so every handler sees the writes of the one before it. In the source a handler reads the state captured at the last render; only refs and updater-form `setState` calls see writes at once.
  - `HandleDragEnter` copies the captured `items` (src/demos/DragSort/index.jsx:38). From [A, B, C], a drag from row 0 with enters on rows 1 and 2 before a re-render splices the stale [A, B, C] at `dragItemRef` = 1 and gives [A, C, B]. `MoveChain` promises [B, C, A], which holds only with a re-render between the enters.
  - `NextSlide` and `PrevSlide` test the captured `isTransitioning` (src/demos/Carousel/index.jsx:34 and 40). Two calls within one render both pass the lock and advance two positions; the author's comment at 53-56 notes the stale read.
  - `HandleTransitionEnd` tests the captured `currentIndex` (src/demos/Carousel/index.jsx:76).
- VariableList.TotalHeight requires a non-empty table. `positions[positions.length - 1].bottom` (src/demos/VariableList/index.jsx:92) throws on an empty table. The component always builds 1000 rows.
- FileUpload.CeilPercent uses exact rational arithmetic. `Math.ceil(uploaded / total * 100)` in IEEE doubles can differ: 7/100·100 evaluates slightly above 7 and rounds up to 8. Only the range, end-point and monotonicity properties are claimed for the source.
- The log message `setLogMsg` that names the chosen scroll strategy (src/demos/VariableList/index.jsx:178-194, cleared at :272) is not modelled. It is display text and changes no modelled state.
- The drag feedback styling (`e.target.style.opacity` and `background` in src/demos/DragSort/index.jsx:25-26 and 59-60) is not modelled. It is presentation only and changes neither the list nor the drag references.
- The file's object URL, preview revocation and media dimensions are not modelled. A preview is a flag.
- The carousel's autoplay `setInterval`, the pause-on-hover state and the CSS transition events are not modelled. `HandleTransitionEnd` is the handler; when the browser fires it is not modelled.
- Carousel.Slides requires at least one original slide. The component's list has four, and with none the clones would be `undefined`.
- The following demos are outside this model: Autocomplete (debounce timers, `fetch` races, regular expressions built from user input), InfiniteScroll and LazyImage (IntersectionObserver wiring), RichTextEditor (`document.execCommand`), TreeView (recursive rendering), and the theme, language and routing glue.
