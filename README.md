# xtabbie core, modelled in Dafny

xtabbie is an Alt+Tab window switcher for X11. The user holds Alt and presses Tab.
xtabbie then collects the top-level windows that carry a title, most recently raised
first. It drops windows the window manager would not list, and it keeps only the first
window of each title. Each window is shown as a 1-bit icon in a grid of cells, with the
selected window's title in a bar below the grid. Tab moves the selection forward and
Shift+Tab moves it back. Releasing Alt maps and raises both the selected window and
its top-level frame, then gives input focus to the window itself. Escape closes the
switcher without switching. A test mode does the same without the global hotkey:
Return selects and Escape quits.

The model has seven modules:

- `Base`: optional values, machine integer ranges, Rust's truncating division and a few
  grid-arithmetic lemmas.
- `Utf8`: strict UTF-8 decoding and encoding, with both round trips. Window titles are
  Dafny strings, and their byte lengths come from this encoding.
- `XServer`: the X server as a snapshot datatype holding tree replies, the viewable
  windows, the title and icon property bytes, and the set of windows the admission test
  accepts.
- `Icons` (`src/icons.rs`):
  - parsing of the `_NET_WM_ICON` record buffer;
  - choice of the record closest to the target size;
  - the ARGB-to-1-bit threshold;
  - nearest-neighbour scaling;
  - the generic fallback icon, which is built in place in an array.
- `Windows` (`src/window.rs`):
  - reading a title from `_NET_WM_NAME`, falling back to `WM_NAME`;
  - the depth-capped search for a titled window;
  - collection in most-recently-used order;
  - the walk up the parent links to the top-level frame.
- `Ui` (`src/ui.rs`):
  - cell geometry;
  - the pixel batches and selection box of each icon;
  - the title bar;
  - the shortening of long titles.
  Drawing is modelled as the sequence of fill, line and text requests it would send.
- `Switcher` (`src/switcher.rs`):
  - initial selection and navigation;
  - de-duplication by title;
  - the layout calculation;
  - the window height;
  - the event loops of daemon and test mode, as a step function on events with a loop
    method proved against it;
  - the whole `show_switcher` session, as the list of requests it issues.

## Model

| member | source | states |
|---|---|---|
| Base.TruncU16 | src/switcher.rs:305 | `x as u16` keeps the low 16 bits. A value below 2^16 is unchanged, and the result never exceeds the input. |
| Utf8.EncodeChar | src/ui.rs:192 | A character encodes to 1 to 4 bytes. It takes one byte exactly when it is ASCII. A lead byte is never a continuation byte, and every later byte is one. |
| Utf8.Encode | src/ui.rs:192 | A string's byte length (Rust's `len()`) is at least its character count. |
| Utf8.DecodeFirst | src/window.rs:31 | A decoded scalar value takes between 1 and 4 bytes and never more than are available. |
| Utf8.DecodeFirstOfEncodeChar | src/window.rs:31 | Decoding the front of any character's encoding yields that character and its encoded length. |
| Utf8.EncodeCharOfDecodeFirst | src/window.rs:31 | When decoding succeeds, the bytes it consumed are exactly the encoding of the decoded character. |
| Utf8.DecodeEncode | src/window.rs:31 | `String::from_utf8` accepts the encoding of every string and returns that string. |
| Utf8.EncodeDecode | src/window.rs:31 | When `String::from_utf8` accepts a buffer, the string's bytes are exactly that buffer. |
| Utf8.EncodeAppend | src/ui.rs:193 | Encoding distributes over concatenation, so the byte length of `prefix + "..."` adds up. |
| Utf8.Latin1 | src/window.rs:58 | The Latin-1 reading has one character per byte, each with that byte's code point. |
| Icons.Scaled | src/icons.rs:16-33 | A scaled icon is target by target, with target squared pixels. |
| Icons.ScaledPixel | src/icons.rs:19-24 | Destination pixel (x, y) is the source pixel at (x*w/t, y*h/t), or white when that index is outside the data. |
| Icons.Scale | src/icons.rs:16-33 | The nested loop pushes exactly the pixels of the scaled icon. |
| Icons.ScaleSquareIdentity | src/icons.rs:16-33 | Scaling an icon that is already target by target returns it unchanged. |
| Icons.ScaleIdempotent | src/icons.rs:16-33 | Scaling twice to the same size is scaling once. |
| Icons.RecordsWithinBuffer | src/icons.rs:73-89 | The parse loop never reads past the buffer. Every record it accepts has non-zero dimensions and w*h pixels. Laid end to end, the records are exactly the words at the front of the buffer. |
| Icons.RecordsOfSerialize | src/icons.rs:73-89 | Parsing inverts serialisation: well-formed records laid end to end parse back to the same records, followed by whatever the rest parses to. |
| Icons.RecordsShift | src/icons.rs:73-89 | Parsing from word k equals parsing the buffer with its first k words removed. |
| Icons.ShortBufferHasNoRecord | src/icons.rs:73 | A buffer shorter than three words holds no record. |
| Icons.ShouldReplaceBest | src/icons.rs:94-109 | The first record always wins, and a strictly closer record replaces the best. A farther record never does. At equal distance, a record replaces the best exactly when its width is at least the target. |
| Icons.FindBestIcon | src/icons.rs:69-92 | The loop over the buffer returns the selection fold over the parsed records. |
| Icons.SelectBestIsClosest | src/icons.rs:69-109 | No record is chosen exactly when there is none. The choice is one of the records, and none is closer to the target. Among equally close records, one at least as wide as the target wins. |
| Icons.BestOfThreeSizes | src/icons.rs:69-109 | From a buffer of 16-, 32- and 64-pixel icons, the 64-pixel one is chosen for target 48. It ties with 32 on distance and wins by not being narrower than the target. |
| Icons.CastBytesToU32 | src/icons.rs:111-120 | The buffer becomes len/4 words in host byte order, and an empty buffer becomes no words. |
| Icons.ArgbToBw | src/icons.rs:123-141 | One flag per pixel, each flag being that pixel's ink test. |
| Icons.InkExamples | src/icons.rs:126-138 | Opaque black is ink. Opaque white and a fully transparent pixel are not. |
| Icons.InkByAlpha | src/icons.rs:126-138 | A fully transparent pixel is never ink. An opaque one is ink exactly when 299R + 587G + 114B is below half of white's weight. |
| Icons.GetWindowIcon | src/icons.rs:37-66 | There is no icon when the property is missing or shorter than three words. Otherwise there is an icon exactly when the buffer holds a complete record. An icon, when present, is target by target. |
| Icons.GenericIcon | src/icons.rs:144-167 | The generic icon of side s is s by s with s*s pixels. |
| Icons.CreateGenericIcon | src/icons.rs:144-167 | Filling the zeroed array pixel by pixel leaves, at each index, the outer-ring, title-band or inner-ring test of its cell. For a side of at least 3, the result is the generic icon. |
| Icons.GenericIconPixel | src/icons.rs:151-159 | Pixel (x, y) of the generated icon, read in two dimensions, is the border, title-band or inner-border test of (x, y). |
| Windows.GetNetWmName | src/window.rs:17-37 | A `_NET_WM_NAME` title is present only if the property exists and is not blank. Its UTF-8 bytes are exactly the property's bytes. |
| Windows.GetWmName | src/window.rs:39-64 | A `WM_NAME` title is never blank. |
| Windows.NetWmNamePresence | src/window.rs:17-37 | A `_NET_WM_NAME` title exists if and only if the property is present, is valid UTF-8 and does not decode to a blank string. When it exists, it is the decoded value. |
| Windows.WmNameReading | src/window.rs:39-64 | Without a `WM_NAME` property there is no such title. With one, the title is the UTF-8 decoding when that is valid and not blank. Otherwise it is the byte-per-character Latin-1 reading, or nothing when that reading is blank. In the UTF-8 case the title re-encodes to the property's bytes. |
| Windows.GetWindowTitle | src/window.rs:7-15 | A title is non-empty and not blank. |
| Windows.TitlePrefersNetWmName | src/window.rs:7-15 | When `_NET_WM_NAME` yields a title, `WM_NAME` is irrelevant, whatever it holds. |
| Windows.TitleFallsBack | src/window.rs:7-15 | When `_NET_WM_NAME` yields no title, the window's title is exactly the `WM_NAME` title. |
| Windows.FindWindowWithTitle | src/window.rs:94-121 | The search finds nothing past depth 10. A window it finds is viewable and titled, and the reported title is that window's. A viewable titled window within depth is itself the result. |
| Windows.FindInChildren | src/window.rs:113-120 | A window found among children is viewable and titled. |
| Windows.FindInChildrenFirstMatch | src/window.rs:113-120 | The child search fails exactly when every child's search fails. Otherwise its result is the search result of the first child whose search succeeds. |
| Windows.FindStaysWithinDepth | src/window.rs:94-121 | A found window is reachable from the starting window through at most 10 - depth child links. |
| Windows.FindFindsReachable | src/window.rs:94-121 | Conversely, if any viewable titled window is reachable through at most 10 - depth child links, the search finds a window. |
| Windows.Reverse | src/window.rs:87 | Reversal keeps the length and puts element i at position n-1-i. |
| Windows.CollectWindowsByZorder | src/window.rs:78-90 | No windows when the root's tree query fails. |
| Windows.FilterMapReversed | src/window.rs:85-89 | Filter-mapping the reversed child list keeps one result per contributing child, counted from the top, in order. Every child that is skipped yields nothing. |
| Windows.CollectWindowsOrder | src/window.rs:78-90 | The collected list has one entry per root child whose search succeeds, in top-to-bottom stacking order. Each entry is that child's search result, and no child whose search succeeds is missing. |
| Windows.FindToplevelParent | src/window.rs:124-142 | The loop of at most 20 parent-link steps returns the parent walk's result. |
| Windows.ParentWalkFindsFirstTopLevel | src/window.rs:128-139 | The step of the proof that gives the first half of ToplevelParentIsFirstTopLevelAncestor: from any ancestor, the walk returns the window itself or the first ancestor within the step budget whose parent is the root or 0. |
| Windows.ParentWalkReachesTopLevel | src/window.rs:128-139 | A walk from an ancestor with enough steps left returns the first ancestor whose parent is the root or 0. |
| Windows.ParentWalkWithoutTopLevel | src/window.rs:128-141 | A walk that meets no such ancestor within its steps, or whose tree query fails, returns the original window. |
| Windows.ToplevelParentIsFirstTopLevelAncestor | src/window.rs:124-142 | Both directions hold. When some ancestor within 20 links is the first whose parent is the root or 0, with every query on the way successful, the result is that ancestor. When there is none, the result is the window itself. |
| Ui.CellsDisjoint | src/ui.rs:102-115 | The cells of two different windows do not overlap. |
| Ui.RowsIsCeiling | src/ui.rs:151 | The row count is the ceiling of windows over columns, and 1 when there are no windows. |
| Ui.RowsCover | src/ui.rs:151 | The rows have room for every window. |
| Ui.CellInsideGrid | src/ui.rs:102-153 | Each cell, with its padding, lies within the window width and above the title bar. |
| Ui.CellXInside | src/ui.rs:103-106 | Each cell's left edge and right padding lie within the window width. |
| Ui.CellYInside | src/ui.rs:104-153 | Each cell's top edge and bottom padding lie above the title bar. |
| Ui.CentredInCell | src/ui.rs:36-39 | An icon no larger than its cell sits inside it, with the two margins differing by at most one pixel. |
| Ui.InkRects | src/ui.rs:56-77 | Every batched rectangle is a single pixel. |
| Ui.InkRectsMembers | src/ui.rs:56-77 | A rectangle is in the batch exactly when it is the square of some black pixel among those visited. |
| Ui.InkRectsAreBlackPixels | src/ui.rs:56-77 | The square at (ox + ix, oy + iy) is batched exactly when pixel (ix, iy) is black. No batched square lies outside the icon's area. |
| Ui.InkRectsInsideIcon | src/ui.rs:61-66 | Every batched square lies inside the icon's w-by-h area at its offset. |
| Ui.DrawIcon | src/ui.rs:24-87 | The nested pixel loop sends the selection box, when selected, and then the pixel batch. Black pixels go in the black-ink batch, or in the white-ink batch when selected. |
| Ui.HighlightMarksSelection | src/ui.rs:42-50 | An icon's requests contain the black selection box exactly when the icon is selected. |
| Ui.CellHighlightedIffSelected | src/ui.rs:102-130 | Among the cells, exactly the selected window's cell is drawn highlighted. |
| Ui.DrawSwitcher | src/ui.rs:90-137 | The loop sends each cell's clearing rectangle and icon in window order, then the title bar. |
| Ui.DrawCells | src/ui.rs:102-130 | The loop over the windows sends, for each in order, its cleared cell and then its icon, highlighted exactly for the selection. |
| Ui.TitleTextInsideWindow | src/ui.rs:176-184 | For a window at least 56 pixels wide, the shortened title's text starts at least 4 pixels in and ends at least 4 pixels before the right edge. |
| Ui.FloorPrefix | src/ui.rs:190-197 | The longest prefix whose UTF-8 encoding fits in k bytes: it fits, and adding the next character would not. |
| Ui.BytePrefix | src/ui.rs:193 | Slicing `&title[..k]` succeeds only at a prefix whose encoding is exactly k bytes. |
| Ui.BytePrefixIsFloorPrefix | src/ui.rs:193 | When the slice succeeds, it is the longest prefix that fits. When it fails within the title's length, the longest fitting prefix falls short of k bytes. |
| Ui.AsciiBytePrefix | src/ui.rs:193 | On an ASCII title, the slice succeeds at every offset up to its length. |
| Ui.AsciiEncodeLength | src/ui.rs:192 | An ASCII title's byte length equals its character count. |
| Ui.TruncateTitle | src/ui.rs:190-197 | A title within w/7 bytes is kept. A longer one becomes a prefix of the title followed by "...", at most max(w/7, 3) bytes long, and within 3 bytes of that budget. |
| Ui.TruncateTitleIdempotent | src/ui.rs:190-197 | Shortening a shortened title changes nothing, at every window width. |
| Ui.TruncateTitleAsWrittenLength | src/ui.rs:190-197 | The code as written keeps a title that fits unchanged. When it shortens a longer title without panicking, the result is exactly max(w/7, 3) bytes: a prefix of the title followed by "...". |
| Ui.TruncateTitleAgrees | src/ui.rs:190-197 | Wherever the slice does not panic, the corrected shortening matches the code. On ASCII titles it never panics. |
| Ui.TruncateTitleAsWrittenPanics | src/ui.rs:193 | "aéééééé" in a 64-pixel window panics: the cut at byte 6 falls inside an "é". |
| Switcher.InitialSelection | src/switcher.rs:217-227 | The initial selection is a valid index when any window exists, and 0 when there is at most one. |
| Switcher.NavigateSelection | src/switcher.rs:229-240 | From a valid index, the step stays valid, and Shift steps to (current - 1) mod count. Without Shift, any index lands in range. |
| Switcher.InitialIsOneStep | src/switcher.rs:217-240 | The initial selection is one navigation step from the first window, in the direction Shift chooses. |
| Switcher.NavigateRoundTrip | src/switcher.rs:229-240 | Tab then Shift+Tab, or Shift+Tab then Tab, returns to the same window. |
| Switcher.ForwardIsModular | src/switcher.rs:238 | n Tab steps from a valid index land at (current + n) mod count. |
| Switcher.IconFor | src/switcher.rs:289-290 | A window's switcher icon is always 48 by 48. |
| Switcher.GenericFallbackIsGeneric | src/switcher.rs:290 | Scaling the 48-pixel generic icon to 48 returns it unchanged. |
| Switcher.DeduplicateWindows | src/switcher.rs:269-300 | The method builds the generic icon once, then returns the de-duplicated list with each kept window's icon. |
| Switcher.KeepFirstOfEachTitle | src/switcher.rs:276-296 | The loop over the candidates with a set of seen titles returns the de-duplicated list. |
| Switcher.IconOrGeneric | src/switcher.rs:289-290 | The icon is the window's own, scaled to 48, or else the scaled generic icon. |
| Switcher.DedupSuffix | src/switcher.rs:276-296 | One loop iteration: an admitted entry with an unseen title is kept and its title recorded. Any other entry is skipped. |
| Switcher.DedupTitlesDistinct | src/switcher.rs:269-300 | Kept titles are pairwise distinct and none was seen before. Every kept window passed admission and carries its own icon. |
| Switcher.DedupKeepsFirstOfEachTitle | src/switcher.rs:276-296 | A (window, title) pair is kept exactly when it is the first admitted entry with that title. |
| Switcher.DedupIsOrderedSubsequence | src/switcher.rs:276-296 | The kept pairs appear in the same order as in the admitted candidates. |
| Switcher.RejectedWindowDoesNotBlock | src/switcher.rs:279-287 | Example: in the list (1,"A"), (2,"B"), (3,"A"), (4,"C") where window 1 fails admission, window 3 keeps title "A". The general rule is DedupKeepsFirstOfEachTitle. |
| Switcher.AdmittedWindowBlocksLaterTitle | src/switcher.rs:286-295 | Example: in the same list with every window admitted, window 3 is skipped as a duplicate of window 1's "A". |
| Switcher.CalculateLayout | src/switcher.rs:302-314 | Icon size is 48 and padding 8, and there are between 1 and 20 columns. There are no more columns than windows (as u16) or than fit in the width. A window of more than one column fits in the width. The column count is the largest the width, the window count and 20 allow. |
| Switcher.WindowHeight | src/ui.rs:151-153 | The corrected window height leaves room for the title bar below the last row. |
| Switcher.WindowHeightAsWrittenCutsOff | src/switcher.rs:326 | With 21 windows on a 1920-pixel screen there are 20 columns and 2 rows. The second row's icon ends below the window's fixed height, and the title bar starts at or below its bottom edge. |
| Switcher.WindowHeightHoldsEverything | src/ui.rs:102-162 | Under the corrected height, every cell lies above the title bar and the bar ends exactly at the bottom edge. |
| Switcher.WindowHeightOneRow | src/switcher.rs:326 | When the windows fit in one row, the corrected height equals the code's fixed height. |
| Switcher.Step | src/switcher.rs:169-215 | One event of the loop. The selection stays valid and changes only on Tab. The loop commits exactly on Alt release (or Return in test mode), activating the selected window. It cancels exactly on Escape and fails exactly on a connection error. Tab moves to the navigation step (backwards with Shift) and redraws the new selection, and Expose redraws the current one. Every other event (other keys, other key releases, other events) is ignored: the selection stays and nothing is drawn. |
| Switcher.Run | src/switcher.rs:175-214 | The selection stays valid. Requests are only appended. A finished session ignores further events. |
| Switcher.HandleEvent | src/switcher.rs:177-213 | Handling one event gives the step function's status, selection and requests. |
| Switcher.SwitcherLoop | src/switcher.rs:169-215 | The event loop's final session is the step function folded over the events. |
| Switcher.ActivationOnlyOnCommit | src/switcher.rs:169-215 | A committed session's requests are redraws followed by exactly one activation of the window at the committed index. A session that did not commit activates nothing. |
| Switcher.EscapeCancels | src/switcher.rs:202 | Escape ends the session at once, with no activation and the selection unchanged. |
| Switcher.RunTab | src/switcher.rs:190-200 | Tab advances the selection by one around the list and redraws. |
| Switcher.TabsThenCommit | src/switcher.rs:169-215 | n Tabs and then the commit key activate the window n places after the start, counting around the list. |
| Switcher.ShowSwitcher | src/switcher.rs:129-167 | The session's requests are: create the window; with no windows, destroy it; otherwise grab the keyboard, run the loop from the initial selection, and ungrab and destroy once it ends. |
| Switcher.RunTestMode | src/switcher.rs:38-93 | Test mode creates the window and, with windows, runs the loop from the first window, with no grab and no cleanup. |
| Switcher.ShowSwitcherCleansUp | src/switcher.rs:138-166 | Every finished session is bracketed: the keyboard grab comes right after creation, and it ends with ungrab then destroy. Between them come only redraws and the activation. With no windows, the created window is destroyed. |
| Switcher.QuickAltTabSwitchesToPrevious | src/switcher.rs:146-209 | Releasing Alt at once, with at least two windows, activates the second most recent window. The complete request list is create, grab, activate, ungrab, destroy. |

## Left out

- Network I/O is left out. Each X request and reply is a lookup in a server snapshot datatype. Intern-atom failures, property length limits (1024 and 65536 words) and request errors other than a connection error while waiting for events are not modelled.
- The admission test `should_show_in_switcher` is not part of this model. It is the server's `managed` set.
- `log_window_debug_info` and all logging are not modelled.
- `src/log.rs` and `src/main.rs` are not part of this model.
- `run_daemon_mode` (`src/switcher.rs:96-126`) is left out. It only grabs Alt+Tab on the root window and calls `show_switcher` on each Tab press, and `show_switcher` is modelled with Shift as a parameter.
- `activate_window` and `send_take_focus` are not modelled beyond the top-level parent walk. The raise, map, focus and `WM_TAKE_FOCUS` requests are one `Activate` request carrying the window and its top-level parent.
- `create_x11_window` is modelled only as the size of the window it creates, and that height is the corrected one (see the next three lines). The window position, graphics contexts, `WM_NAME`, mapping and the unused `rows` value are left out.
- Switcher.ShowSwitcher: the window it requests has the corrected, row-based height `WindowHeight`, not the fixed 88 pixels of `src/switcher.rs:326`. The two differ once the windows outnumber the columns; the fixed height is modelled separately in `WindowHeightAsWritten` and shown wrong under Findings.
- Switcher.RunTestMode: requests the same corrected height, not the fixed 88 pixels.
- Switcher.QuickAltTabSwitchesToPrevious: its request list carries the same corrected height, not the fixed 88 pixels.
- Ui.DrawSwitcher / Ui.TitleBarOps: the title bar uses the corrected shortening `TruncateTitle`. Where `src/ui.rs:193` panics on a cut inside a multi-byte character, the model draws the title cut back to a character boundary. The code's own behaviour is `TruncateTitleAsWritten`, shown wrong under Findings. Every `Draw` request in the switcher inherits this.
- A `Draw(selected)` request stands for the whole list of requests one `draw_switcher` call sends. That list is `Ui.SwitcherOps`, and `Ui.DrawSwitcher` is proved to produce it.
- `run_switcher_loop` and the loop in `run_test_mode` are one method with a mode parameter. An event list that runs out leaves the session open.
- Icons.ArgbToBw: computed in exact rational arithmetic, not in `f32`. Pixels within float rounding of the 0.5 threshold may be classified differently.
- Icons.CastBytesToU32: the host byte order is a parameter, and only the length and the word assembly are modelled. The unaligned read is not modelled.
- Icons.FindBestIcon: `width * height` is not wrapped at 32 bits. A header whose product overflows in the code is parsed with the true product here.
- Icons.GetWindowIcon: the `as u16` casts of the chosen record's size are written out, but a size above 65535 is not analysed further.
- Icons.ShouldReplaceBest: the `as i32` casts of sizes above 2^31 are not modelled. Sizes are compared as unbounded integers.
- Icons.Scaled: requires a target below 256, because `target_size * target_size` is computed in u16.
- Icons.CreateGenericIcon: requires a size of 0 or at least 3, because `s - border - 1` underflows for sizes 1 and 2.
- Ui cell, title and text coordinates are unbounded integers. The u16 and i16 wrap-arounds of `col * (icon_size + padding)`, `rows * ...`, `i as u16` and `len() as i16 * 6` are not modelled.
- Switcher.NavigateSelection: requires at least one window, as every caller guarantees. For an index out of range with Shift held, only the value is given.
- Switcher.CalculateLayout: the maximum width (80% of the screen width, computed in `f32`) is a parameter. The model requires it to be at least the padding, because `max_width - PADDING` underflows otherwise.
- Titles are Dafny strings of Unicode scalar values. Their UTF-8 bytes come from the `Utf8` module.
- With no windows, the code still creates the switcher window. In daemon mode it destroys the window at once, and in test mode it leaves it. The model follows the code in this respect.

## Findings

| source | as written | input that shows it | evidently intended | confidence | as-written member | corrected member |
|---|---|---|---|---|---|---|
| src/ui.rs:193 | `&title[..max_chars - 3]` slices at a byte offset, which panics when the offset falls inside a multi-byte character | title "aéééééé" (13 bytes) in a 64-pixel-wide window: max_chars is 9, and the cut at byte 6 is inside the third "é" | cut at the last character boundary at or before the offset | not executed | Ui.TruncateTitleAsWrittenPanics | Ui.TruncateTitle |
| src/switcher.rs:326 | the switcher window is always one row tall: `icon_size + padding * 2 + TITLE_HEIGHT` = 88 | 21 windows on a 1920-pixel screen: 20 columns and 2 rows, so the second row and the title bar (at y = 120) lie outside the 88-pixel window | height = rows * (icon_size + padding) + padding + TITLE_HEIGHT, matching where `draw_title_bar` puts the bar | not executed | Switcher.WindowHeightAsWrittenCutsOff | Switcher.WindowHeightHoldsEverything |
