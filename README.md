# go22dos in Dafny

A model of the core of go22dos, in two independent parts.

The first part is the terminal to-do application, written in Rust:

- **`Store`** (`store.dfy`) models the topic/item store `Memory`. It holds a map from topic id to an ordered list of item strings, and a list `idxs` of topic ids that fixes the display order. There are five operations, each addressed by a position in `idxs`: `add_item`, `access_item`, `delete_item`, `add_topic` and `delete_topic`.
  - Each operation is specified once, as a function on a `Snapshot` value.
  - The class `Memory` keeps `data` and `idxs` as fields. Its methods update them in place and end in the state that the matching function describes.
  - Every specification function is proved to preserve the store invariant `WellIndexed`: `idxs` lists every key of `data` exactly once.
- **`Ui`** (`ui.dfy`) models the pure parts of the drawing code:
  - the item format: a status character `'0'` (to do) or `'1'` (done), followed by the text;
  - the check box and text shown for an item;
  - the count of done items per topic;
  - the error raised when the topic position is not addressable.
- **`Navigation`** (`navigation.dfy`) models the key-driven event loop of `main`.
  - `Next` gives the effect of one key on the store and on the loop state: the screen, the selections `on` and `onItem`, and the cached bounds `ubt` and `ub`.
  - `Step` does the same to a `Memory` object in place. `Run` is the loop over a sequence of keys.
  - The keys that make the source panic are collected in `Panics`, and every step requires their absence.
  - `Consistent` is the loop invariant. It is proved to be kept by every key.
- **`Keys`** (`keys.dfy`) holds the key codes.

The second part, **`Editor`** (`editor.dfy`), is the separate kilo-style editor prototype written in C:

- the decoding of terminal escape sequences in `read_key`, as a pure function over the bytes read. The sequences have the control-sequence shape of ECMA-48 section 5.4 (ESC '[' …); which byte stands for which key follows the VT100/xterm conventions, as do the `ESC O` forms;
- the rows of text (`update_row`, `row_insert_char`, `append_row`, `insert_char`);
- the append buffer `abuf_append`;
- serialisation in `rows_to_string`;
- line stripping in `oopen`;
- cursor movement and clamping (`move_cursor`, and the HOME, END and PAGE keys of `process_keypress`);
- the viewport `scroll`.

Some behaviours of the code, stated plainly because they are easy to miss:

- On the splash screen only `t` enters the topic list and `q` quits. Every other key is ignored. It is not passed on as a command.
- Every store failure is the single error `MemoryError::Unknown`. There are no separate kinds for a missing topic, a missing item or a duplicate id.
- TAB does not flip the status. It always stores `"1"` followed by the item's text, and re-appends the item at the end of its topic.
- `delete_topic` removes the first position in `idxs` that holds the id at `on`. It succeeds even when that id is not a key of `data`.

## Model

| member | source | states |
|---|---|---|
| Store.AddItemSpec | src/memory.rs:113-120 | succeeds exactly when position `on` names a topic with an item list; then that topic's list gains `item` at its end, and `idxs`, the key set and every other topic are unchanged; on failure nothing changes; the store invariant is kept |
| Store.AccessItemSpec | src/memory.rs:122-131 | succeeds exactly when the topic is addressable and the item index is within its list, and then returns that item |
| Store.DeleteItemSpec | src/memory.rs:133-140 | succeeds exactly when the topic is addressable; returns the old item `i` and leaves the list one shorter, with the items before `i` in place and the ones after it shifted down by one; nothing else changes; on failure nothing changes; invariant kept |
| Store.AddTopicSpec | src/memory.rs:142-157 | fails exactly when the id is already a key, leaving the store unchanged; otherwise appends the id to `idxs`, maps it to an empty list and leaves every existing topic unchanged; invariant kept |
| Store.DeleteTopicSpec | src/memory.rs:159-174 | succeeds exactly when `on < \|idxs\|`; removes the key `idxs[on]` from `data`, keeps every other topic, and removes the first occurrence of that id from `idxs` (which is position `on` when the invariant holds); on failure nothing changes; invariant kept |
| Store.FirstIndex | src/memory.rs:169 | the position found is the first occurrence of the id |
| Store.Position | src/memory.rs:169 | the linear search returns the first position holding the id |
| Store.RemoveDistinct | src/memory.rs:169-170 | in a list without duplicates, the first occurrence of `s[i]` is `i`, and removing it leaves a duplicate-free list holding every other id |
| Store.KeyOrder | src/memory.rs:76-79 | the topic order built from the keys of a decoded map lists every key exactly once |
| Store.Memory.constructor | src/memory.rs:58-63 | a new store is empty and satisfies the invariant |
| Store.Memory.Load | src/memory.rs:70-82 | a loaded store keeps the decoded map and satisfies the invariant |
| Store.Memory.AddItem | src/memory.rs:113-120 | the result and the new fields are those of `AddItemSpec` on the old fields |
| Store.Memory.AccessItem | src/memory.rs:122-131 | returns what `AccessItemSpec` gives and changes nothing |
| Store.Memory.DeleteItem | src/memory.rs:133-140 | the result and the new fields are those of `DeleteItemSpec`; an item index past the end (a panic in `Vec::remove`) is excluded |
| Store.Memory.AddTopic | src/memory.rs:142-157 | the result and the new fields are those of `AddTopicSpec` |
| Store.Memory.DeleteTopic | src/memory.rs:159-174 | the result and the new fields are those of `DeleteTopicSpec` |
| Store.DeleteFirstRepeatedlyDrops | src/memory.rs:133-140 | deleting item 0 of a topic `n` times leaves exactly its items from `n` on, with every other topic and `idxs` untouched |
| Store.AddTopicTwice | src/memory.rs:146-151 | adding a fresh id succeeds, and adding it again fails and leaves the store as the first call left it |
| Store.WorkScenario | src/memory.rs:113-157 | on an empty store, adding topic "Work", adding one item to it and deleting that item makes reading item 0 fail |
| Ui.Glyph | src/ui.rs:96-100 | the check box is "[ ]" exactly when the item starts with '0', "[X]" exactly when it starts with '1', and "[?]" exactly when it is empty or starts with anything else |
| Ui.Text | src/ui.rs:110 | the shown text is the item without its first character |
| Ui.Encode | src/main.rs:275 | the stored form of a to-do or done item decodes to the same status and the same text |
| Ui.EncodeDecoded | src/ui.rs:96-114 | every item whose status is known is the encoding of its decoded status and text |
| Ui.DoneCount | src/ui.rs:51-53 | the number of items starting with '1' is at most the item count |
| Ui.DoneCountExtremes | src/ui.rs:63-66 | the done count equals the item count exactly when every item is done, and is 0 exactly when none is |
| Ui.DoneCountRemove | src/ui.rs:63-66 | removing one item lowers the done count by one exactly when that item was done |
| Ui.TopicLines | src/ui.rs:37-77 | one line per topic id, in order, with its done count and item count (done never above total), and only the line at `on` highlighted |
| Ui.ItemLines | src/ui.rs:79-121 | fails exactly when the topic position is past `idxs` or its id is not a key; otherwise one line per item, with the item's check box, the item equal to its first character followed by the shown text, and only the line at `onItem` highlighted |
| Ui.ShowsEncoded | src/ui.rs:94-116 | an item stored as the encoding of a status and a text is shown with that status's check box and that text |
| Navigation.Down | src/main.rs:198-203 | down moves one step only while below the last entry, so an in-range selection stays in range |
| Navigation.Up | src/main.rs:204-209 | up moves one step only while above 0 |
| Navigation.KeyChar | src/main.rs:264 | a key code becomes the character of its low byte |
| Navigation.ItemTextKey | src/main.rs:252-269 | backspace drops the last typed character and leaves an empty buffer empty; any other key appends its character |
| Navigation.Panics | src/main.rs:198-335 | a panic is possible only for DOWN, `G` or SELECT on the topic list and DOWN, `G`, DELETE or TAB on an item list; apart from SELECT and TAB it needs an empty list (`ubt - 1` or `ub - 1`) or a DELETE past the end. SELECT also counts the redraw at src/ui.rs:110-114, which slices every item of the topic |
| Navigation.NextTopics | src/main.rs:196-404 | only DELETE changes the store; the item list opens exactly on SELECT, at item 0 with `ub` the topic's item count; the loop fails exactly when DELETE finds no topic; ESC and `e` return to the splash screen; the store invariant is kept |
| Navigation.NextItems | src/main.rs:240-346 | only TAB and DELETE change the store, and neither changes `idxs`; `on` and `ubt` are kept; ESC and `e` return to the topic list; the loop fails exactly when TAB or DELETE finds no topic or no item; the store invariant is kept |
| Navigation.Next | src/main.rs:185-413 | after `main` has returned a key changes nothing; the store changes only on DELETE, TAB or ESC; the program quits exactly on `q` at the splash screen; the store invariant is kept |
| Navigation.ItemScreensRedraw | src/ui.rs:94-116 | on every item screen the invariant makes every item of the selected topic sliceable, so the item-list redraw draws one line per item and TAB cannot panic |
| Navigation.Toggle | src/main.rs:292-296 | succeeds exactly when the item exists; the item is removed and `"1"` followed by its text is appended to the same topic, so the count is unchanged and nothing else changes; invariant kept |
| Navigation.NextTopicsKeepsConsistent | src/main.rs:192-404 | every key of the topic list keeps the loop invariant |
| Navigation.NextItemsKeepsConsistent | src/main.rs:236-346 | every key of an item list keeps the loop invariant |
| Navigation.NextKeepsConsistent | src/main.rs:169-415 | every key that does not panic keeps the loop invariant: a well-indexed store, bounds equal to the store's counts, selections in range |
| Navigation.ReplayKeepsConsistent | src/main.rs:169-415 | the invariant holds after any sequence of keys that does not panic |
| Navigation.ReplayAfterEnd | src/main.rs:406-411 | once `main` has returned, by quitting or by an error, further keys change nothing |
| Navigation.ChordSelectsFirst | src/main.rs:210-216 | `g g` selects the first entry of the current list (topics, or items as at lines 327-333) and changes nothing else |
| Navigation.ChordOtherKeyIsNoOp | src/main.rs:327-333 | `g` followed by any other key consumes that key and leaves the whole state as it was |
| Navigation.SelectionKeys | src/main.rs:198-220 | in a non-empty list, down and up keep the selection in range and move it exactly unless it is at the end, and `G` selects the last entry |
| Navigation.TopicChangesReset | src/main.rs:373-393 | committing a topic id fails exactly when the id is already a key; otherwise the id is appended, `ubt` becomes the new topic count and `on` is 0; deleting a topic fails exactly when there are none, otherwise removes the selected id, recomputes `ubt` and resets `on` |
| Navigation.TopicTextTakesEveryKey | src/main.rs:357-367 | in the topic text input every key up to ESC, backspace included, appends its character |
| Navigation.ItemTextCommits | src/main.rs:252-290 | ESC appends a to-do item with the typed text at the end of the selected topic, grows `ub` by one and selects item 0 |
| Navigation.TabMarksDone | src/main.rs:292-299 | TAB fails exactly on an empty selection; otherwise the item is moved to the end marked done with the same text, the count and the selection stay, and the done count rises by one unless it was done already |
| Navigation.ItemDeleteAndExit | src/main.rs:300-343 | DELETE removes the selected item, lowers `ub` by one and selects item 0; ESC and `e` return to the topic list with `on` kept |
| Navigation.ToggleItem | src/main.rs:292-296 | the access, delete, add sequence on the store object ends in the state and result of `Toggle` |
| Navigation.Step | src/main.rs:185-413 | one key on the store object ends in the store and loop state that `Next` gives |
| Navigation.Run | src/main.rs:169-415 | the loop over the keys ends in the state of replaying them from the splash screen, and keeps the invariant when the loaded store is well indexed |
| Editor.SignedChar | go22dos_c/main.c:142-144 | a byte read into a signed `char` is in [-128, 128), equals the byte below 0x80, and keeps the byte as its low byte |
| Editor.ReadKey | go22dos_c/main.c:97-145 | a byte other than ESC is returned as it is, consuming one byte; after ESC the key is ESC or a special key; missing bytes give ESC; a special key always comes from ESC and at least three bytes |
| Editor.ReadKeyDecodesCsi | go22dos_c/main.c:110-133 | every special key is decoded from its CSI sequence, whatever follows, consuming exactly that sequence |
| Editor.ReadKeyAliases | go22dos_c/main.c:113-138 | `1~` and `7~` decode to HOME, `4~` and `8~` to END, and ESC O H / ESC O F to HOME / END |
| Editor.ReadKeyRecognisedOnly | go22dos_c/main.c:97-145 | after ESC, a special key is read only from its CSI sequence or one of its alternative forms, consuming exactly that sequence; ESC followed by a byte other than `[` and `O`, ESC `O` followed by anything but `H` or `F`, and ESC `[` followed by neither a digit nor one of A, B, C, D, H, F read as ESC |
| Editor.ReadKeyUnknownDigit | go22dos_c/main.c:111-124 | a digit sequence that is cut short, not closed by `~`, or has an unmapped digit decodes to ESC |
| Editor.UpdateRow | go22dos_c/main.c:305-315 | the rendered form is an exact copy of the row's bytes, so `rsize == size` |
| Editor.InsertAt | go22dos_c/main.c:334 | an insertion point outside [0, size] becomes `size`; one inside is kept |
| Editor.RowInsertChar | go22dos_c/main.c:333-340 | the row grows by one byte, the new byte is the low byte of `c` at the clamped point, bytes before it are unchanged and bytes after it shift right by one; render is rebuilt |
| Editor.Stripped | go22dos_c/main.c:378-380 | the kept line is a prefix of the read line that does not end in '\n' or '\r', and every dropped byte is one of those two |
| Editor.StripLineEnd | go22dos_c/main.c:378-380 | the loop's final length gives exactly the stripped line |
| Editor.JoinedLength | go22dos_c/main.c:350-365 | the serialised text has length equal to the sum of size + 1 over the rows |
| Editor.CopyInto | go22dos_c/main.c:360 | after the copy the buffer holds its earlier prefix followed by the row's bytes, and every byte after the copied ones is unchanged |
| Editor.AppendBuffer.constructor | go22dos_c/main.c:186 | a new buffer is empty |
| Editor.AppendBuffer.Append | go22dos_c/main.c:188-195 | on success the buffer is its old contents followed by `s[0..n]`; when the reallocation fails it is unchanged |
| Editor.Editor.Init | go22dos_c/main.c:202-215 | the cursor and offsets start at 0 with no rows, and one screen line is kept for the status bar |
| Editor.Editor.Scroll | go22dos_c/main.c:217-225 | with at least one text row and column, the cursor ends inside the window, and an offset moves only when the cursor was outside along that axis |
| Editor.Editor.AppendRow | go22dos_c/main.c:317-331 | the row count grows by one, the new last row holds `s[0..len]` rendered, the existing rows and the cursor are unchanged, and the invariant is kept |
| Editor.Editor.InsertChar | go22dos_c/main.c:342-348 | on the line past the last row a new row is added first; the cursor's line gets the low byte of `c` at the cursor and the cursor moves right by one; every other row is unchanged; the row count grows only when a row was added |
| Editor.Editor.ClampColumn | go22dos_c/main.c:436-438 | the column becomes the smaller of itself and the length of the cursor's line (0 past the last row), and nothing else changes |
| Editor.Editor.MoveCursor | go22dos_c/main.c:408-439 | the cursor row stays in [0, n_rows] and the column ends clamped to its line; left at column 0 wraps to the end of the previous line, right at the end of a line wraps to column 0 of the next; up and down move one line within bounds |
| Editor.Editor.PageMove | go22dos_c/main.c:462-476 | page up ends on the line one screen above the top of the window (at least 0); page down ends one screen below the window's bottom line (at most n_rows); the column never grows; the rows are unchanged |
| Editor.Editor.ProcessKeypress | go22dos_c/main.c:441-500 | CTRL-Q and only CTRL-Q ends the program; carriage return, CTRL-L, ESC, CTRL-S and backspace leave the text and cursor as they were; HOME goes to column 0 and END to the end of the line; the arrow keys move the cursor exactly as `move_cursor` does and PAGE UP / PAGE DOWN exactly as the page move does, without changing the rows; every other key inserts its low byte at the cursor exactly as `insert_char` does, leaving the other rows unchanged; the offsets and screen size never change |
| Editor.Editor.Open | go22dos_c/main.c:367-385 | each line read becomes a new row in order, without its trailing line-break bytes; the existing rows, the cursor, the offsets and the screen size are kept |
| Editor.Editor.RowsToString | go22dos_c/main.c:350-365 | the buffer and its reported length both equal the sum of size + 1, and its bytes are every row followed by '\n' |

## Left out

- Reading and writing the JSON file is not modelled: `std::fs`, `serde_json`, `serialize` and `save` are foreign calls. `deserialize` is modelled from the decoded map on.
- The `Arc<Mutex<..>>` around the store, `lock_unwrap` and lock poisoning are left out. The program has a single thread, so `Memory` is a plain object.
- All ncurses drawing is left out: `startup`, `start_screen`, the drawing in `display_topic_ids` and `display_items`, `flash`, `endwin`, cursor visibility and echo. `Ui` keeps only what is drawn, as values. The colour and splash settings in src/config.rs are left out too.
- The completion ratio `m / n` is a float (NaN for an empty topic). Only the integer counts are kept.
- The `whoami` user and host line is left out.
- The command-line file argument and `init` are left out. `Run` starts from an already loaded `Memory`.
- Navigation.Step does not redraw after a key. The item-list redraw slices every item of the selected topic. SELECT's redraw is counted in `Panics`. On the item screens the loop invariant keeps every item of that topic sliceable (`ItemScreensRedraw`), so the later redraws cannot panic.
- Navigation.Run: a panic is excluded by its requires rather than modelled as an outcome. The panics are `ubt - 1` or `ub - 1` on an empty list, the `unwrap` on SELECT, `Vec::remove` past the end, and `&item[1..]` on an item that is empty or starts with a multi-byte character, in TAB or in the item-list redraw.
- Editor.ReadKey: the blocking wait for the first byte and the read timeouts are left out. The input is the bytes available, and a timeout is the input running out.
- The C terminal plumbing is left out: raw mode, `die`, `get_window_size`, `get_cursor_position`, `refresh_screen`, `draw_rows` and `draw_status_bar`. The C `main` loop is left out as well. Editor.Editor.Init therefore takes the window size as a parameter.
- The file handling in `save` is left out: `open`, `ftruncate`, `write` and `strftime`. CTRL-S changes no modelled state.
- `fopen` and `getline` in `oopen` are left out. Editor.Editor.Open takes the lines already read.
- C `int` overflow is not modelled. Every counter is an unbounded integer.
- The rows are a sequence of `Row` values rather than a `realloc`-ed array of structs. Row updates replace an element of the sequence, so aliasing of addresses into the row array is not modelled. The NUL terminators are written into the copies but are not part of `chars` or `render`.
- Editor.Editor.Scroll and Editor.Editor.PageMove require at least one text row, and Scroll also requires one column. On a one-line terminal `rows` is 0. `scroll` then sets the row offset to `c_y + 1`, and PAGE_DOWN can set `c_y` to -1.
- Editor.Editor.PageMove states that the column never grows, but not its exact final value.
- Editor.Editor.ProcessKeypress: for PAGE UP and PAGE DOWN it carries over what Editor.Editor.PageMove states, so the final column is bounded but not stated exactly.
