# Clipboard history store of clipse, in Dafny

clipse is a clipboard-history manager. A background listener polls the
system clipboard. It keeps a history of at most 50 distinct text values,
newest first, and saves it as a JSON file. An interactive browser loads
that file, shows one list row per entry, copies a selected value back to
the clipboard, and deletes a selected entry from the file.

This project models the logic of that store. All of it comes from
`selector/main.go`:

- `history.dfy` (module `History`): the entry record `Entry(value, recorded)`.
  It stands for both `ClipboardItem` and `ClipboardEntry`, which have the same
  fields. The module also holds the predicates on a history: `HasValue`,
  `DistinctValues` and the store invariant `Wellformed`.
- `listener.dfy` (module `Listener`): the linear search `contains`, as the
  method `Contains`. It also holds the insert-with-eviction step of the
  listener loop. `Insert` is that step as a function of the history, the text
  read, a timestamp and the cap. `InsertAll` runs it over a sequence of
  observations. The class `Data` holds the listener's in-memory history,
  which `Data.Record` updates in place just as the Go loop body does, with the
  cap `MaxEntries = 50`.
- `deletion.dfy` (module `Deletion`): the filter loop of `deleteJsonItem`,
  as the method `DeleteEntries`. `Without` is the function that specifies it.
- `display.dfy` (module `Display`): the title function `shorten` (`Shorten`,
  built on `ReplaceNewlines`) and the item-building loop of `newModel`
  (`NewItems`).

Go strings are byte sequences, and `len` and slicing count bytes. Here a
`string` (`seq<char>`) stands for those bytes: one `char` is one byte.
Replacing `"\n"` byte by byte agrees with Go's `strings.ReplaceAll`, because
the newline byte never occurs inside a multi-byte UTF-8 sequence.

`Insert` takes the cap as a parameter. This lets properties be stated for
any cap, for example the cap-2 example. It requires `cap > 0`. With a cap of
0 and an empty history, the Go code would slice `[:-1]` and panic; with the
cap of 50 this cannot happen. The source drops only one entry per insert even
when the history is over the cap, for instance a file that was edited by
hand. The model does the same, so the capacity bound is proved only for
histories that start within the cap.

## Model

| member | source | states |
|---|---|---|
| `Listener.Contains` | selector/main.go:86-93 | returns true exactly when some entry of the history holds the given value; an empty history therefore gives false |
| `Listener.InsertIgnoresEmptyOrPresent` | selector/main.go:55 | an empty text or one already present leaves the history exactly as it was, with no reordering and no new timestamp |
| `Listener.InsertBelowCap` | selector/main.go:62-66 | below the cap a new value gives exactly the new entry followed by the whole old history |
| `Listener.InsertPutsNewestFirst` | selector/main.go:55-66 | a new value lands at index 0; the rest is a prefix of the old history in its old order; the length grows by one below the cap and stays the same at or above it |
| `Listener.InsertEvictsOldest` | selector/main.go:57-59 | at exactly the cap, the result is the new entry followed by the first cap-1 old entries; the length stays at the cap and the evicted oldest value is gone |
| `Listener.InsertKeepsWellformed` | selector/main.go:54-66 | one step keeps the values unique and the length within the cap |
| `Listener.InsertAllKeepsWellformed` | selector/main.go:47-78 | any run of steps from a well-formed history keeps it duplicate-free and within the cap |
| `Listener.CapTwoExample` | selector/main.go:55-66 | with a cap of 2, recording "a", "b", "c" gives ["c", "b"], and recording "b" again changes nothing |
| `Listener.Data.constructor` | selector/main.go:41-45 | the listener starts from the history loaded from disk |
| `Listener.Data.Record` | selector/main.go:54-66 | the new history is the insert step applied to the old one with cap 50; the result says whether it changed, which is when the source saves; a well-formed history stays well-formed |
| `Deletion.Without` | selector/main.go:436-441 | the result is no longer than the input, and holds exactly the input's entries whose value differs from the deleted one |
| `Deletion.WithoutAppend` | selector/main.go:437-440 | the filter keeps relative order: filtering a concatenation is the concatenation of the filtered parts |
| `Deletion.WithoutAbsent` | selector/main.go:436-441 | deleting a value the history does not hold is the identity |
| `Deletion.WithoutRemovesSelected` | selector/main.go:436-441 | with unique values, deleting the value of entry i gives exactly the history without entry i, the others in order |
| `Deletion.WithoutKeepsWellformed` | selector/main.go:436-441 | deleting keeps the values unique and the length within the cap |
| `Deletion.DeleteEntries` | selector/main.go:436-441 | the loop builds exactly the filtered history |
| `Display.ReplaceNewlines` | selector/main.go:294 | same length as the input, with each newline replaced by a space and every other byte kept |
| `Display.Shorten` | selector/main.go:291-297 | at most 50 bytes and no newline. A value of up to 50 bytes keeps its length, with newlines turned to spaces. A longer value gives its first 47 bytes with newlines turned to spaces, followed by "..." |
| `Display.ShortenKeepsShortLine` | selector/main.go:293-294 | a value of at most 50 bytes with no newline is its own title |
| `Display.ShortenIdempotent` | selector/main.go:291-297 | shortening a title again changes nothing |
| `Display.NewItems` | selector/main.go:199-210 | one item per entry, in the same order: the title is the shortened value, the full title is the value, the description is "Copied to clipboard: " followed by the timestamp |

The browser deletes the selected row by passing the row's full title to
`deleteJsonItem` (selector/main.go:307-331). By `NewItems`, that full title
is the value of entry i. When the history is well-formed,
`WithoutRemovesSelected` then says that exactly entry i leaves the file.

## Left out

- Clipboard access (`clipboard.ReadAll`, `clipboard.WriteAll`) is a foreign library call. The text read is a parameter of `Data.Record`. A failed read yields empty text in the source, and empty text is a no-op.
- The timestamp (`time.Now().UTC().String()` split on `"+0000"`) depends on the wall clock. It is an opaque string parameter of `Data.Record`.
- JSON encoding and decoding (`loadDataFromFile`, `saveDataToFile`, `getjsonData`, the marshalling in `deleteJsonItem`, `setBaseConfig`) is library serialisation. The load/save round trip is therefore not modelled. An empty filtered history being written as JSON `null` instead of `[]` is also not modelled.
- File-system I/O and the config bootstrap (`checkConfig`, `createConfigDir`, `createHistoryFile`, `getFullPath`) and the `clear` command, which only rewrites the file through `setBaseConfig`, are left out as I/O.
- The listener's infinite polling loop, its sleep and its signal channel are timing and signals. `InsertAll` stands for any finite run of its iterations.
- The two processes share one file with no locking. A listener that loaded earlier can write back an entry the browser has since deleted. That concurrency is not modelled.
- Process management in `main` (`pkill`, `nohup go run`) is process spawning.
- The terminal UI is library state the model cannot see: `model.Update`, `View`, `Init`, key maps, styles, window resizing, and the delegate's `RemoveItem` and status messages.
