# xkcd offline index — a Dafny model

The program keeps a local index of the numbered xkcd comics. Each run asks
the xkcd site for the latest comic, downloads every earlier comic the index
does not hold yet, sorts the index by comic number and writes it back to
disk. The repository holds two generations of the in-memory index:

- the `Comics` type of package `comic` (comic/collection.go), a slice of
  comics with a `sorted` flag that selects binary search or a linear scan;
- the older `collection` of package `model` (infrastructure/model/xkcd.go),
  a slice with a deduplicating `Add`, first-match lookups and a `Remove`
  that shifts without shrinking. The sync run of main.go uses this one,
  through the functions of index-manager.

This project models both collections, the index-manager glue (with the
network as an oracle) and one sync run of main.go as a sequential
abstraction, and proves what they promise.

Files and modules:

- `wrappers.dfy` — `Wrappers`: `Option` (Go's nil pointer) and `Result`
  (Go's `(value, error)` pair).
- `xkcd.dfy` — `Xkcd`: the `Comic` record shared by both generations, and
  the predicates the contracts use (`HasNumber`, `NonDecreasing`,
  `DistinctNumbers`) with the reference first-match definition `FirstIndex`.
- `sorting.dfy` — `Sorting`: `Swapped` (the effect of `Swap`) and
  `SortByNumber`, the sort both `Sort` operations use.
- `collection.dfy` — `ComicCollection`: comic/collection.go, a class `Comics`
  with fields `comics: seq<Comic>` and `sorted: bool`, the object invariant
  `Valid()` ("sorted implies non-decreasing by number"), and the two search
  helpers as functions.
- `model.dfy` — `Model`: infrastructure/model/xkcd.go, a class `Collection`
  with field `comics: seq<Comic>`.
- `index_manager.dfy` — `IndexManager`: index-manager/xkcd-index-manager.go.
  The network, the JSON decoder and base64 encoding are the three function
  fields of a `Web` value.
- `sync.dfy` — `Sync`: `getLastComicNum`, `synchronize` and `doSync` of
  main.go.
- `sync_example.dfy` — `SyncExample`: an end-to-end scenario (latest is 5,
  comic 3 fails once) worked through on a concrete `Web`.

Notes on how the source was read:

- `getBinarySearch` and `getSequentialSearch` are called at
  comic/collection.go:69 and :71 but are not defined in
  comic/collection.go. The model writes them from the call site (the closed
  interval `[0, len-1]`) and from the doc comment of `Get` (a miss is
  `(-1, nil)`): the binary search takes `mid = (lo + hi) / 2`, returns on
  equality, goes right when the middle number is smaller and left
  otherwise, and misses on `lo > hi`.
- A stable sort is not promised: the code calls `sort.Sort`, which is not
  stable. The model promises only "ordered by number and a permutation".
- The `model` methods take the slice as a value receiver but `Add` and
  `Remove` write the package-level `Comics`. Every caller uses `Comics`
  itself as the receiver, so both are one `comics` field here.
- The global `model.Comics` is an explicit `Model.Collection` argument of
  the index-manager and sync members.

## Model

| member | source | states |
|---|---|---|
| `Xkcd.FirstIndex` | infrastructure/model/xkcd.go:67-79 | the smallest index holding the number, or -1 exactly when no comic has it |
| `Sorting.Swapped` | comic/collection.go:123-126 | the two positions are exchanged, every other position is unchanged, and the contents are a permutation |
| `Sorting.SortByNumber` | comic/collection.go:105-111 | the result is non-decreasing by number and a permutation of the input |
| `ComicCollection.SequentialSearch` | comic/collection.go:70-71 | a miss exactly when no comic from the start position has the number; a hit is the first such position and carries that comic |
| `ComicCollection.BinarySearch` | comic/collection.go:68-69 | any hit lies in [lo, hi] and holds the number; on a non-decreasing sequence a number present in [lo, hi] is always found |
| `ComicCollection.SearchPathsAgree` | comic/collection.go:58-75 | on a non-decreasing sequence binary and linear search agree on found / not found for every number |
| `ComicCollection.SearchPathsAgreeExactly` | comic/collection.go:58-75 | with distinct numbers as well, both paths return the same index and comic |
| `ComicCollection.RemovedStaysOrdered` | comic/collection.go:99-100 | deleting one position from a non-decreasing sequence leaves it non-decreasing |
| `ComicCollection.Comics.constructor` | comic/collection.go:10-14 | the zero value is empty and not marked sorted |
| `ComicCollection.Comics.Load` | comic/collection.go:16-30 | on an empty collection the contents become the items in order and `sorted` is set; otherwise nothing changes; the invariant holds when the items are sorted |
| `ComicCollection.Comics.Add` | comic/collection.go:32-46 | the comic is appended after the unchanged earlier ones; `sorted` is cleared exactly when the previous last number is larger; the invariant is preserved |
| `ComicCollection.Comics.Get` | comic/collection.go:58-75 | a hit holds the number and carries that comic; under the invariant a miss (-1, None) means the number is absent; unsorted lookups return the first match |
| `ComicCollection.Comics.Contains` | comic/collection.go:48-56 | true only when some comic has the number, and under the invariant exactly then; equal to `Index(n) > -1` |
| `ComicCollection.Comics.Index` | comic/collection.go:84-89 | the index component of `Get`: -1 or a position holding the number |
| `ComicCollection.Comics.GetAll` | comic/collection.go:77-82 | the contents in their current order |
| `ComicCollection.Comics.Remove` | comic/collection.go:91-103 | -1 and indices at or past the end return false and change nothing; a valid index returns true and removes exactly that position; `sorted` and the invariant are kept |
| `ComicCollection.Comics.Sort` | comic/collection.go:105-111 | the contents become a permutation ordered by number and `sorted` is set, whatever it was |
| `ComicCollection.Comics.Len` | comic/collection.go:113-116 | the number of comics held |
| `ComicCollection.Comics.Less` | comic/collection.go:118-121 | compares two positions by number only |
| `ComicCollection.Comics.Swap` | comic/collection.go:123-126 | exchanges exactly two positions; `sorted` is untouched |
| `Model.Added` | infrastructure/model/xkcd.go:36-43 | after adding, the number is held; a number is held exactly when it was before or is the new one; distinct numbers stay distinct; the old contents stay as a prefix |
| `Model.ShiftedLeft` | infrastructure/model/xkcd.go:85-89 | same length; earlier positions unchanged; each later comic one place left; the last slot keeps its old comic |
| `Model.Collection.constructor` | infrastructure/model/xkcd.go:25-30 | the index starts empty |
| `Model.Collection.Add` | infrastructure/model/xkcd.go:36-43 | a number already present changes nothing, otherwise the comic is appended; distinct numbers stay distinct |
| `Model.Collection.Contains` | infrastructure/model/xkcd.go:45-52 | true exactly when some comic has the number (Get is not None) |
| `Model.Collection.Get` | infrastructure/model/xkcd.go:54-65 | None exactly when the number is absent, otherwise the first comic with that number |
| `Model.Collection.Index` | infrastructure/model/xkcd.go:67-79 | the smallest position holding the number; -1 exactly when it is absent |
| `Model.Collection.Remove` | infrastructure/model/xkcd.go:81-90 | -1 and indices past the end change nothing; a valid index shifts later comics left and keeps the length |
| `Model.Collection.Len` | infrastructure/model/xkcd.go:93-96 | the number of comics held |
| `Model.Collection.Less` | infrastructure/model/xkcd.go:98-101 | compares two positions by number only |
| `Model.Collection.Swap` | infrastructure/model/xkcd.go:103-106 | exchanges exactly two positions |
| `IndexManager.FetchJson` | index-manager/xkcd-index-manager.go:113-151 | a transport failure is returned as such, a decoder failure becomes a decode error with the source's prefix, and success carries the decoded comic |
| `IndexManager.MetadataResource` | index-manager/xkcd-index-manager.go:58-62 | number 0 selects the latest-comic resource, any other number its own resource |
| `IndexManager.DownloadComic` | index-manager/xkcd-index-manager.go:52-79 | a metadata failure is returned unchanged; on success only `image` may differ from the fetched comic; a failed image download leaves it unchanged; a successful one sets `image` to the encoding of the bytes |
| `IndexManager.DownloadDependsOnlyOnItsResource` | index-manager/xkcd-index-manager.go:58-62 | the outcome depends on no metadata resource other than the one chosen by the number |
| `IndexManager.LoadComics` | index-manager/xkcd-index-manager.go:39-48 | every given comic is appended, in order, after the existing ones; nothing is removed, replaced or deduplicated |
| `IndexManager.AddToCollection` | index-manager/xkcd-index-manager.go:82-86 | the index changes as the collection's deduplicating Add says |
| `IndexManager.Contains` | index-manager/xkcd-index-manager.go:89-93 | true exactly when the index holds the number |
| `IndexManager.Count` | index-manager/xkcd-index-manager.go:96-100 | the length of the shared index |
| `IndexManager.Sort` | index-manager/xkcd-index-manager.go:102-106 | the shared index becomes a permutation of itself ordered by number |
| `Sync.MissingExactly` | main.go:72-75 | the scheduled ids are exactly those in [1, last) not held, each once, in ascending order |
| `Sync.FetchedExactly` | main.go:80-99 | a comic is among the results exactly when some scheduled id downloads to it; there are no more results than ids |
| `Sync.AddAllExactly` | main.go:113-115 | draining keeps the earlier index as a prefix; a number is held afterwards exactly when it was before or a result carries it; distinct numbers stay distinct |
| `Sync.GetLastComicNum` | main.go:149-161 | comic 0 is downloaded; on failure the run stops before the index is touched; on success it is added and its number returned |
| `Sync.Schedule` | main.go:72-81 | exactly the ids of [1, last) that the index does not contain are scheduled, evaluated against the index before any add |
| `Sync.DownloadAll` | main.go:80-99 | each scheduled id is downloaded once; failures contribute nothing and are not retried |
| `Sync.Drain` | main.go:113-115 | every successful result is passed to AddToCollection |
| `Sync.Synchronize` | main.go:62-116 | the index becomes the old index plus every successful download of its missing ids below the bound |
| `Sync.DoSync` | main.go:51-60 | a failed latest fetch aborts with the index unchanged; otherwise the written index is the synchronised one, sorted by number |
| `Sync.RunCoversMissing` | main.go:51-60 | for a server that answers each id with that comic, an id below the latest is held after a run exactly when it was held before or its download succeeded |
| `SyncExample.FirstRunSkipsFailedId` | main.go:62-116 | latest 5 with 3 failing: a run from an empty index ends holding 5, 1, 2, 4 |
| `SyncExample.SecondRunTriesOnlyTheMissingId` | main.go:72-75 | against an index holding 1, 2, 4, 5 only id 3 is scheduled |
| `SyncExample.SecondRunCompletes` | main.go:62-116 | the second run, with 3 now available, adds just comic 3 |

## Left out

- Concurrency: the mutexes of comic/collection.go and index-manager, and in
  main.go the goroutines, the wait group, the 20-slot semaphore, the result
  channel and its closer (main.go:65-115). `synchronize` is modelled as its
  three phases run one after the other. Also absent with it: the
  unsynchronised `n--` from the goroutines (the drain loop can then read a
  nil from the closed channel) and the semaphore being held across the send.
- Sync.Drain: the source adds results in download-completion order, which is
  not determined; the model adds them in ascending id order. The final sort
  and the deduplicating Add make the order matter only when two downloads
  return the same number.
- Pointers: both collections hold `*XKCD` in the source (model) or return
  one (comic `Get`); the model holds and returns values, so aliasing between
  the index and a caller's pointer is not captured.
- Sorting.SortByNumber: Go's `sort.Sort` algorithm is not reproduced and the
  sequence of Less/Swap calls it makes is not modelled; both `Sort`
  operations promise only a permutation ordered by number, not stability.
- HTTP transport, JSON decoding and base64 (webclient, net-manager,
  image-service, tools/imaging, `fetch`/`downloadImage` in
  comic/private-funcs.go): the three oracle fields of `IndexManager.Web`.
  A JSON body of `null` decodes to a nil pointer without an error in Go and
  the image step would then dereference it; the decoder oracle returns a
  comic or an error, so that panic is not modelled.
- Persistence (file-manager, shared/utils.go, `loadComics` and
  `writeComics` in main.go): disk I/O. `Sync.DoSync` returns the sequence it
  would hand to the writer; a write failure is not modelled.
- Logging, user and path lookup (tools/logger, infrastructure/logger,
  tools/util, infrastructure/util): side effects with no bearing on the index.
- main.go's flags, `spinner`, and the `stat`/`dump` printing; main-ws.go, an
  HTTP server (its `getTotalComics` indexes the last comic of a possibly
  empty index).
- `GetComics` and `GetComic` of index-manager: the first only hands out the
  global slice; the second destructures two results from `model.Comics.Get`,
  which returns one, so it does not compile.
- comic/indexer.go (refers to a package-level `Comics` variable and mutex
  that do not exist), comic/xkcd.go (`Download` assigns the fetched pointer
  to its local receiver, so the caller's comic is never filled; the rest is
  I/O) and comic/doc.go (prose about an older `type Comics []XKCD`).
- ComicCollection.Comics.Remove: requires `index >= -1`; the source does not
  guard indices below -1 (comic/collection.go:95) and would panic on them.
- Model.Collection.Remove: requires `-1 <= index` and `index != len`; both
  an index below -1 and an index equal to the length pass the guard at
  infrastructure/model/xkcd.go:85, and the slice expressions at :89 then
  panic.
- Integer width: comic numbers and indices are Go `int` (64 bits); the model
  uses unbounded integers, so overflow of `lo + hi` is not modelled.
