# Copy-on-write document sharing (`src/servo/dom/cow.rs`)

This project models the copy-on-write scope that lets the content task keep
changing document nodes while a forked reader (the layout task) keeps seeing
the nodes as they were when it was forked.

A `Scope` owns a pool of handles. Each handle has two views:

- a reader view (`read_ptr`), which the reader sees;
- a writer view (`write_ptr`), which the writer sees.

While no reader is forked, both views are the same cell. If a reader is
forked, the first write to a handle whose views are still shared does three
things:

- it clones the reader value into a fresh cell;
- it points the writer view at that cell;
- it pushes the handle onto the intrusive dirty list (`first_dirty`, then
  each handle's `next_dirty`).

`reader_joined` walks the dirty list and discards each stale reader copy. It
points the reader view at the writer's copy, unlinks the handle, and clears
the list.

Files:

- `wrappers.dfy`: module `Wrappers`, an `Option` type for the Rust code's
  null-or-pointer fields.
- `dirty_list.dfy`: module `DirtyList`, the intrusive list as a pure
  predicate `Chain(next, first, d)`. It says that following the links from
  `first` visits `d` and then reaches the null link. The lemmas prove three
  things:
  - no handle appears twice;
  - the links determine the list;
  - pushing onto the head gives a longer chain.
- `cow.dfy`: module `Cow`, class `Scope`. Handles are indices into the
  per-handle sequences `readPtr`, `writePtr`, `readAux` and `nextDirty`. These
  sequences are the fields of `HandleData`. Views are cell ids into
  `cells: map<Cell, T>`, the memory the scope allocates. So the Rust code's
  pointer test `read_ptr == write_ptr` is a test on cell ids:
  - `clone` allocates a fresh id;
  - `free` removes an id from `cells`.

  `Valid()` is the object invariant. It says five things:
  - every view is an allocated cell;
  - no cell belongs to two handles;
  - the ghost `Dirty` list is the list the links reach from `firstDirty`;
  - a handle is on it exactly when its views diverge;
  - it is empty unless a reader is forked.
- `cow_test.dfy`: module `CowTest`, the `interspersed_execution` test as a
  verified method. It runs `iter1` fork/join rounds of `iter2` writes on two
  nodes, with the reader's reads placed between the writer's writes.

The Rust code's `assert`s are modelled as `requires` clauses. These are
`reader_forked` (no reader yet, empty dirty list), `reader_joined` (a reader
is forked) and `aux` (aux data is present). A failing `assert` stops the
task that calls it, so callers must never let one fail.

## Model

| member | source | states |
|---|---|---|
| `DirtyList.ChainNoRepeat` | src/servo/dom/cow.rs:201-211 | two positions of a list reached by following `next_dirty` links to null never hold the same handle |
| `DirtyList.ChainDistinct` | src/servo/dom/cow.rs:201-211 | every handle appears on a dirty list at most once |
| `DirtyList.ChainUnique` | src/servo/dom/cow.rs:201-211 | the links alone determine the dirty list: two lists reached from the same head are equal |
| `DirtyList.ChainPush` | src/servo/dom/cow.rs:229-230 | setting `h.next_dirty = first_dirty` and then `first_dirty = h`, for a handle not on the list, gives the list with `h` prepended |
| `Cow.PoolDirtyExact` | src/servo/dom/cow.rs:198-233 | in any pool state, each handle is on the dirty list at most once and only when its views diverge; the `next_dirty` links from `first_dirty` determine the list; `first_dirty` is null exactly when the list is empty |
| `Cow.PoolClone` | src/servo/dom/cow.rs:226-231 | giving a shared handle a fresh writer cell holding its reader value, and pushing it on the dirty list, keeps the pool invariant; the handle is now diverged and dirty |
| `Cow.PoolStore` | src/servo/dom/cow.rs:232 | updating the value in a handle's writer cell keeps the pool invariant |
| `Cow.PoolAlloc` | src/servo/dom/cow.rs:239-247 | appending a handle whose two views are one fresh cell and whose link is null keeps the pool invariant |
| `Cow.JoinStep` | src/servo/dom/cow.rs:203-210 | one iteration of the join walk discards the stale reader cell, points the reader view at the writer cell and clears the link of the current handle, and leaves the not-yet-visited handles untouched |
| `Cow.JoinEnd` | src/servo/dom/cow.rs:201-215 | after the walk has visited the whole dirty list, every reader view equals its writer view, every link is null, the writer values are unchanged, non-dirty handles keep their reader cell, and the pool invariant holds with an empty list |
| `Cow.Scope.DirtyListExact` | src/servo/dom/cow.rs:198-233 | a handle is on the dirty list if and only if its views diverge; no handle is listed twice; the list is the one the links reach from `first_dirty`; it is empty when no reader is forked |
| `Cow.Scope.constructor` | src/servo/dom/cow.rs:180-184 | a new scope has no reader forked, an empty free list and an empty dirty list |
| `Cow.Scope.IsReaderForked` | src/servo/dom/cow.rs:188-190 | returns whether a reader is forked; when none is, no handle is dirty or diverged |
| `Cow.Scope.ReaderForked` | src/servo/dom/cow.rs:192-196 | requires that no reader is forked and the dirty list is empty; afterwards a reader is forked and nothing else has changed |
| `Cow.Scope.ReaderJoined` | src/servo/dom/cow.rs:198-216 | requires a forked reader; afterwards every reader view is the old writer view, writer views are unchanged, no handle is diverged or linked, the dirty list is empty, no reader is forked, non-dirty handles keep their reader cell and each dirty handle's stale reader cell is freed |
| `Cow.Scope.SyncDirty` | src/servo/dom/cow.rs:202-210 | the `while` loop of `reader_joined`: it walks `first_dirty`/`next_dirty` in place and leaves every dirty handle synchronised and unlinked |
| `Cow.Scope.Read` | src/servo/dom/cow.rs:218-221 | the writer's read returns the writer view |
| `Cow.Scope.Write` | src/servo/dom/cow.rs:223-233 | applies `f` to the writer view only. If a reader is forked, the reader view stays as it was; if not, it is the updated shared cell. A first write while forked to a shared handle clones into a fresh cell and pushes the handle on the head of the dirty list. Otherwise no clone is made and the dirty list and links are untouched. Other handles keep both views |
| `Cow.Scope.NewHandle` | src/servo/dom/cow.rs:237-252 | the new handle is appended to the free list; both its views are one cell holding `v`; it has no aux data, a null link and is not dirty; older handles keep their views, divergence and aux data; the fork state and the dirty list are unchanged |
| `Cow.Scope.ReaderRead` | src/servo/dom/cow.rs:111-114 | the reader's read returns the reader view, which is the writer view when the handle has not diverged |
| `Cow.Scope.HasAux` | src/servo/dom/cow.rs:116-119 | true exactly when aux data is associated with the handle |
| `Cow.Scope.SetAux` | src/servo/dom/cow.rs:121-127 | associates aux data with the handle and changes nothing else |
| `Cow.Scope.Aux` | src/servo/dom/cow.rs:129-133 | requires aux data to be present and returns it |
| `CowTest.ReadCharacteristic` | src/servo/dom/cow.rs:284-289 | returns a chicken's eggs per day or a bull's horns |
| `CowTest.Mutate` | src/servo/dom/cow.rs:277-282 | increments the chicken's eggs per day or the bull's horns by one, keeping name and species |
| `CowTest.Round` | src/servo/dom/cow.rs:323-329 | across a round of `iter2` reads and writes, the reader keeps seeing the values of the fork while each writer value grows by `iter2` |
| `CowTest.InterspersedExecution` | src/servo/dom/cow.rs:291-335 | the reader's reads at each fork equal `i * iter2`; inside a round they equal the values at the fork; after `iter1` rounds the reader sees `iter1 * iter2` for both nodes |

## Left out

- Raw memory management: `libc::malloc`/`calloc`/`free`, the value copy in `clone`, `free_handle` and the `ScopeResource` destructor. Allocating a cell is taking a fresh id; freeing a cell is removing its id from `cells`. Freeing every handle when the scope is dropped is not modelled, so the `handles_get_freed` test is not modelled either.
- `wrap`, `unwrap` and `null_handle`: these are raw pointer conversions. A handle is a pool index and a null handle is `None`. `Handle::eq` and `ne` therefore become equality of indices.
- Cow.Scope.Write: the closure's result type `U` is not modelled. In the source, `f` changes the writer copy through `mut` fields. In the model it is a function `T -> T` whose result becomes the new writer value.
- Cow.Scope.ReaderRead: the source passes the reader view to a closure and returns the closure's result; this member returns the view itself.
- Cow.Scope.Read: the source passes the writer view to a closure and returns the closure's result; this member returns the view itself.
- Cow.Scope.Aux: the source passes the aux data to a closure and returns the closure's result; this member returns the aux data itself.
- The reader-side `Handle` methods (`read`, `has_aux`, `set_aux`, `aux`) are members of `Scope` in the model, because the handle data lives in the scope's pool.
- Tasks and channels: sending handles between tasks, and the ports, channels and `spawn_listener` of the test. The reader's reads are sequential calls made between the writer's writes.
- Reader-side mutation through `mut` fields inside `T`: reads are pure.
- The lifetime of aux data, which is the reader's responsibility.
- CowTest.InterspersedExecution: the test's counters and iteration counts are `uint` in the Rust code; the model uses unbounded `nat`, so wrap-around at 2^64 is not modelled (the test's own counts stay far below it).
- `debug!` logging, including the logging read in `handle`.
- `src/servo/dom/bindings/window.rs`: JavaScript binding glue made of foreign calls and casts, with no logic to model.
