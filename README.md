# Bookshelf shelf reconciler in Dafny

The bookshelf web application keeps a user's books in two columns, "To Read"
and "Completed", and moves a book between them by drag and drop. This project
models the bookshelf page's reconciler. The reconciler holds the ordered list
of book records and the book being dragged. When a drop lands on the other
column, it asks the backend to change the book's status. Only if the backend
accepts does it rewrite that one record and send the recounted reading stats.

- `book.dfy` (module `BookTypes`): the `Book` record, the two-valued `Status`,
  and the status names used both as stored values and as the column ids.
- `reconcile.dfy` (module `Reconcile`): the pure expressions of the page.
  These are the lookup by id (`find`), the status rewrite (`map`), the two
  column filters, the per-status counts and the record mapping of the
  initial load. It also holds the lemmas about them: the partition
  identities, the rewrite changing exactly one record, and the counts
  shifting by one book.
- `shelf.dfy` (module `ShelfState`): the class `Shelf` with the fields
  `books` and `active`, and the handlers `Load`, `DragStart` and `DragEnd`.
  These change the fields as the page's state setters do.

Each backend call is an argument that says how the call came out. `Load`
takes `None` for a failed query. `DragEnd` takes `persistOk` for the update's
result. What `DragEnd` sends is returned as a `DropOutcome`: the book update
with a flag for whether a completion timestamp is written, the stats update
keyed by the user id, and the kind of notification shown.

Some behaviours of the page that a reader might not expect:

- The stats sent after a successful move are counted on the list as it was
  before the move. The handler reads the `books` binding it closed over, not
  the list the state update produces. So moving the only "To Read" book to
  "Completed" sends (to read 1, completed 0), not (0, 1).
  `ShelfState.Shelf.DragEnd` states that the counts it sends lag the new list
  by exactly the moved book. `ShelfState.MoveOnlyBookScenario` works through
  that example.
- Only the drop target ids `"toRead"` and `"completed"` move a book. A drop
  on another card, whose id is a book id, does nothing. It is not treated as
  a drop on that card's column.
- The page registers no drag-cancel handler, so there is no cancel
  operation. A drop with no target is `DragEnd` with `over == None`. It
  clears the dragged book and changes nothing else.
- The drop handler looks the book up by the id carried by the drag event,
  not by the `active` field. `DragEnd` therefore takes the id as an argument.
- `title` and `author` are required fields, but nothing checks that they
  are non-empty, so the model does not require it either.

## Model

| member | source | states |
|---|---|---|
| BookTypes.StatusName | src/types/book.ts:6 | a status has one of exactly two names, "toRead" or "completed", and parsing the name gives the status back |
| BookTypes.ParseStatus | src/pages/Index.tsx:80-82 | a drop target id gives a status if and only if it is "toRead" or "completed"; every other id, such as a card's id, gives none |
| BookTypes.ParseNameInverse | src/types/book.ts:6 | parsing and naming are inverse in both directions |
| Reconcile.Find | src/pages/Index.tsx:65 | the result is absent if and only if no book has the id; otherwise it is the book at the first position with that id |
| Reconcile.SetStatus | src/pages/Index.tsx:96-100 | same length and order; each record differs from the old one at most in `status`; records with the id get the new status and all others keep theirs; unique ids stay unique |
| Reconcile.FilterStatus | src/pages/Index.tsx:136-137 | a column is no longer than the list and holds only books of its status |
| Reconcile.FilterMembers | src/pages/Index.tsx:136-137 | a book is in a column if and only if it is on the shelf with that column's status |
| Reconcile.FilterConcat | src/pages/Index.tsx:136-137 | filtering distributes over concatenation, so a column keeps the list's order |
| Reconcile.PartitionSizes | src/pages/Index.tsx:124-125 | the to-read count plus the completed count equals the number of books |
| Reconcile.PartitionMultiset | src/pages/Index.tsx:136-137 | the two columns together hold every book of the list exactly once |
| Reconcile.Columns | src/pages/Index.tsx:136-137 | the two columns are the books of each status, their sizes add up to the list's, and together they are a permutation of it |
| Reconcile.Stats | src/pages/Index.tsx:124-125 | the counts sent add up to the length of the list counted, and each equals its column's size |
| Reconcile.MoveRewritesOne | src/pages/Index.tsx:96-100 | with unique ids the found book is the only one with its id, and the rewrite replaces that one position with the same record under the new status |
| Reconcile.CountAfterReplace | src/pages/Index.tsx:124-125 | replacing one record changes each per-status count by the record that leaves and the record that arrives |
| Reconcile.MoveShiftsCounts | src/pages/Index.tsx:96-103 | with unique ids, moving a book to another status adds one to the target count and removes one from its old status's count |
| Reconcile.SameStatusIsIdentity | src/pages/Index.tsx:84 | with unique ids, rewriting a book to the status it already has changes nothing, which is why the short-circuit loses nothing |
| Reconcile.FormatRow | src/pages/Index.tsx:47-53 | id, title and author are copied; the stored status name is the name of the record's status; a null or empty genre becomes absent and any other genre is kept |
| Reconcile.StoreThenLoad | src/pages/Index.tsx:47-53 | storing a record and loading it back gives the same record, for any genre except the empty string |
| Reconcile.LoadThenStore | src/pages/Index.tsx:47-53 | loading a well-formed row and storing it back gives the same row, for any genre except the empty string |
| Reconcile.FormatRows | src/pages/Index.tsx:47-53 | the loaded list has one record per row in the backend's order, each the mapping of its row (so with the row's id and status), and it stores back as that row for any genre except the empty string |
| ShelfState.Shelf.constructor | src/pages/Index.tsx:22-23 | the page starts with an empty list and no dragged book |
| ShelfState.Shelf.Load | src/pages/Index.tsx:38-62 | on success the list is replaced by the mapped rows with no notice; on failure the list is kept and a load-failure notice is shown |
| ShelfState.Shelf.DragStart | src/pages/Index.tsx:64-69 | the dragged book becomes the first book with the id if there is one; otherwise the dragged book is unchanged; the list is untouched |
| ShelfState.Shelf.DragEnd | src/pages/Index.tsx:71-119 | the dragged book is always cleared. An update is issued if and only if there is a target, a user, a book with the id, a column target and a different status; otherwise nothing is sent or shown and the list is unchanged. The update carries a completion timestamp if and only if the target is Completed. On success only that book's status changes, the pre-move counts go to the user's stats row and a notice names the title and column. On failure the list is unchanged, no stats are sent and a failure notice is shown |

## Left out

- The backend queries and updates (the initial select, the book update and
  the stats update). They become inputs: `Load`'s `rows` is `None` on a query
  error, and `DragEnd`'s `persistOk` is the update's outcome. The outcome of
  the stats update is ignored, as in the page.
- The completion timestamp's value. The current time is not modelled, only
  whether a timestamp is written.
- The text of the notifications beyond their kind and, for a successful
  move, the title and column label. Their display durations are left out too.
- Reconcile.FormatRow: the page casts the stored status to the two-valued
  type without checking it. The model requires the stored status to be one
  of the two names, so it does not model rows with any other status.
- The authentication redirect and the loading flag. These are routing and
  rendering gates, not shelf state.
- All rendering: the columns, the cards, the drag overlay and the profile
  page, which only fetches and displays.
- The drag-and-drop library's collision detection and its sortable and
  droppable hooks. Their behaviour is not visible, and the model takes the
  drop target id they produce as an input.
- Overlapping drags whose backend calls complete out of order, and the
  last-write-wins race between stats updates. This is concurrency; each
  handler is modelled as running to completion on its own.
- The page's functional state update applies the rewrite to the latest list
  rather than the list the handler closed over. With one handler at a time
  these are the same list, and the model uses it.
