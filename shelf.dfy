/** The stateful part of the shelf reconciler: the bookshelf page's list of
    books and the book being dragged, with the handlers that change them.
    Every call to the backend is replaced by an argument that says how the
    call came out. */
module ShelfState {
  import opened BookTypes
  import opened Reconcile

  /** The notification the page shows, if any. */
  datatype Notice =
    | Silent
    | LoadFailed                          // "Failed to load books"
    | Moved(title: string, column: string) // "Moved <title> to <column>!"
    | UpdateFailed                        // "Failed to update book"

  /** The backend update of one book: its new status, and whether a
      completion timestamp is written (otherwise the column is cleared). */
  datatype UpdateRequest = UpdateRequest(bookId: string, status: Status, completedAtSet: bool)

  /** The backend update of the user's reading-stats row. */
  datatype StatsRequest = StatsRequest(userId: string, stats: ReadingStats)

  /** What one drop issued. */
  datatype DropOutcome = DropOutcome(request: Option<UpdateRequest>, statsUpdate: Option<StatsRequest>, notice: Notice)

  const Ignored := DropOutcome(None, None, Silent)

  class Shelf {
    /** The books in the backend's order (most recently added first). */
    var books: seq<Book>
    /** The book shown in the drag overlay. */
    var active: Option<Book>

    constructor ()
      ensures books == [] && active == None
    {
      books := [];
      active := None;
    }

    /** `fetchBooks`: `rows` is None when the query failed. On success the
        shelf is replaced wholesale; on failure it is kept and a failure
        notice is shown. */
    method Load(rows: Option<seq<Row>>) returns (notice: Notice)
      requires rows.Some? ==> forall i :: 0 <= i < |rows.value| ==> WellFormedRow(rows.value[i])
      modifies this`books
      ensures rows.Some? ==> books == FormatRows(rows.value) && notice == Silent
      ensures rows.None? ==> books == old(books) && notice == LoadFailed
    {
      if rows.None? {
        notice := LoadFailed;
        return;
      }
      books := FormatRows(rows.value);
      notice := Silent;
    }

    /** `handleDragStart`: shows the book with the dragged id, if the shelf
        has one; otherwise leaves the overlay as it was. */
    method DragStart(activeId: string)
      modifies this`active
      ensures Find(books, activeId).Some? ==> active == Find(books, activeId)
      ensures Find(books, activeId).None? ==> active == old(active)
    {
      var book := Find(books, activeId);
      if book.Some? {
        active := book;
      }
    }

    /** `handleDragEnd`: `over` is the id of the drop target, `user` the
        signed-in user, `persistOk` whether the backend accepted the update.
        The stats are counted on the shelf as it was when the drop began. */
    method DragEnd(activeId: string, over: Option<string>, user: Option<string>, persistOk: bool)
      returns (out: DropOutcome)
      modifies this
      ensures active == None
      // a request is issued exactly when there is a target, a user, a book
      // with that id, a column target, and the book is not already there
      ensures var found := Find(old(books), activeId);
              out.request.Some? <==>
                over.Some? && user.Some? && found.Some? &&
                ParseStatus(over.value).Some? && ParseStatus(over.value).value != found.value.status
      ensures out.request.None? ==> books == old(books) && out == Ignored
      ensures out.request.Some? ==>
                var st := ParseStatus(over.value).value;
                out.request.value == UpdateRequest(activeId, st, st == Completed)
      ensures out.request.Some? && persistOk ==>
                var st := ParseStatus(over.value).value;
                books == SetStatus(old(books), activeId, st) &&
                out.statsUpdate == Some(StatsRequest(user.value, Stats(old(books)))) &&
                out.notice == Moved(Find(old(books), activeId).value.title, ColumnLabel(st))
      ensures out.request.Some? && !persistOk ==>
                books == old(books) && out.statsUpdate == None && out.notice == UpdateFailed
      // with unique ids a successful drop rewrites one position, and only its status
      ensures UniqueIds(old(books)) ==> UniqueIds(books)
      ensures UniqueIds(old(books)) && out.request.Some? && persistOk ==>
                exists k :: 0 <= k < |books| && old(books)[k].id == activeId &&
                  books == old(books)[k := old(books)[k].(status := out.request.value.status)]
      // the counts sent lag the shelf after the move by exactly the moved book
      ensures UniqueIds(old(books)) && out.request.Some? && persistOk ==>
                var sent := out.statsUpdate.value.stats;
                if out.request.value.status == Completed
                then Stats(books) == ReadingStats(sent.toReadCount - 1, sent.completedCount + 1)
                else Stats(books) == ReadingStats(sent.toReadCount + 1, sent.completedCount - 1)
    {
      active := None;
      out := Ignored;
      if over.None? || user.None? {
        return;
      }
      var found := Find(books, activeId);
      if found.None? {
        return;
      }
      var target := ParseStatus(over.value);
      if target.None? {
        return;
      }
      var book, st := found.value, target.value;
      if book.status != st {
        var request := UpdateRequest(book.id, st, st == Completed);
        if persistOk {
          var before := books;
          books := SetStatus(books, book.id, st);
          if UniqueIds(before) {
            var _ := MoveRewritesOne(before, activeId, st);
            MoveShiftsCounts(before, activeId, st);
          }
          out := DropOutcome(Some(request), Some(StatsRequest(user.value, Stats(before))), Moved(book.title, ColumnLabel(st)));
        } else {
          out := DropOutcome(Some(request), None, UpdateFailed);
        }
      }
    }
  }

  /** One drag of a single "To Read" book onto the "Completed" column. The
      book moves, and the stats row receives the counts of the shelf before
      the move: one to read, none completed. */
  method MoveOnlyBookScenario(persistOk: bool)
  {
    var shelf := new Shelf();
    var book := Book("1", "Dune", "Frank Herbert", None, ToRead);
    shelf.books := [book];
    shelf.DragStart("1");
    assert shelf.active == Some(book);
    var out := shelf.DragEnd("1", Some("completed"), Some("u"), persistOk);
    assert shelf.active == None;
    assert out.request == Some(UpdateRequest("1", Completed, true));
    if persistOk {
      assert shelf.books == [book.(status := Completed)];
      assert out.statsUpdate == Some(StatsRequest("u", ReadingStats(1, 0)));
    } else {
      assert shelf.books == [book];
      assert out.notice == UpdateFailed;
    }
  }
}
