/** The pure part of the shelf reconciler: looking a book up by id,
    rewriting the status of the book with a given id, splitting the shelf
    into its two columns, counting per status, and turning the rows the
    backend returns into book records. */
module Reconcile {
  import opened BookTypes

  /** No two books on the shelf share an id. The backend assigns ids, so a
      loaded shelf has this property; the reconciler never checks it. */
  predicate UniqueIds(s: seq<Book>)
  {
    forall i, j :: 0 <= i < j < |s| ==> s[i].id != s[j].id
  }

  /** `k` is the first position of a book with this id. */
  predicate FirstWithId(s: seq<Book>, id: string, k: int)
  {
    0 <= k < |s| && s[k].id == id && forall j :: 0 <= j < k ==> s[j].id != id
  }

  /** `books.find((b) => b.id === id)`: the first book with the given id, if any. */
  function Find(s: seq<Book>, id: string): (r: Option<Book>)
    ensures r.None? <==> forall i :: 0 <= i < |s| ==> s[i].id != id
    ensures r.Some? ==> exists k :: FirstWithId(s, id, k) && s[k] == r.value
  {
    if s == [] then None
    else if s[0].id == id then
      assert FirstWithId(s, id, 0);
      Some(s[0])
    else
      var r := Find(s[1..], id);
      assert r.Some? ==> exists k :: FirstWithId(s, id, k) && s[k] == r.value by {
        if r.Some? {
          var k :| FirstWithId(s[1..], id, k) && s[1..][k] == r.value;
          assert FirstWithId(s, id, k + 1);
        }
      }
      r
  }

  /** The list rewrite after a successful update: every book with the given
      id gets the new status, all other books are kept as they are. */
  function SetStatus(s: seq<Book>, id: string, st: Status): (r: seq<Book>)
    ensures |r| == |s|
    ensures forall i :: 0 <= i < |s| ==> r[i] == s[i].(status := r[i].status)
    ensures forall i :: 0 <= i < |s| ==> r[i].status == if s[i].id == id then st else s[i].status
    ensures UniqueIds(s) ==> UniqueIds(r)
  {
    seq(|s|, i requires 0 <= i < |s| => if s[i].id == id then s[i].(status := st) else s[i])
  }

  /** `books.filter((b) => b.status === st)`: one column of the shelf. */
  function FilterStatus(s: seq<Book>, st: Status): (r: seq<Book>)
    ensures |r| <= |s|
    ensures forall i :: 0 <= i < |r| ==> r[i].status == st
  {
    if s == [] then []
    else if s[0].status == st then [s[0]] + FilterStatus(s[1..], st)
    else FilterStatus(s[1..], st)
  }

  /** The number of books with the given status. */
  function CountStatus(s: seq<Book>, st: Status): (n: nat)
  {
    |FilterStatus(s, st)|
  }

  /** A column holds exactly the shelf's books of its status. */
  lemma {:induction false} FilterMembers(s: seq<Book>, st: Status, b: Book)
    ensures b in FilterStatus(s, st) <==> b in s && b.status == st
  {
    if s != [] {
      FilterMembers(s[1..], st, b);
      assert s == [s[0]] + s[1..];
    }
  }

  /** Filtering distributes over concatenation: a column keeps the shelf's order. */
  lemma {:induction false} FilterConcat(a: seq<Book>, b: seq<Book>, st: Status)
    ensures FilterStatus(a + b, st) == FilterStatus(a, st) + FilterStatus(b, st)
  {
    if a == [] {
      assert a + b == b;
    } else {
      assert (a + b)[1..] == a[1..] + b;
      FilterConcat(a[1..], b, st);
    }
  }

  /** The two columns together hold every book once: their sizes add up. */
  lemma {:induction false} PartitionSizes(s: seq<Book>)
    ensures CountStatus(s, ToRead) + CountStatus(s, Completed) == |s|
  {
    if s != [] {
      PartitionSizes(s[1..]);
    }
  }

  /** The two columns together hold every book once: as multisets. */
  lemma {:induction false} PartitionMultiset(s: seq<Book>)
    ensures multiset(FilterStatus(s, ToRead)) + multiset(FilterStatus(s, Completed)) == multiset(s)
  {
    if s != [] {
      PartitionMultiset(s[1..]);
      assert s == [s[0]] + s[1..];
    }
  }

  /** The "To Read" and "Completed" columns rendered side by side. */
  function Columns(s: seq<Book>): (cols: (seq<Book>, seq<Book>))
    ensures forall b :: b in cols.0 <==> b in s && b.status == ToRead
    ensures forall b :: b in cols.1 <==> b in s && b.status == Completed
    ensures |cols.0| + |cols.1| == |s|
    ensures multiset(cols.0) + multiset(cols.1) == multiset(s)
  {
    PartitionSizes(s);
    PartitionMultiset(s);
    forall b ensures b in FilterStatus(s, ToRead) <==> b in s && b.status == ToRead {
      FilterMembers(s, ToRead, b);
    }
    forall b ensures b in FilterStatus(s, Completed) <==> b in s && b.status == Completed {
      FilterMembers(s, Completed, b);
    }
    (FilterStatus(s, ToRead), FilterStatus(s, Completed))
  }

  /** The counts written to the reading-stats row. */
  datatype ReadingStats = ReadingStats(toReadCount: nat, completedCount: nat)

  /** Counts the shelf per status. */
  function Stats(s: seq<Book>): (r: ReadingStats)
    ensures r.toReadCount + r.completedCount == |s|
    ensures r.toReadCount == |Columns(s).0| && r.completedCount == |Columns(s).1|
  {
    PartitionSizes(s);
    ReadingStats(CountStatus(s, ToRead), CountStatus(s, Completed))
  }

  /** With unique ids, the book `Find` returns is the only one with its id,
      and the list rewrite changes that one position and only its status. */
  lemma MoveRewritesOne(s: seq<Book>, id: string, st: Status) returns (k: nat)
    requires UniqueIds(s)
    requires Find(s, id).Some?
    ensures k < |s| && s[k] == Find(s, id).value
    ensures forall i :: 0 <= i < |s| && s[i].id == id ==> i == k
    ensures SetStatus(s, id, st) == s[k := s[k].(status := st)]
  {
    k :| FirstWithId(s, id, k) && s[k] == Find(s, id).value;
    var r := SetStatus(s, id, st);
    assert forall i :: 0 <= i < |s| ==> r[i] == s[k := s[k].(status := st)][i];
  }

  /** Replacing one book changes each count by what leaves and what arrives. */
  lemma {:induction false} CountAfterReplace(s: seq<Book>, k: nat, x: Book, st: Status)
    requires k < |s|
    ensures CountStatus(s[k := x], st) + (if s[k].status == st then 1 else 0)
         == CountStatus(s, st) + (if x.status == st then 1 else 0)
  {
    if k == 0 {
      assert s[k := x] == [x] + s[1..];
      assert s == [s[0]] + s[1..];
      FilterConcat([x], s[1..], st);
      FilterConcat([s[0]], s[1..], st);
    } else {
      CountAfterReplace(s[1..], k - 1, x, st);
      assert s[k := x] == [s[0]] + s[1..][k - 1 := x];
      assert s == [s[0]] + s[1..];
      FilterConcat([s[0]], s[1..][k - 1 := x], st);
      FilterConcat([s[0]], s[1..], st);
    }
  }

  /** A successful move of a book to another status shifts exactly one book
      from its old column to its new one. */
  lemma MoveShiftsCounts(s: seq<Book>, id: string, st: Status)
    requires UniqueIds(s)
    requires Find(s, id).Some? && Find(s, id).value.status != st
    ensures var from := Find(s, id).value.status;
            var r := SetStatus(s, id, st);
            CountStatus(r, st) == CountStatus(s, st) + 1 &&
            CountStatus(r, from) + 1 == CountStatus(s, from)
  {
    var k := MoveRewritesOne(s, id, st);
    var from := s[k].status;
    CountAfterReplace(s, k, s[k].(status := st), st);
    CountAfterReplace(s, k, s[k].(status := st), from);
  }

  /** Dropping a book on the status it already has would rewrite nothing. */
  lemma SameStatusIsIdentity(s: seq<Book>, id: string)
    requires UniqueIds(s)
    requires Find(s, id).Some?
    ensures SetStatus(s, id, Find(s, id).value.status) == s
  {
  }

  /** A row of the `books` table as the backend returns it: `genre` may be
      null, and `status` is the stored status name. */
  datatype Row = Row(id: string, title: string, author: string, genre: Option<string>, status: string)

  /** The source casts the stored status to the two-valued type without
      checking it; a row the cast describes truthfully. */
  predicate WellFormedRow(row: Row)
  {
    ParseStatus(row.status).Some?
  }

  /** The record mapping of the initial load: an empty genre is dropped
      (`book.genre || undefined`), the status is taken as stored. */
  function FormatRow(row: Row): (b: Book)
    requires WellFormedRow(row)
    ensures b.id == row.id && b.title == row.title && b.author == row.author
    ensures StatusName(b.status) == row.status
    ensures b.genre.None? <==> row.genre.None? || row.genre == Some("")
    ensures b.genre.Some? ==> b.genre == row.genre
  {
    ParseNameInverse(row.status, ParseStatus(row.status).value);
    var genre := if row.genre.Some? && row.genre.value != "" then row.genre else None;
    Book(row.id, row.title, row.author, genre, ParseStatus(row.status).value)
  }

  /** The row a book is stored as: its status under its wire name. */
  function ToRow(b: Book): Row
  {
    Row(b.id, b.title, b.author, b.genre, StatusName(b.status))
  }

  /** Storing a book and loading it back gives the same book, unless its
      genre is the empty string (which loads as no genre). */
  lemma StoreThenLoad(b: Book)
    requires b.genre != Some("")
    ensures WellFormedRow(ToRow(b)) && FormatRow(ToRow(b)) == b
  {
  }

  /** Loading a well-formed row and storing it back gives the same row,
      unless its genre is the empty string. */
  lemma LoadThenStore(row: Row)
    requires WellFormedRow(row) && row.genre != Some("")
    ensures ToRow(FormatRow(row)) == row
  {
  }

  /** `data.map(...)`: the loaded shelf, in the backend's order. */
  function FormatRows(rows: seq<Row>): (bs: seq<Book>)
    requires forall i :: 0 <= i < |rows| ==> WellFormedRow(rows[i])
    ensures |bs| == |rows|
    ensures forall i :: 0 <= i < |rows| ==> bs[i] == FormatRow(rows[i])
    ensures forall i :: 0 <= i < |rows| ==> bs[i].id == rows[i].id && StatusName(bs[i].status) == rows[i].status
    ensures forall i :: 0 <= i < |rows| && rows[i].genre != Some("") ==> ToRow(bs[i]) == rows[i]
  {
    seq(|rows|, i requires 0 <= i < |rows| => FormatRow(rows[i]))
  }
}
