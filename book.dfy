/** The book record of the bookshelf application and its two-valued status. */
module BookTypes {

  datatype Option<+T> = None | Some(value: T)

  /** A book is either on the "To Read" shelf or on the "Completed" shelf;
      there is no third state. */
  datatype Status = ToRead | Completed

  /** `id` is the identity key; `title` and `author` are required, `genre`
      is optional. There is no ordering or timestamp field. */
  datatype Book = Book(id: string, title: string, author: string, genre: Option<string>, status: Status)

  /** The wire name of a status: the value stored in the `status` column and
      the id of the droppable column that stands for it. */
  function StatusName(s: Status): (name: string)
    ensures name == "toRead" || name == "completed"
    ensures ParseStatus(name) == Some(s)
  {
    match s
    case ToRead => "toRead"
    case Completed => "completed"
  }

  /** Recognises the two status names and nothing else. */
  function ParseStatus(name: string): (r: Option<Status>)
    ensures r.Some? <==> name == "toRead" || name == "completed"
  {
    if name == "toRead" then Some(ToRead)
    else if name == "completed" then Some(Completed)
    else None
  }

  /** Parsing is the inverse of naming in both directions. */
  lemma ParseNameInverse(name: string, s: Status)
    ensures ParseStatus(name) == Some(s) <==> StatusName(s) == name
  {
  }

  /** The column heading used in the success notification. */
  function ColumnLabel(s: Status): (heading: string)
  {
    if s == ToRead then "To Read" else "Completed"
  }
}
