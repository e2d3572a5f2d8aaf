/** The record indexed by the kiosk (LibraryKiosk/Book.cs). */
module Books {

  /** A book: title, author, page count and publisher. */
  datatype Book = Book(title: string, author: string, pages: int, publisher: string)

  /** A key selector: maps a book to the string it is ordered by (`SortFunc`). */
  type Selector = Book -> string

  /** The default selector installed by the tree's constructor. */
  function ByTitle(b: Book): string
  {
    b.title
  }
}
