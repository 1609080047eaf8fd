/** The book record, the payloads of the create and update requests, and the
    outcomes the service hands back to its HTTP layer. */
module Books {

  datatype Option<+T> = None | Some(value: T)

  /** A successful outcome, or the HTTP 404 raised by the service with its detail text. */
  datatype Result<+T> = Ok(value: T) | NotFound(detail: string)

  /** Detail texts of the 404 responses and of the delete confirmation. */
  const BookNotFound: string := "Book not found!"
  const NoBookFound: string := "No book found"
  const NoFilteredBookFound: string := "No book found!"
  const BookDeleted: string := "Book deleted!"

  /** A row of the books table; `id` is the primary key assigned by the store. */
  datatype Book = Book(
    id: int,
    title: string,
    description: string,
    author: string,
    category: string,
    pages: int,
    available: bool)

  /** The create payload: every column but the key. */
  datatype Draft = Draft(
    title: string,
    description: string,
    author: string,
    category: string,
    pages: int,
    available: bool)

  /** The update payload: the four columns an update overwrites. */
  datatype Changes = Changes(
    title: string,
    description: string,
    author: string,
    category: string)

  /** The row the store holds once `draft` has been inserted under key `id`. */
  function Stored(id: int, draft: Draft): Book {
    Book(id, draft.title, draft.description, draft.author, draft.category, draft.pages, draft.available)
  }

  /** `b` after an update has assigned the four text columns of `c`. */
  function Revised(b: Book, c: Changes): Book {
    b.(title := c.title, description := c.description, author := c.author, category := c.category)
  }
}
