/** Value types shared by the catalog and loan layers: the Book and Loan
    records, the outcome of an operation, the boundary representation of a
    book, and the predicates that describe a table of stored books. */
module Domain {

  datatype Option<T> = None | Some(value: T)

  /** The two failures the book operations distinguish: an id that names no
      stored book, and a business-rule violation carrying its message. */
  datatype Error = NotFound | BusinessError(message: string)

  datatype Result<T> = Ok(value: T) | Err(error: Error)

  /** The message of the business error raised on a duplicate ISBN. */
  const DuplicateIsbnMessage: string := "Isbn já cadastrado."

  /** A catalog entry; `id` is None until the store assigns one. */
  datatype Book = Book(id: Option<int>, title: string, author: string, isbn: string)

  /** The book as it crosses the API boundary; mapping to and from the
      entity is field for field. */
  datatype BookDto = BookDto(id: Option<int>, title: string, author: string, isbn: string)

  function ToDto(b: Book): BookDto {
    BookDto(b.id, b.title, b.author, b.isbn)
  }

  function ToEntity(d: BookDto): Book {
    Book(d.id, d.title, d.author, d.isbn)
  }

  lemma DtoRoundTrip(b: Book, d: BookDto)
    ensures ToEntity(ToDto(b)) == b
    ensures ToDto(ToEntity(d)) == d
  {
  }

  /** A loan of a book to a customer; dates are day numbers. */
  datatype Loan = Loan(bookId: int, isbn: string, customer: string, loanDate: int, returned: bool)

  /** A freshly built loan: nothing marks it returned. */
  function NewLoan(bookId: int, isbn: string, customer: string, loanDate: int): (l: Loan)
    ensures !l.returned
    ensures l.bookId == bookId && l.isbn == isbn && l.customer == customer && l.loanDate == loanDate
  {
    Loan(bookId, isbn, customer, loanDate, false)
  }

  // ---------------------------------------------------------------------
  // Tables of stored books, keyed by id

  /** Some stored book carries `isbn`. */
  predicate IsbnIn(rows: map<int, Book>, isbn: string) {
    exists id | id in rows :: rows[id].isbn == isbn
  }

  /** No two stored books share an ISBN. */
  ghost predicate UniqueIsbns(rows: map<int, Book>) {
    forall i, j :: i in rows && j in rows && rows[i].isbn == rows[j].isbn ==> i == j
  }

  /** A stored book's ISBN is present. */
  lemma IsbnInStored(rows: map<int, Book>, id: int)
    requires id in rows
    ensures IsbnIn(rows, rows[id].isbn)
  {
  }

  /** Storing a book under `id` makes its ISBN present, and leaves every
      other ISBN present exactly when it was present before or is the new
      book's. */
  lemma IsbnInAfterPut(rows: map<int, Book>, id: int, b: Book, isbn: string)
    requires id !in rows
    ensures IsbnIn(rows[id := b], isbn) <==> IsbnIn(rows, isbn) || b.isbn == isbn
  {
    if IsbnIn(rows, isbn) {
      var k :| k in rows && rows[k].isbn == isbn;
      assert k != id && rows[id := b][k] == rows[k];
    }
    if b.isbn == isbn {
      assert rows[id := b][id] == b;
    }
  }

  /** Inserting a book whose ISBN is absent keeps ISBNs unique, whether the
      key is new or replaces a stored book. */
  lemma UniqueAfterPut(rows: map<int, Book>, id: int, b: Book)
    requires UniqueIsbns(rows)
    requires !IsbnIn(rows, b.isbn)
    ensures UniqueIsbns(rows[id := b])
  {
  }

  /** Replacing a stored book by one with the same ISBN keeps ISBNs unique. */
  lemma UniqueAfterReplaceSameIsbn(rows: map<int, Book>, id: int, b: Book)
    requires UniqueIsbns(rows)
    requires id in rows && rows[id].isbn == b.isbn
    ensures UniqueIsbns(rows[id := b])
  {
  }

  /** Removing books never breaks uniqueness. */
  lemma UniqueAfterRemove(rows: map<int, Book>, id: int)
    requires UniqueIsbns(rows)
    ensures UniqueIsbns(rows - {id})
  {
  }
}
