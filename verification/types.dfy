/**
 The records of the library (`types.ts`) and the state the application keeps
 for them. Calendar dates are whole day numbers and money is integer cents.
 */
module Types {

  import opened Results

  datatype Role = Student | Faculty

  /** A genre name; the list of genres lives in a constants file that is not part of this model. */
  type Genre = string

  /**
   A catalogue entry. `borrowedById` names the borrowing user and `dueDate` the
   day the loan ends; both are null while the book is on the shelf.
   */
  datatype Book = Book(
    id: int,
    title: string,
    author: string,
    genre: Genre,
    borrowedById: Option<int>,
    dueDate: Option<int>)

  /** A patron; `fines` is the outstanding amount in cents. */
  datatype User = User(id: int, name: string, role: Role, fines: int)

  /** The two lists `App` holds in its state. */
  datatype Library = Library(books: seq<Book>, users: seq<User>)

  /** A book is either fully on the shelf or fully on loan. */
  predicate LendingConsistent(b: Book) {
    b.borrowedById.None? <==> b.dueDate.None?
  }

  /** Every book of the library is fully on the shelf or fully on loan. */
  predicate WellFormed(lib: Library) {
    forall i :: 0 <= i < |lib.books| ==> LendingConsistent(lib.books[i])
  }

  predicate UniqueBookIds(books: seq<Book>) {
    forall i, j :: 0 <= i < |books| && 0 <= j < |books| && books[i].id == books[j].id ==> i == j
  }

  predicate UniqueUserIds(users: seq<User>) {
    forall i, j :: 0 <= i < |users| && 0 <= j < |users| && users[i].id == users[j].id ==> i == j
  }

  predicate HasBookId(books: seq<Book>, id: int) {
    exists i :: 0 <= i < |books| && books[i].id == id
  }

  predicate HasUserId(users: seq<User>, id: int) {
    exists i :: 0 <= i < |users| && users[i].id == id
  }
}
