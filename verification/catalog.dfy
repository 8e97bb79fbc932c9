/**
 Adding, editing and removing books and users (`App.tsx`). These are list
 operations keyed by id: additions append a record in its default lending
 state, updates replace whole records, deletions filter.

 Ids come from `Date.now()` in the source; here the caller supplies them.
 */
module Catalog {

  import opened Results
  import opened Types
  import opened Seqs
  import Circulation

  /** `handleAddBook`: append a new book, on the shelf. */
  function AddBook(lib: Library, title: string, author: string, genre: Genre, newId: int): (r: Library)
    ensures r.users == lib.users
    ensures |r.books| == |lib.books| + 1 && r.books[..|lib.books|] == lib.books
    ensures var b := r.books[|lib.books|];
            b.id == newId && b.title == title && b.author == author && b.genre == genre
    ensures r.books[|lib.books|].borrowedById.None? && r.books[|lib.books|].dueDate.None?
  {
    lib.(books := lib.books + [Book(newId, title, author, genre, None, None)])
  }

  /** `handleUpdateBook`: replace every book carrying the edited book's id by the edited record. */
  function UpdateBook(lib: Library, updated: Book): (r: Library)
    ensures r.users == lib.users && |r.books| == |lib.books|
    ensures forall i :: 0 <= i < |lib.books| ==>
              r.books[i] == if lib.books[i].id == updated.id then updated else lib.books[i]
  {
    lib.(books := seq(|lib.books|, i requires 0 <= i < |lib.books| =>
                        if lib.books[i].id == updated.id then updated else lib.books[i]))
  }

  /** `handleDeleteBook`: once confirmed, drop every book with that id. */
  function DeleteBook(lib: Library, id: int, confirmed: bool): (r: Library)
    ensures r.users == lib.users
    ensures !confirmed ==> r == lib
    ensures confirmed ==>
      && IsSubseq(r.books, lib.books)
      && (forall i :: 0 <= i < |r.books| ==> r.books[i].id != id)
      && (forall i :: 0 <= i < |lib.books| && lib.books[i].id != id ==> lib.books[i] in r.books)
      && (forall b {:trigger multiset(r.books)[b]} :: multiset(r.books)[b] == if b.id == id then 0 else multiset(lib.books)[b])
  {
    if confirmed then
      FilterIsSubseq(lib.books, (b: Book) => b.id != id);
      lib.(books := Filter(lib.books, (b: Book) => b.id != id))
    else lib
  }

  /**
   `handleAddUser`: append a new user with no fines. (The application's user form
   is wired to the add-book handler when creating a user, App.tsx line 211;
   this models the add-user handler it evidently meant.)
   */
  function AddUser(lib: Library, name: string, role: Role, newId: int): (r: Library)
    ensures r.books == lib.books
    ensures |r.users| == |lib.users| + 1 && r.users[..|lib.users|] == lib.users
    ensures r.users[|lib.users|] == User(newId, name, role, 0)
  {
    lib.(users := lib.users + [User(newId, name, role, 0)])
  }

  /** `handleUpdateUser`: replace every user carrying the edited user's id by the edited record. */
  function UpdateUser(lib: Library, updated: User): (r: Library)
    ensures r.books == lib.books && |r.users| == |lib.users|
    ensures forall i :: 0 <= i < |lib.users| ==>
              r.users[i] == if lib.users[i].id == updated.id then updated else lib.users[i]
  {
    lib.(users := seq(|lib.users|, i requires 0 <= i < |lib.users| =>
                        if lib.users[i].id == updated.id then updated else lib.users[i]))
  }

  /** The record the book form saves when editing: the old record with new title, author and genre. */
  function EditBook(original: Book, title: string, author: string, genre: Genre): Book {
    original.(title := title, author := author, genre := genre)
  }

  /** The record the user form saves when editing: the old record with new name and role. */
  function EditUser(original: User, name: string, role: Role): User {
    original.(name := name, role := role)
  }

  // ---------------------------------------------------------------------------
  // Lemmas
  // ---------------------------------------------------------------------------

  /** Adding a book with an unused id keeps book ids unique. */
  lemma AddBookKeepsIdsUnique(lib: Library, title: string, author: string, genre: Genre, newId: int)
    requires UniqueBookIds(lib.books)
    requires !HasBookId(lib.books, newId)
    ensures UniqueBookIds(AddBook(lib, title, author, genre, newId).books)
  {
    var books := AddBook(lib, title, author, genre, newId).books;
    forall i, j | 0 <= i < |books| && 0 <= j < |books| && books[i].id == books[j].id
      ensures i == j
    {
      if i < |lib.books| && j < |lib.books| {
        assert lib.books[i].id == lib.books[j].id;
      }
    }
  }

  /** Adding a user with an unused id keeps user ids unique. */
  lemma AddUserKeepsIdsUnique(lib: Library, name: string, role: Role, newId: int)
    requires UniqueUserIds(lib.users)
    requires !HasUserId(lib.users, newId)
    ensures UniqueUserIds(AddUser(lib, name, role, newId).users)
  {
    var users := AddUser(lib, name, role, newId).users;
    forall i, j | 0 <= i < |users| && 0 <= j < |users| && users[i].id == users[j].id
      ensures i == j
    {
      if i < |lib.users| && j < |lib.users| {
        assert lib.users[i].id == lib.users[j].id;
      }
    }
  }

  /** A new book is on the shelf, so nobody's loan count changes. */
  lemma AddBookKeepsLoans(lib: Library, title: string, author: string, genre: Genre, newId: int, userId: int)
    ensures Circulation.ActiveLoans(AddBook(lib, title, author, genre, newId).books, userId)
            == Circulation.ActiveLoans(lib.books, userId)
  {
    var nb := Book(newId, title, author, genre, None, None);
    FilterConcat(lib.books, [nb], (b: Book) => b.borrowedById == Some(userId));
  }

  /** Every catalogue operation keeps each book fully on the shelf or fully on loan. */
  lemma CatalogKeepsWellFormed(lib: Library, title: string, author: string, genre: Genre, id: int,
                               confirmed: bool, name: string, role: Role, user: User)
    requires WellFormed(lib)
    ensures WellFormed(AddBook(lib, title, author, genre, id))
    ensures WellFormed(DeleteBook(lib, id, confirmed))
    ensures WellFormed(AddUser(lib, name, role, id))
    ensures WellFormed(UpdateUser(lib, user))
  {
    var deleted := DeleteBook(lib, id, confirmed);
    forall i | 0 <= i < |deleted.books|
      ensures LendingConsistent(deleted.books[i])
    {
      var j :| 0 <= j < |lib.books| && lib.books[j] == deleted.books[i];
    }
  }

  /**
   Saving an edit from the book form changes title, author and genre only: with
   unique ids every book keeps its lending state, so the library stays well
   formed and every loan count is unchanged.
   */
  lemma EditBookKeepsLending(lib: Library, k: nat, title: string, author: string, genre: Genre)
    requires k < |lib.books|
    requires UniqueBookIds(lib.books)
    ensures var r := UpdateBook(lib, EditBook(lib.books[k], title, author, genre));
            forall i :: 0 <= i < |lib.books| ==>
              r.books[i].borrowedById == lib.books[i].borrowedById &&
              r.books[i].dueDate == lib.books[i].dueDate
    ensures WellFormed(lib) ==> WellFormed(UpdateBook(lib, EditBook(lib.books[k], title, author, genre)))
  {
  }

  /** Saving an edit from the user form never touches anyone's fines or id. */
  lemma EditUserKeepsFines(lib: Library, k: nat, name: string, role: Role)
    requires k < |lib.users|
    requires UniqueUserIds(lib.users)
    ensures var r := UpdateUser(lib, EditUser(lib.users[k], name, role));
            forall i :: 0 <= i < |lib.users| ==>
              r.users[i].fines == lib.users[i].fines && r.users[i].id == lib.users[i].id
  {
  }
}
