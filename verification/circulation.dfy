/**
 Lending and taking back books, and removing a user, as the event handlers of
 `App.tsx` do them. Each handler is a function from the current library to the
 next one; an `Err` result means the handler returned early (after an alert, or
 silently) and the library is left exactly as it was.
 */
module Circulation {

  import opened Results
  import opened Types
  import opened Seqs
  import opened Policy

  /** The number of books currently lent to user `userId`. */
  function ActiveLoans(books: seq<Book>, userId: int): nat {
    |Filter(books, (b: Book) => b.borrowedById == Some(userId))|
  }

  /** Some book is lent to user `userId`. */
  predicate HasLoanTo(books: seq<Book>, userId: int) {
    exists i :: 0 <= i < |books| && books[i].borrowedById == Some(userId)
  }

  /** A user holds a book exactly when their loan count is positive. */
  lemma LoanCountPositiveIff(books: seq<Book>, userId: int)
    ensures ActiveLoans(books, userId) > 0 <==> HasLoanTo(books, userId)
  {
    FilterEmptyIff(books, (b: Book) => b.borrowedById == Some(userId));
  }

  /** `users.find(u => u.id === id)`: the first user with that id. */
  function FindUser(users: seq<User>, id: int): (r: Option<User>)
    ensures r.None? <==> !HasUserId(users, id)
    ensures r.Some? ==> r.value.id == id
    ensures r.Some? ==> exists i :: 0 <= i < |users| && users[i] == r.value &&
                                    forall j :: 0 <= j < i ==> users[j].id != id
    decreases |users|
  {
    if |users| == 0 then None
    else if users[0].id == id then Some(users[0])
    else
      var r := FindUser(users[1..], id);
      assert r.Some? ==> exists i :: 0 <= i < |users[1..]| && users[1..][i] == r.value &&
                                     forall j :: 0 <= j < i ==> users[1..][j].id != id;
      assert HasUserId(users, id) ==> HasUserId(users[1..], id) by {
        if HasUserId(users, id) {
          var i :| 0 <= i < |users| && users[i].id == id;
          assert users[1..][i - 1].id == id;
        }
      }
      r
  }

  datatype BorrowError =
    | NoBookSelected                       // no book was picked before choosing a user
    | UnknownUser                          // the chosen id matches no user
    | LimitReached(limit: nat, count: nat) // the user already holds `limit` or more books

  /** Marks every book with id `bookId` as lent to `userId` until day `due`. */
  function Lend(books: seq<Book>, bookId: int, userId: int, due: int): seq<Book> {
    seq(|books|, i requires 0 <= i < |books| =>
      if books[i].id == bookId then books[i].(borrowedById := Some(userId), dueDate := Some(due))
      else books[i])
  }

  /**
   `handleConfirmBorrow`: lend the book picked earlier (`selected`) to the user
   chosen in the user picker, on day `today`. The handler does not re-check that
   the book is available: the book card only offers borrowing while it is.
   */
  function Borrow(lib: Library, selected: Option<Book>, userId: int, today: int): (r: Result<Library, BorrowError>)
    ensures selected.None? ==> r == Err(NoBookSelected)
    ensures selected.Some? && !HasUserId(lib.users, userId) ==> r == Err(UnknownUser)
    ensures r.Ok? <==>
      && selected.Some?
      && HasUserId(lib.users, userId)
      && ActiveLoans(lib.books, userId) < BorrowLimit(FindUser(lib.users, userId).value.role)
    ensures r.Err? && r.error.LimitReached? ==>
      && r.error.count == ActiveLoans(lib.books, userId) >= r.error.limit
      && FindUser(lib.users, userId).Some?
      && r.error.limit == BorrowLimit(FindUser(lib.users, userId).value.role)
    ensures r.Ok? ==> r.value.users == lib.users && |r.value.books| == |lib.books|
    ensures r.Ok? ==> forall i :: 0 <= i < |lib.books| ==>
      r.value.books[i] ==
        if lib.books[i].id == selected.value.id
        then lib.books[i].(borrowedById := Some(userId),
                           dueDate := Some(today + LoanDays(FindUser(lib.users, userId).value.role)))
        else lib.books[i]
  {
    if selected.None? then Err(NoBookSelected)
    else match FindUser(lib.users, userId)
      case None => Err(UnknownUser)
      case Some(user) =>
        var count := ActiveLoans(lib.books, userId);
        var limit := BorrowLimit(user.role);
        if count >= limit then Err(LimitReached(limit, count))
        else Ok(lib.(books := Lend(lib.books, selected.value.id, userId, today + LoanDays(user.role))))
  }

  /**
   `!book.borrowedById || !book.dueDate` fails: the book names a borrower and a
   due date. A borrower id of 0 is falsy in JavaScript and reads as "not lent".
   */
  predicate IsOnLoan(b: Book) {
    b.borrowedById.Some? && b.borrowedById.value != 0 && b.dueDate.Some?
  }

  datatype ReturnError = NotOnLoan

  /** The library after a return, and the fine (in cents) that was charged for it. */
  datatype Returned = Returned(library: Library, fine: nat)

  /** Puts every book with id `bookId` back on the shelf. */
  function Shelve(books: seq<Book>, bookId: int): seq<Book> {
    seq(|books|, i requires 0 <= i < |books| =>
      if books[i].id == bookId then books[i].(borrowedById := None, dueDate := None) else books[i])
  }

  /** Adds `fine` to the account of every user with id `userId`. */
  function Charge(users: seq<User>, userId: int, fine: nat): seq<User> {
    seq(|users|, i requires 0 <= i < |users| =>
      if users[i].id == userId then users[i].(fines := users[i].fines + fine) else users[i])
  }

  /**
   `handleReturnBook`: take back `book` (the record shown on its card) on day
   `today`, charging the borrower for every day past the due date.
   */
  function ReturnBook(lib: Library, book: Book, today: int): (r: Result<Returned, ReturnError>)
    ensures r.Err? <==> !IsOnLoan(book)
    ensures r.Ok? ==> r.value.fine == FineCents(book.dueDate.value, today)
    ensures r.Ok? ==> |r.value.library.books| == |lib.books| && |r.value.library.users| == |lib.users|
    ensures r.Ok? ==> forall i :: 0 <= i < |lib.books| ==>
      r.value.library.books[i] ==
        if lib.books[i].id == book.id then lib.books[i].(borrowedById := None, dueDate := None)
        else lib.books[i]
    ensures r.Ok? ==> forall i :: 0 <= i < |lib.users| ==>
      r.value.library.users[i] ==
        if lib.users[i].id == book.borrowedById.value
        then lib.users[i].(fines := lib.users[i].fines + r.value.fine)
        else lib.users[i]
    ensures r.Ok? ==> forall i :: 0 <= i < |lib.users| ==>
      r.value.library.users[i].fines >= lib.users[i].fines
  {
    if !IsOnLoan(book) then Err(NotOnLoan)
    else
      var borrower := book.borrowedById.value;
      var fine := FineCents(book.dueDate.value, today);
      var users := if fine > 0 then Charge(lib.users, borrower, fine) else lib.users;
      Ok(Returned(Library(Shelve(lib.books, book.id), users), fine))
  }

  datatype DeleteUserError = HasActiveLoans

  /**
   `handleDeleteUser`: refuse while the user holds a book; otherwise, if the
   confirmation is accepted, drop every user with that id.
   */
  function DeleteUser(lib: Library, id: int, confirmed: bool): (r: Result<Library, DeleteUserError>)
    ensures r.Err? <==> ActiveLoans(lib.books, id) > 0
    ensures r.Ok? ==> r.value.books == lib.books
    ensures r.Ok? && !confirmed ==> r.value == lib
    ensures r.Ok? && confirmed ==>
      && IsSubseq(r.value.users, lib.users)
      && (forall i :: 0 <= i < |r.value.users| ==> r.value.users[i].id != id)
      && (forall i :: 0 <= i < |lib.users| && lib.users[i].id != id ==> lib.users[i] in r.value.users)
      && (forall v {:trigger multiset(r.value.users)[v]} :: multiset(r.value.users)[v] == if v.id == id then 0 else multiset(lib.users)[v])
  {
    LoanCountPositiveIff(lib.books, id);
    if HasLoanTo(lib.books, id) then Err(HasActiveLoans)
    else if confirmed then
      FilterIsSubseq(lib.users, (u: User) => u.id != id);
      Ok(lib.(users := Filter(lib.users, (u: User) => u.id != id)))
    else Ok(lib)
  }

  // ---------------------------------------------------------------------------
  // Lemmas about lending and returning
  // ---------------------------------------------------------------------------

  /**
   The borrowing limit by role: a faculty member may borrow while holding fewer
   than 10 books, a student while holding fewer than 5; so a student's fifth
   loan is granted and the sixth refused.
   */
  lemma LimitByRole(lib: Library, selected: Book, userId: int, today: int)
    requires FindUser(lib.users, userId).Some?
    ensures var role := FindUser(lib.users, userId).value.role;
            var r := Borrow(lib, Some(selected), userId, today);
            && (role.Faculty? ==> (r.Ok? <==> ActiveLoans(lib.books, userId) < 10))
            && (role.Student? ==> (r.Ok? <==> ActiveLoans(lib.books, userId) < 5))
            && (r.Err? ==> r.error == LimitReached(BorrowLimit(role), ActiveLoans(lib.books, userId)))
  {
  }

  /** A faculty loan is due in 30 days, a student loan in 14. */
  lemma DueDateByRole(lib: Library, selected: Book, userId: int, today: int, k: nat)
    requires k < |lib.books| && lib.books[k].id == selected.id
    requires Borrow(lib, Some(selected), userId, today).Ok?
    ensures var role := FindUser(lib.users, userId).value.role;
            var lent := Borrow(lib, Some(selected), userId, today).value.books[k];
            && lent.borrowedById == Some(userId)
            && lent.dueDate == Some(today + if role.Faculty? then 30 else 14)
  {
  }

  /** How many books carry id `bookId`. */
  function Copies(books: seq<Book>, bookId: int): nat {
    |Filter(books, (b: Book) => b.id == bookId)|
  }

  /** With unique ids, a present id is carried by exactly one book. */
  lemma {:induction false} OneCopy(books: seq<Book>, bookId: int)
    requires UniqueBookIds(books)
    requires HasBookId(books, bookId)
    ensures Copies(books, bookId) == 1
    decreases |books|
  {
    var rest := books[1..];
    assert UniqueBookIds(rest) by {
      forall i, j | 0 <= i < |rest| && 0 <= j < |rest| && rest[i].id == rest[j].id
        ensures i == j
      {
        assert books[i + 1].id == books[j + 1].id;
      }
    }
    if books[0].id == bookId {
      forall i | 0 <= i < |rest|
        ensures rest[i].id != bookId
      {
        assert books[i + 1].id != books[0].id;
      }
      FilterEmptyIff(rest, (b: Book) => b.id == bookId);
    } else {
      var k :| 0 <= k < |books| && books[k].id == bookId;
      assert rest[k - 1].id == bookId;
      OneCopy(rest, bookId);
    }
  }

  /**
   Lending every copy of `bookId` (all of them on the shelf) to `userId` adds
   those copies to that user's loans and leaves every other user's count alone.
   */
  lemma {:induction false} LendCounts(books: seq<Book>, bookId: int, userId: int, due: int, other: int)
    requires forall i :: 0 <= i < |books| && books[i].id == bookId ==> books[i].borrowedById.None?
    ensures ActiveLoans(Lend(books, bookId, userId, due), other) ==
            ActiveLoans(books, other) + (if other == userId then Copies(books, bookId) else 0)
    decreases |books|
  {
    if |books| > 0 {
      var rest := books[1..];
      assert Lend(books, bookId, userId, due)[1..] == Lend(rest, bookId, userId, due);
      LendCounts(rest, bookId, userId, due, other);
    }
  }

  /**
   Lending an available book with a unique id raises the borrower's loan count
   by exactly one and leaves every other user's count unchanged.
   */
  lemma BorrowAddsOneLoan(lib: Library, selected: Book, userId: int, today: int, other: int)
    requires UniqueBookIds(lib.books)
    requires HasBookId(lib.books, selected.id)
    requires forall i :: 0 <= i < |lib.books| && lib.books[i].id == selected.id ==> lib.books[i].borrowedById.None?
    requires Borrow(lib, Some(selected), userId, today).Ok?
    ensures ActiveLoans(Borrow(lib, Some(selected), userId, today).value.books, other) ==
            ActiveLoans(lib.books, other) + (if other == userId then 1 else 0)
  {
    var user := FindUser(lib.users, userId).value;
    OneCopy(lib.books, selected.id);
    LendCounts(lib.books, selected.id, userId, today + LoanDays(user.role), other);
  }

  /** Every user holds no more books than their role allows. */
  predicate WithinLimits(lib: Library) {
    forall i :: 0 <= i < |lib.users| ==> ActiveLoans(lib.books, lib.users[i].id) <= BorrowLimit(lib.users[i].role)
  }

  /**
   Borrowing keeps every user within their limit: a student never holds more
   than 5 books and a faculty member never more than 10.
   */
  lemma BorrowKeepsLimits(lib: Library, selected: Book, userId: int, today: int)
    requires UniqueBookIds(lib.books) && UniqueUserIds(lib.users)
    requires HasBookId(lib.books, selected.id)
    requires forall i :: 0 <= i < |lib.books| && lib.books[i].id == selected.id ==> lib.books[i].borrowedById.None?
    requires WithinLimits(lib)
    requires Borrow(lib, Some(selected), userId, today).Ok?
    ensures WithinLimits(Borrow(lib, Some(selected), userId, today).value)
  {
    var next := Borrow(lib, Some(selected), userId, today).value;
    forall i | 0 <= i < |next.users|
      ensures ActiveLoans(next.books, next.users[i].id) <= BorrowLimit(next.users[i].role)
    {
      BorrowAddsOneLoan(lib, selected, userId, today, lib.users[i].id);
      if lib.users[i].id == userId {
        var user := FindUser(lib.users, userId).value;
        var k :| 0 <= k < |lib.users| && lib.users[k] == user;
        assert k == i;
      }
    }
  }

  /** Lending and returning both keep every book fully on the shelf or fully on loan. */
  lemma BorrowReturnKeepWellFormed(lib: Library, selected: Option<Book>, userId: int, book: Book, today: int)
    requires WellFormed(lib)
    ensures Borrow(lib, selected, userId, today).Ok? ==> WellFormed(Borrow(lib, selected, userId, today).value)
    ensures ReturnBook(lib, book, today).Ok? ==> WellFormed(ReturnBook(lib, book, today).value.library)
  {
  }

  /**
   Taking a book back on the day it was lent undoes the loan completely and
   costs nothing (the borrower's id must be non-zero, or the return is ignored).
   */
  lemma BorrowThenReturnSameDay(lib: Library, selected: Book, userId: int, today: int, k: nat)
    requires userId != 0
    requires k < |lib.books| && lib.books[k].id == selected.id
    requires forall i :: 0 <= i < |lib.books| && lib.books[i].id == selected.id ==>
               lib.books[i].borrowedById.None? && lib.books[i].dueDate.None?
    requires Borrow(lib, Some(selected), userId, today).Ok?
    ensures var lent := Borrow(lib, Some(selected), userId, today).value;
            ReturnBook(lent, lent.books[k], today) == Ok(Returned(lib, 0))
  {
    var lent := Borrow(lib, Some(selected), userId, today).value;
    var back := ReturnBook(lent, lent.books[k], today);
    assert back.Ok?;
    assert back.value.fine == 0;
    assert back.value.library.books == lib.books;
  }

  /** Once a user holds no book, deleting them (when confirmed) goes through. */
  lemma DeleteUserAllowedWithoutLoans(lib: Library, id: int)
    requires forall i :: 0 <= i < |lib.books| ==> lib.books[i].borrowedById != Some(id)
    ensures DeleteUser(lib, id, true).Ok?
  {
    LoanCountPositiveIff(lib.books, id);
  }
}
