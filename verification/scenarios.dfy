/**
 The library the application starts with (`data/mockData.ts` and
 `data/mockUserData.ts`), and worked examples of the circulation rules on it.
 The fixtures date their loans relative to the day the page loads, `today`.
 */
module Scenarios {

  import opened Results
  import opened Types
  import opened Circulation
  import opened DueDates

  /** The five starting users; fines are in cents. */
  function MockUsers(): seq<User> {
    [ User(101, "Alice Johnson", Student, 0),
      User(102, "Bob Williams", Student, 550),
      User(103, "Charlie Brown", Student, 0),
      User(201, "Prof. Diana Miller", Faculty, 0),
      User(202, "Dr. Edward Davis", Faculty, 1200) ]
  }

  /** The ten starting books, as seen on day `today`. */
  function MockBooks(today: int): seq<Book> {
    [ Book(1, "The Hitchhiker's Guide to the Galaxy", "Douglas Adams", "Science Fiction", None, None),
      Book(2, "Pride and Prejudice", "Jane Austen", "Fiction", Some(101), Some(today + 5)),
      Book(3, "To Kill a Mockingbird", "Harper Lee", "Fiction", None, None),
      Book(4, "1984", "George Orwell", "Science Fiction", None, None),
      Book(5, "The Lord of the Rings", "J.R.R. Tolkien", "Fantasy", Some(201), Some(today + 20)),
      Book(6, "The Great Gatsby", "F. Scott Fitzgerald", "Fiction", None, None),
      Book(7, "Sapiens: A Brief History of Humankind", "Yuval Noah Harari", "Non-Fiction", Some(102), Some(today - 2)),
      Book(8, "Clean Code: A Handbook of Agile Software Craftsmanship", "Robert C. Martin", "Computer Science", Some(202), Some(today + 15)),
      Book(9, "The Martian", "Andy Weir", "Science Fiction", None, None),
      Book(10, "And Then There Were None", "Agatha Christie", "Mystery", None, None) ]
  }

  function MockLibrary(today: int): Library {
    Library(MockBooks(today), MockUsers())
  }

  /** The starting library has unique ids and every book fully on the shelf or fully on loan. */
  lemma MockLibraryIsConsistent(today: int)
    ensures WellFormed(MockLibrary(today))
    ensures UniqueBookIds(MockBooks(today)) && UniqueUserIds(MockUsers())
  {
  }

  /** The badge on Bob's copy of "Sapiens", two days late, says so in red. */
  lemma MockOverdueBadge(today: int)
    ensures FormatDueDate(MockBooks(today)[6].dueDate, today) == DueLabel("2 days overdue", OverdueClass)
  {
    assert Text.NatToString(2) == "2";
    assert OverdueText(2) == "2 days overdue";
  }

  /** Taking Bob's late copy of "Sapiens" back today adds $1.00 to his $5.50 and shelves the book. */
  lemma MockOverdueReturn(today: int)
    ensures var r := ReturnBook(MockLibrary(today), MockBooks(today)[6], today);
            && r.Ok?
            && r.value.fine == 100
            && r.value.library.users[1].fines == 650
            && r.value.library.books[6].borrowedById.None?
  {
  }

  /**
   A student who borrows a book on day 0 is due on day 14; taking it back on
   day 20 costs six days at 50 cents, $3.00, and frees the book.
   */
  lemma StudentReturnsSixDaysLate(lib: Library, k: nat, userId: int)
    requires k < |lib.books| && lib.books[k].borrowedById.None? && lib.books[k].dueDate.None?
    requires userId != 0
    requires FindUser(lib.users, userId).Some? && FindUser(lib.users, userId).value.role == Student
    requires ActiveLoans(lib.books, userId) < 5
    ensures var lent := Borrow(lib, Some(lib.books[k]), userId, 0);
            && lent.Ok?
            && lent.value.books[k].dueDate == Some(14)
            && var back := ReturnBook(lent.value, lent.value.books[k], 20);
               && back.Ok?
               && back.value.fine == 300
               && back.value.library.books[k] == lib.books[k]
  {
  }
}
