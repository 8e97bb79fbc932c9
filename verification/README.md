# Library circulation rules, in Dafny

This project models the circulation core of a small library-management web
application. The core is the state held by its top-level `App` component: a
list of books and a list of users. The application's event handlers change
that state. They add, edit and delete books and users, lend a book to a user
and take a book back. The model also covers:
- the due-date badge shown on each book card;
- the search boxes and drop-down filters of the book list, the user list and
  the borrower picker.

The model is purely functional.

- `Types.Library` holds `books: seq<Book>` and `users: seq<User>` (the records
  of `types.ts`). A null field is `Option.None`.
- Dates are whole day numbers. The day the handler runs, `today`, is a
  parameter.
- Money is integer cents. The overdue fine is 50 cents per day.
- Each handler is a function from the current `Library` to the next one.
  - A handler that stops early returns `Err`. This covers an alert (limit
    reached, user still holds books) and a silent `return` (no book selected,
    unknown user, book not on loan). After an `Err`, the caller keeps the old
    library unchanged.
  - `window.confirm` becomes a `confirmed: bool` parameter.
  - Ids generated with `Date.now()` become caller-supplied ids.

Modules:
- `Results`: `Option` and `Result`.
- `Types`: `Book`, `User`, `Library`, and the lending invariant `WellFormed`. A
  book's `borrowedById` is null exactly when its `dueDate` is null.
- `Policy`: loan length, borrowing limit and the overdue fine.
- `Circulation`: borrowing, returning and deleting a user.
- `Catalog`: adding and updating books and users, and deleting books, plus the records
  the edit forms save.
- `Search`: the book filter, the user filter and the borrower-picker search.
- `DueDates`: `formatDueDate`.
- `Text`: ASCII lower-casing, substring search and decimal rendering of
  integers.
- `Seqs`: order-preserving filtering.
- `Scenarios`: the starting library of the fixtures and worked examples.

Faithfulness notes:
- **Borrowing does not check availability.** `handleConfirmBorrow` does not
  check that the chosen book is on the shelf. The book card only offers
  "Borrow" while it is (components/BookCard.tsx:27, 36-42). `Borrow` therefore
  lends whatever book was selected. Availability is a hypothesis of the lemmas
  that count loans (`BorrowAddsOneLoan`, `BorrowKeepsLimits`).
- **Borrower id 0.** The return handler tests `!book.borrowedById`, and a
  borrower id of 0 is falsy in JavaScript. `IsOnLoan` therefore treats such a
  book as not on loan, and returning it is refused. The borrow/return round
  trip (`BorrowThenReturnSameDay`) requires a non-zero user id.
- **Updates replace whole records.** The book and user forms save the old
  record with only the edited fields changed (components/BookFormModal.tsx:39,
  components/UserFormModal.tsx:34). `EditBook` and `EditUser` model those
  records.
- **The add-user wiring.** App.tsx:211 wires the user form's "add" action to
  `handleAddBook`. `AddUser` models `handleAddUser`, the handler evidently
  intended, and does not reproduce the wiring.

## Model

| member | source | states |
|---|---|---|
| Circulation.Borrow | App.tsx:77-96 | no selected book or an unknown user id is refused; the borrow succeeds exactly when the first user with that id holds fewer books than their role's limit; a refusal at the limit reports the limit and the count; on success the users are untouched, every book with the selected id gets the borrower and a due date today plus the role's loan length, and every other book is unchanged |
| Circulation.LimitByRole | App.tsx:82-88 | for a known user, a faculty borrow succeeds iff they hold fewer than 10 books and a student borrow iff fewer than 5; a refusal is LimitReached with that limit and the current count |
| Circulation.DueDateByRole | App.tsx:90-93 | after a successful borrow the chosen book names the borrower and is due in 30 days for faculty, 14 for students |
| Circulation.FindUser | App.tsx:79 | `users.find`: absent exactly when no user has the id; otherwise a user with that id, and no earlier user has it |
| Circulation.BorrowAddsOneLoan | App.tsx:82-93 | lending an available book whose id is unique raises the borrower's loan count by exactly one and leaves every other user's count unchanged |
| Circulation.LendCounts | App.tsx:82-93 | lending every shelved copy of an id adds those copies to the borrower's count and nothing to anyone else's |
| Circulation.BorrowKeepsLimits | App.tsx:82-88 | with book and user ids unique, if every user is within their role's limit before a successful borrow of an available book, every user is within it afterwards |
| Circulation.ReturnBook | App.tsx:98-117 | a book without a (truthy) borrower or without a due date is refused; otherwise the fine is the overdue fine for its due date, every book with its id is shelved with both fields cleared, every other book is unchanged, only users with the borrower's id gain exactly the fine, and no user's fines decrease |
| Circulation.BorrowReturnKeepWellFormed | App.tsx:93-116 | borrowing and returning keep every book either fully on loan or fully on the shelf |
| Circulation.BorrowThenReturnSameDay | App.tsx:90-116 | taking an available book back on the day it was lent costs nothing and restores the library exactly |
| Circulation.LoanCountPositiveIff | App.tsx:62 | a user's loan count is positive exactly when some book names them as borrower |
| Circulation.DeleteUser | App.tsx:61-69 | refused exactly when the user holds a book; otherwise books are untouched, an unconfirmed delete changes nothing, and a confirmed one leaves an order-preserving subsequence of the users with no user of that id and every other user kept as many times as it occurs |
| Circulation.DeleteUserAllowedWithoutLoans | App.tsx:61-69 | once no book names the user as borrower, a confirmed delete goes through |
| Policy.FineCents | App.tsx:101-109 | a return is fined exactly when it happens after the due date |
| Policy.FineChargesEachOverdueDay | App.tsx:104-106 | the fine is 50 cents times the number of days after the due date up to and including the return day |
| Policy.FineGrowsDaily | App.tsx:104-106 | returning a day later never costs less, and past the due date costs exactly 50 cents more |
| Policy.OverdueDaysCount | App.tsx:105 | the number of overdue days is today minus the due date when positive, otherwise zero |
| Catalog.AddBook | App.tsx:38-40 | users untouched; the old books are kept in order and one book is appended with the given id, title, author and genre, no borrower and no due date |
| Catalog.AddBookKeepsIdsUnique | App.tsx:38-40 | adding a book under an unused id keeps book ids unique |
| Catalog.AddBookKeepsLoans | App.tsx:38-40 | adding a book changes no user's loan count |
| Catalog.UpdateBook | App.tsx:42-44 | users untouched; every book with the edited id becomes the edited record and every other book is unchanged |
| Catalog.EditBookKeepsLending | components/BookFormModal.tsx:39 | saving an edit from the book form keeps every book's borrower and due date (ids unique), so the lending invariant is preserved |
| Catalog.DeleteBook | App.tsx:46-50 | users untouched; unconfirmed changes nothing; confirmed leaves an order-preserving subsequence with no book of that id and every other book kept as many times as it occurs |
| Catalog.AddUser | App.tsx:53-55 | books untouched; the old users are kept in order and one user is appended with the given id, name and role and no fines |
| Catalog.AddUserKeepsIdsUnique | App.tsx:53-55 | adding a user under an unused id keeps user ids unique |
| Catalog.UpdateUser | App.tsx:57-59 | books untouched; every user with the edited id becomes the edited record and every other user is unchanged |
| Catalog.EditUserKeepsFines | components/UserFormModal.tsx:34 | with user ids unique, saving an edit from the user form keeps every user's fines and id |
| Catalog.CatalogKeepsWellFormed | App.tsx:38-59 | adding or deleting a book and adding or updating a user keep every book fully on loan or fully on the shelf |
| Search.FilterBooks | App.tsx:130-143 | the result is an order-preserving subsequence; every shown book contains the lower-cased term in its lower-cased title or author and matches the genre and availability filters; every book doing so is shown as many times as it occurs, and every other book not at all; an empty term with both filters on "all" shows the list unchanged |
| Search.FilterUsers | App.tsx:145-154 | the result is an order-preserving subsequence; every shown user has the lower-cased term in their lower-cased name or the term in their decimal id and matches the role filter; every such user is shown as many times as they occur, and every other user not at all; an empty term with "all" roles shows the list unchanged |
| Search.SelectableUsers | components/SelectUserModal.tsx:16-22 | an empty term returns the users unchanged; the result is an order-preserving subsequence; it holds exactly the users whose lower-cased name contains the lower-cased term or whose decimal id contains the term, each as many times as it occurs in the input |
| Search.BookMatchesIff | App.tsx:131-141 | for every book, the book-list test passes exactly when the lower-cased term occurs in the lower-cased title or author and the genre and availability filters admit it |
| Search.UserMatchesIff | App.tsx:147-149 | for every user, the name-or-id test passes exactly when the lower-cased term occurs in the lower-cased name or the term occurs in the decimal id |
| Search.PickerAgreesWithUserList | components/SelectUserModal.tsx:16-22 | the borrower picker lists exactly what the user list shows for the same term with all roles |
| Text.IncludesIff | App.tsx:132-133 | the `includes` scan succeeds exactly when the needle occurs at some position of the haystack |
| Text.Lower | App.tsx:133 | `toLowerCase` on ASCII: same length, no capital letter left, each capital becomes its small letter and every other character is kept |
| Text.LowerIdempotent | App.tsx:133 | lower-casing an already lower-cased string changes nothing |
| Text.NatToString | utils/dateUtils.ts:19 | the rendering of a day count: at least one digit, only digits, no leading zero, and the digits read back as the number |
| Text.DecimalString | App.tsx:149 | `id.toString()`: a minus sign exactly for a negative id, then the digits of its magnitude with no leading zero, which read back as the magnitude |
| Seqs.Filter | App.tsx:131 | `filter` keeps only elements satisfying the predicate, keeps each element that does as many times as it occurs, drops every other element, and never grows the list |
| Seqs.FilterIsSubseq | App.tsx:131 | `filter` keeps the relative order of the elements it keeps |
| DueDates.FormatDueDate | utils/dateUtils.ts:1-42 | no due date gives empty text and class; otherwise the class is red exactly when overdue, orange exactly when due today, yellow exactly when due in 1 to 5 days and gray exactly beyond, so the four cases are exclusive and cover every day difference; the text is "N day(s) overdue" with N the days late, "Due today", "Due in N day(s)" within five days, and "Due in N days" beyond |
| DueDates.DueTextRoundTrip | utils/dateUtils.ts:16-41 | the badge text determines the signed day difference: reading it back gives due minus today, and nothing for an empty badge |
| DueDates.BadgeTextRoundTrip | utils/dateUtils.ts:16-41 | for every signed day difference, reading the badge text back gives that difference |
| DueDates.BadgeSingular | utils/dateUtils.ts:16-41 | for every signed day difference, the badge text ends in the singular "day" exactly when the difference is 1 or -1 |
| DueDates.SingularExactlyForOneDay | utils/dateUtils.ts:16-41 | the badge says "day" rather than "days" exactly when the difference is one day either way |
| DueDates.OverdueIffFined | utils/dateUtils.ts:13-16 | the badge is in the overdue style exactly when a return that day would be fined |
| Scenarios.MockLibraryIsConsistent | data/mockData.ts:9-90 | the starting library has unique ids and every book fully on loan or fully on the shelf |
| Scenarios.MockOverdueBadge | data/mockData.ts:58-65 | the card of Bob's copy of "Sapiens", due two days ago, reads "2 days overdue" in the red style |
| Scenarios.MockOverdueReturn | data/mockData.ts:58-65 | returning Bob's copy of "Sapiens" today charges 100 cents, raising his fines from 550 to 650, and shelves it |
| Scenarios.StudentReturnsSixDaysLate | App.tsx:90-109 | a student borrowing on day 0 is due on day 14; returning on day 20 costs 300 cents and restores the book |

## Left out

- Rendering: JSX, modals, the header, control panels, lists and cards. Alerts and confirmation dialogs become `Err` results and a `confirmed` flag.
- The real clock and time zones. The handlers read `new Date()`. The borrow handler stores the UTC calendar date of the due moment as "YYYY-MM-DD" (App.tsx:90-93), and `new Date` reads that string back as UTC midnight. The return handler compares it, unnormalised, with local midnight today (App.tsx:102-106). The badge moves both dates to a local midnight (utils/dateUtils.ts:6-11), which west of UTC is the day before the stored date. The model numbers days on one calendar with `today` injected, so none of these shifts is modelled.
- Policy.FineCents: west of UTC, local midnight today is later than the stored due date's UTC midnight on every day from that date on (App.tsx:102-108). So every return on or after the stored due date is fined one day more than `FineCents`: on the due day `Math.ceil` of a gap of a few hours, under a day, is 1, and three days late costs 200 cents where the model charges 150.
- Floating-point fines and `toFixed(2)` formatting. Fines are integer cents.
- Id generation with `Date.now()`. Ids are parameters. Freshness is a hypothesis of the id-uniqueness lemmas only.
- DueDates.FormatDueDate: the source also treats an empty date string as "no due date". Due dates here are integer days, so only the null case exists.
- Non-integer ids and Unicode case folding. `toString` is modelled for integers only, and `toLowerCase` for ASCII letters only.
- Borrowing histories, paying fines and overdue notifications. No handler in the application maintains them: the user-detail view reads a history field that the `User` type lacks, and fine payment has no handler.
- Sorting users. The sort control's options are never passed by `App`, and no sort exists.
- The genre list. It lives in a constants file that is not part of this model, so a genre is any string.
