/**
 The search boxes and drop-down filters of the book list and the user list
 (`App.tsx`), and the name-or-id search of the borrower picker
 (`components/SelectUserModal.tsx`). Each is an order-preserving filter.
 */
module Search {

  import opened Types
  import opened Seqs
  import opened Text

  datatype GenreFilter = AllGenres | OnlyGenre(genre: Genre)
  datatype AvailabilityFilter = AnyAvailability | AvailableOnly | BorrowedOnly
  datatype RoleFilter = AllRoles | OnlyRole(role: Role)

  /** The test the book list applies to each book. */
  predicate BookMatches(b: Book, term: string, genre: GenreFilter, availability: AvailabilityFilter) {
    var matchesSearch := Includes(Lower(b.title), Lower(term)) || Includes(Lower(b.author), Lower(term));
    var matchesGenre := genre.AllGenres? || b.genre == genre.genre;
    var matchesAvailability :=
      || availability.AnyAvailability?
      || (availability.AvailableOnly? && b.borrowedById.None?)
      || (availability.BorrowedOnly? && b.borrowedById.Some?);
    matchesSearch && matchesGenre && matchesAvailability
  }

  /** What a book shown for these settings satisfies, stated with substring occurrence. */
  ghost predicate BookSelected(b: Book, term: string, genre: GenreFilter, availability: AvailabilityFilter) {
    && (ContainsSub(Lower(b.title), Lower(term)) || ContainsSub(Lower(b.author), Lower(term)))
    && (genre.OnlyGenre? ==> b.genre == genre.genre)
    && (availability.AvailableOnly? ==> b.borrowedById.None?)
    && (availability.BorrowedOnly? ==> b.borrowedById.Some?)
  }

  /** The book test and its substring reading agree on every book. */
  lemma BookMatchesIff(term: string, genre: GenreFilter, availability: AvailabilityFilter)
    ensures forall b :: BookMatches(b, term, genre, availability) <==> BookSelected(b, term, genre, availability)
  {
    IncludesMeansContains();
  }

  /** The `filteredBooks` memo of `App`. */
  function FilterBooks(books: seq<Book>, term: string, genre: GenreFilter, availability: AvailabilityFilter): (r: seq<Book>)
    ensures IsSubseq(r, books)
    ensures forall i :: 0 <= i < |r| ==> BookSelected(r[i], term, genre, availability)
    ensures forall i :: 0 <= i < |books| && BookSelected(books[i], term, genre, availability) ==> books[i] in r
    ensures forall b {:trigger multiset(r)[b]} :: multiset(r)[b] == if BookSelected(b, term, genre, availability) then multiset(books)[b] else 0
    ensures term == "" && genre.AllGenres? && availability.AnyAvailability? ==> r == books
  {
    var p := (b: Book) => BookMatches(b, term, genre, availability);
    BookMatchesIff(term, genre, availability);
    FilterIsSubseq(books, p);
    if term == "" && genre.AllGenres? && availability.AnyAvailability? then
      assert Lower(term) == "";
      FilterKeepsAll(books, p);
      Filter(books, p)
    else
      Filter(books, p)
  }

  /** The name-or-id test of both user searches. */
  predicate UserMatchesSearch(u: User, term: string) {
    Includes(Lower(u.name), Lower(term)) || Includes(DecimalString(u.id), term)
  }

  /** What a user shown for `term` satisfies, stated with substring occurrence. */
  ghost predicate UserFound(u: User, term: string) {
    ContainsSub(Lower(u.name), Lower(term)) || ContainsSub(DecimalString(u.id), term)
  }

  /** The name-or-id test and its substring reading agree on every user. */
  lemma UserMatchesIff(term: string)
    ensures forall u :: UserMatchesSearch(u, term) <==> UserFound(u, term)
  {
    IncludesMeansContains();
  }

  /** The `filteredUsers` memo of `App`. */
  function FilterUsers(users: seq<User>, term: string, role: RoleFilter): (r: seq<User>)
    ensures IsSubseq(r, users)
    ensures forall i :: 0 <= i < |r| ==> UserFound(r[i], term) && (role.OnlyRole? ==> r[i].role == role.role)
    ensures forall i :: 0 <= i < |users| && UserFound(users[i], term) && (role.OnlyRole? ==> users[i].role == role.role)
              ==> users[i] in r
    ensures forall u {:trigger multiset(r)[u]} :: multiset(r)[u] ==
              if UserFound(u, term) && (role.OnlyRole? ==> u.role == role.role) then multiset(users)[u] else 0
    ensures term == "" && role.AllRoles? ==> r == users
  {
    var p := (u: User) => UserMatchesSearch(u, term) && (role.AllRoles? || u.role == role.role);
    UserMatchesIff(term);
    FilterIsSubseq(users, p);
    if term == "" && role.AllRoles? then
      assert Lower(term) == "";
      FilterKeepsAll(users, p);
      Filter(users, p)
    else
      Filter(users, p)
  }

  /** The `filteredUsers` memo of the borrower picker. */
  function SelectableUsers(users: seq<User>, term: string): (r: seq<User>)
    ensures term == "" ==> r == users
    ensures IsSubseq(r, users)
    ensures forall i :: 0 <= i < |r| ==> UserFound(r[i], term)
    ensures forall i :: 0 <= i < |users| && UserFound(users[i], term) ==> users[i] in r
    ensures forall u {:trigger multiset(r)[u]} :: multiset(r)[u] == if UserFound(u, term) then multiset(users)[u] else 0
  {
    UserMatchesIff(term);
    if term == "" then
      assert forall i :: 0 <= i < |users| ==> UserFound(users[i], term) by {
        assert Lower(term) == "";
        forall i | 0 <= i < |users| ensures UserFound(users[i], term) {
          EmptyIsEverywhere(Lower(users[i].name));
        }
      }
      SubseqOfItself(users);
      users
    else
      FilterIsSubseq(users, (u: User) => UserMatchesSearch(u, term));
      Filter(users, (u: User) => UserMatchesSearch(u, term))
  }

  /**
   The borrower picker lists exactly the users the user list shows for the
   same search with the role filter on "all": its early return for an empty
   search agrees with the filter.
   */
  lemma PickerAgreesWithUserList(users: seq<User>, term: string)
    ensures SelectableUsers(users, term) == FilterUsers(users, term, AllRoles)
  {
    if term != "" {
      FilterSamePredicate(users, (u: User) => UserMatchesSearch(u, term),
                                 (u: User) => UserMatchesSearch(u, term) && (AllRoles.AllRoles? || u.role == AllRoles.role));
    }
  }
}
