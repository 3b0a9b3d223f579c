/** The registry's state and what each `Library` operation does to it, as functions of the
    state. The class `Catalog.Library` holds this state in mutable fields and its methods are
    specified by these functions. */
module Registry {
  import opened Wrappers
  import opened Seqs
  import opened Text
  import opened Books
  import opened Users
  import opened Records

  /** The three fields of `Library`: books by ISBN, members by ID, and the loan records in the
      order they were made. */
  datatype LibraryState = LibraryState(
    books: map<Isbn, Book>,
    users: map<UserId, User>,
    history: seq<BorrowingRecord>)

  /** `new Library()`: nothing catalogued, nobody registered, no loans. */
  function Empty(): (s: LibraryState)
    ensures s.books == map[] && s.users == map[] && s.history == []
  {
    LibraryState(map[], map[], [])
  }

  /** `addBook`: a new ISBN gets one new, available book; an ISBN already present leaves the
      whole state as it was. */
  function AfterAddBook(s: LibraryState, title: string, author: string, isbn: Isbn, genre: string): (r: LibraryState)
    ensures isbn in s.books ==> r == s
    ensures isbn !in s.books ==>
      && r.books.Keys == s.books.Keys + {isbn}
      && r.books[isbn] == NewBook(title, author, isbn, genre)
      && (forall i :: i in s.books ==> r.books[i] == s.books[i])
      && r.users == s.users && r.history == s.history
  {
    if isbn in s.books then s
    else s.(books := s.books[isbn := NewBook(title, author, isbn, genre)])
  }

  /** `removeBook`: the ISBN is gone afterwards, every other book is kept, and members and loan
      records are left untouched, even those that refer to the removed book. */
  function AfterRemoveBook(s: LibraryState, isbn: Isbn): (r: LibraryState)
    ensures r.books.Keys == s.books.Keys - {isbn}
    ensures forall i :: i in r.books ==> r.books[i] == s.books[i]
    ensures r.users == s.users && r.history == s.history
  {
    s.(books := s.books - {isbn})
  }

  /** `findBook`: the book catalogued under the ISBN, or null. */
  function FindBook(s: LibraryState, isbn: Isbn): (r: Option<Book>)
    ensures r.Some? <==> isbn in s.books
    ensures r.Some? ==> r.value == s.books[isbn]
  {
    if isbn in s.books then Some(s.books[isbn]) else None
  }

  /** `showAllBooks`: every catalogued book (the list's order follows the hash map and is not
      modelled). */
  function AllBooks(s: LibraryState): (r: set<Book>)
    ensures forall b :: b in r <==> exists i :: i in s.books && s.books[i] == b
  {
    s.books.Values
  }

  /** `showAllUsers`: every registered member. */
  function AllUsers(s: LibraryState): (r: set<User>)
    ensures forall u :: u in r <==> exists id :: id in s.users && s.users[id] == u
  {
    s.users.Values
  }

  /** A book matches a lower-cased search term when its lower-cased title, author or genre
      contains it. */
  predicate Matches(b: Book, term: string)
  {
    Contains(Lower(b.title), term) || Contains(Lower(b.author), term) || Contains(Lower(b.genre), term)
  }

  /** `searchBooks`: a null query, or one that is blank after trimming, finds nothing;
      otherwise the result is exactly the catalogued books that match the trimmed, lower-cased
      query. */
  function SearchBooks(s: LibraryState, query: Option<string>): (r: set<Book>)
    ensures query.None? ==> r == {}
    ensures query.Some? && (forall k :: 0 <= k < |query.value| ==> IsBlankChar(query.value[k])) ==> r == {}
    ensures query.Some? && Trim(query.value) != [] ==>
      forall b :: b in r <==> b in AllBooks(s) && Matches(b, Lower(Trim(query.value)))
  {
    if query.None? || Trim(query.value) == [] then {}
    else
      var term := Lower(Trim(query.value));
      set i | i in s.books && Matches(s.books[i], term) :: s.books[i]
  }

  /** `registerUser`: a new ID gets one new member of the requested type with no books; an ID
      already present leaves the whole state as it was. */
  function AfterRegisterUser(s: LibraryState, name: string, userId: UserId, email: string, t: UserType): (r: LibraryState)
    ensures userId in s.users ==> r == s
    ensures userId !in s.users ==>
      && r.users.Keys == s.users.Keys + {userId}
      && r.users[userId] == NewUser(name, userId, email, t)
      && (forall id :: id in s.users ==> r.users[id] == s.users[id])
      && r.books == s.books && r.history == s.history
  {
    if userId in s.users then s
    else s.(users := s.users[userId := NewUser(name, userId, email, t)])
  }

  /** `findUser`: the member registered under the ID, or null. */
  function FindUser(s: LibraryState, userId: UserId): (r: Option<User>)
    ensures r.Some? <==> userId in s.users
    ensures r.Some? ==> r.value == s.users[userId]
  {
    if userId in s.users then Some(s.users[userId]) else None
  }

  /** The checks `borrowBook` makes before changing anything: member and book exist, the book
      is on the shelf, and the member is under the limit. */
  predicate BorrowAllowed(s: LibraryState, userId: UserId, isbn: Isbn)
  {
    && userId in s.users && isbn in s.books
    && s.books[isbn].available
    && CanBorrow(s.users[userId])
  }

  /** `borrowBook` on day `today`. When the checks fail, nothing changes. Otherwise the book is
      marked unavailable, its ISBN is appended to the member's list, and one record of this
      member, this book and this day is appended to the history; nothing else changes. */
  function AfterBorrow(s: LibraryState, userId: UserId, isbn: Isbn, today: Day): (r: LibraryState)
    ensures !BorrowAllowed(s, userId, isbn) ==> r == s
    ensures BorrowAllowed(s, userId, isbn) ==>
      && r.books.Keys == s.books.Keys && r.users.Keys == s.users.Keys
      && r.books[isbn] == s.books[isbn].(available := false)
      && r.users[userId] == s.users[userId].(borrowedBooks := s.users[userId].borrowedBooks + [isbn])
      && (forall i :: i in s.books && i != isbn ==> r.books[i] == s.books[i])
      && (forall id :: id in s.users && id != userId ==> r.users[id] == s.users[id])
      && r.history == s.history + [BorrowingRecord(r.users[userId], r.books[isbn], today)]
  {
    if !BorrowAllowed(s, userId, isbn) then s
    else
      var book := s.books[isbn].(available := false);
      var user := s.users[userId].(borrowedBooks := s.users[userId].borrowedBooks + [isbn]);
      LibraryState(
        s.books[isbn := book],
        s.users[userId := user],
        s.history + [BorrowingRecord(user, book, today)])
  }

  /** The checks `returnBook` makes before changing anything: member and book exist, the book
      is out, and it is on this member's list. */
  predicate ReturnAllowed(s: LibraryState, userId: UserId, isbn: Isbn)
  {
    && userId in s.users && isbn in s.books
    && !s.books[isbn].available
    && isbn in s.users[userId].borrowedBooks
  }

  /** The loan history without the records of one ISBN (`removeIf`), in the same order. */
  function WithoutIsbn(h: seq<BorrowingRecord>, isbn: Isbn): (r: seq<BorrowingRecord>)
    ensures forall rec :: rec in r <==> rec in h && rec.book.isbn != isbn
  {
    Filter(h, NotOf(isbn))
  }

  /** The `removeIf` condition, negated: the record is not of this ISBN. */
  function NotOf(isbn: Isbn): BorrowingRecord -> bool
  {
    (rec: BorrowingRecord) => rec.book.isbn != isbn
  }

  /** `returnBook`. When the checks fail, nothing changes. Otherwise the first occurrence of the
      ISBN leaves the member's list, the book is back on the shelf, and every record of that
      ISBN, whoever made it, leaves the history; nothing else changes. */
  function AfterReturn(s: LibraryState, userId: UserId, isbn: Isbn): (r: LibraryState)
    ensures !ReturnAllowed(s, userId, isbn) ==> r == s
    ensures ReturnAllowed(s, userId, isbn) ==>
      && r.books.Keys == s.books.Keys && r.users.Keys == s.users.Keys
      && r.books[isbn] == s.books[isbn].(available := true)
      && r.users[userId].(borrowedBooks := s.users[userId].borrowedBooks) == s.users[userId]
      && |r.users[userId].borrowedBooks| == |s.users[userId].borrowedBooks| - 1
      && multiset(r.users[userId].borrowedBooks) == multiset(s.users[userId].borrowedBooks) - multiset{isbn}
      && (forall i :: i in s.books && i != isbn ==> r.books[i] == s.books[i])
      && (forall id :: id in s.users && id != userId ==> r.users[id] == s.users[id])
      && r.history == WithoutIsbn(s.history, isbn)
  {
    if !ReturnAllowed(s, userId, isbn) then s
    else
      var user := s.users[userId].(borrowedBooks := RemoveFirst(s.users[userId].borrowedBooks, isbn));
      LibraryState(
        s.books[isbn := s.books[isbn].(available := true)],
        s.users[userId := user],
        WithoutIsbn(s.history, isbn))
  }

  /** `getOverdueBooks` on day `today`: the records the (inverted) overdue predicate selects,
      in history order; the state is not changed (it is a function of it). */
  function OverdueRecords(s: LibraryState, today: Day): (r: seq<BorrowingRecord>)
    ensures |r| <= |s.history|
    ensures forall rec :: rec in r <==> rec in s.history && IsOverdue(rec, today)
  {
    Filter(s.history, OverdueOn(today))
  }

  /** The stream filter of `getOverdueBooks`. */
  function OverdueOn(today: Day): BorrowingRecord -> bool
  {
    (rec: BorrowingRecord) => IsOverdue(rec, today)
  }

  /** The overdue query as its name intends: the records whose due date is before `today`, in
      history order. */
  function LateRecords(s: LibraryState, today: Day): (r: seq<BorrowingRecord>)
    ensures |r| <= |s.history|
    ensures forall rec :: rec in r <==> rec in s.history && IsLate(rec, today)
  {
    Filter(s.history, LateOn(today))
  }

  /** The filter of the intended overdue query. */
  function LateOn(today: Day): BorrowingRecord -> bool
  {
    (rec: BorrowingRecord) => IsLate(rec, today)
  }
}
