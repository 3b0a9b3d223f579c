/** The `Library` class: the registry's three collections as mutable fields, and the operations
    that change them. Each method is specified by the matching function of `Registry`, and the
    ones that keep the registry consistent say so. The read-only operations (`findBook`,
    `findUser`, `searchBooks`, `showAllBooks`, `getOverdueBooks`) are the functions of
    `Registry` applied to `State()`. */
module Catalog {
  import opened Seqs
  import opened Books
  import opened Users
  import opened Records
  import opened Registry
  import opened RegistryInvariants

  class Library {
    var books: map<Isbn, Book>
    var users: map<UserId, User>
    var history: seq<BorrowingRecord>

    /** The registry's current state as a value. */
    function State(): LibraryState
      reads this
    {
      LibraryState(books, users, history)
    }

    constructor ()
      ensures State() == Empty()
      ensures Consistent(State())
    {
      books := map[];
      users := map[];
      history := [];
      EmptyConsistent();
    }

    method AddBook(title: string, author: string, isbn: Isbn, genre: string)
      modifies this
      ensures State() == AfterAddBook(old(State()), title, author, isbn, genre)
      ensures old(Consistent(State())) ==> Consistent(State())
    {
      ghost var before := State();
      if isbn !in books {
        books := books[isbn := NewBook(title, author, isbn, genre)];
      }
      if Consistent(before) {
        AddBookPreservesConsistency(before, title, author, isbn, genre);
      }
    }

    method RemoveBook(isbn: Isbn) returns (removed: bool)
      modifies this
      ensures removed <==> isbn in old(books)
      ensures State() == AfterRemoveBook(old(State()), isbn)
    {
      removed := isbn in books;
      books := books - {isbn};
    }

    method RegisterUser(name: string, userId: UserId, email: string, t: UserType)
      modifies this
      ensures State() == AfterRegisterUser(old(State()), name, userId, email, t)
      ensures old(Consistent(State())) ==> Consistent(State())
    {
      ghost var before := State();
      if userId !in users {
        users := users[userId := NewUser(name, userId, email, t)];
      }
      if Consistent(before) {
        RegisterUserPreservesConsistency(before, name, userId, email, t);
      }
    }

    /** `borrowBook`, with the wall clock's date passed in as `today`. */
    method BorrowBook(userId: UserId, isbn: Isbn, today: Day) returns (ok: bool)
      modifies this
      ensures ok <==> BorrowAllowed(old(State()), userId, isbn)
      ensures State() == AfterBorrow(old(State()), userId, isbn, today)
      ensures old(Consistent(State())) ==> Consistent(State())
    {
      ghost var before := State();
      if Consistent(before) {
        BorrowPreservesConsistency(before, userId, isbn, today);
      }
      if userId !in users || isbn !in books {
        return false;
      }
      var user := users[userId];
      var book := books[isbn];
      if !book.available {
        return false;
      }
      if !CanBorrow(user) {
        return false;
      }
      book := book.(available := false);
      user := user.(borrowedBooks := user.borrowedBooks + [isbn]);
      books := books[isbn := book];
      users := users[userId := user];
      history := history + [BorrowingRecord(user, book, today)];
      ok := true;
    }

    method ReturnBook(userId: UserId, isbn: Isbn) returns (ok: bool)
      modifies this
      ensures ok <==> ReturnAllowed(old(State()), userId, isbn)
      ensures State() == AfterReturn(old(State()), userId, isbn)
      ensures old(Consistent(State())) ==> Consistent(State())
    {
      ghost var before := State();
      if Consistent(before) {
        ReturnPreservesConsistency(before, userId, isbn);
      }
      if userId !in users || isbn !in books {
        return false;
      }
      var user := users[userId];
      var book := books[isbn];
      if book.available {
        return false;
      }
      if isbn !in user.borrowedBooks {
        return false;
      }
      user := user.(borrowedBooks := RemoveFirst(user.borrowedBooks, isbn));
      users := users[userId := user];
      books := books[isbn := book.(available := true)];
      history := WithoutIsbn(history, isbn);
      ok := true;
    }
  }

  /** A client of the class: a member borrows a book and cannot borrow it a second time. */
  method BorrowTwiceScenario()
  {
    var lib := new Library();
    lib.AddBook("1984", "George Orwell", "111", "Dystopia");
    lib.RegisterUser("Ann", "u1", "ann@example.org", STUDENT);
    var ok := lib.BorrowBook("u1", "111", 100);
    assert ok && !lib.books["111"].available;
    ghost var before := lib.State();
    ok := lib.BorrowBook("u1", "111", 100);
    assert !ok && lib.State() == before;
  }

  /** A client of the class: a student holding 3 books is refused a fourth, and the refusal
      changes nothing. */
  method StudentLimitScenario(lib: Library)
    requires "u1" in lib.users && lib.users["u1"].Student?
    requires "444" in lib.books && lib.books["444"].available
    modifies lib
  {
    var ok := lib.BorrowBook("u1", "444", 103);
    assert ok <==> |old(lib.users["u1"].borrowedBooks)| < 3;
    if |old(lib.users["u1"].borrowedBooks)| == 3 {
      assert !ok && lib.State() == old(lib.State());
    }
  }
}
