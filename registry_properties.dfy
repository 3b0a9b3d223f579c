/** Properties of the registry operations that relate several calls: idempotence of the
    duplicate-suppressing inserts, the borrow/return round trip, what a return drops from the
    history, the orphaned record `removeBook` leaves behind, and the search and overdue queries. */
module RegistryProperties {
  import opened Wrappers
  import opened Seqs
  import opened Text
  import opened Books
  import opened Users
  import opened Records
  import opened Registry
  import opened RegistryInvariants

  /** A second `addBook` with the same ISBN changes nothing, whatever its other arguments. */
  lemma AddBookIdempotent(s: LibraryState, title: string, author: string, isbn: Isbn, genre: string,
                          title': string, author': string, genre': string)
    ensures var r := AfterAddBook(s, title, author, isbn, genre);
      AfterAddBook(r, title', author', isbn, genre') == r
  {
  }

  /** A second `registerUser` with the same ID changes nothing, whatever its other arguments. */
  lemma RegisterUserIdempotent(s: LibraryState, name: string, userId: UserId, email: string, t: UserType,
                               name': string, email': string, t': UserType)
    ensures var r := AfterRegisterUser(s, name, userId, email, t);
      AfterRegisterUser(r, name', userId, email', t') == r
  {
  }

  /** After `addBook`, `findBook` finds the ISBN; it finds the new book when the ISBN was free. */
  lemma FindAfterAddBook(s: LibraryState, title: string, author: string, isbn: Isbn, genre: string)
    ensures var r := FindBook(AfterAddBook(s, title, author, isbn, genre), isbn);
      r.Some? && (isbn !in s.books ==> r == Some(Book(title, author, isbn, genre, true)))
  {
  }

  /** `removeBook` reports whether the ISBN was catalogued; afterwards `findBook` finds nothing
      under it and finds every other ISBN as before. */
  lemma FindAfterRemoveBook(s: LibraryState, isbn: Isbn, other: Isbn)
    ensures FindBook(AfterRemoveBook(s, isbn), isbn) == None
    ensures other != isbn ==> FindBook(AfterRemoveBook(s, isbn), other) == FindBook(s, other)
  {
  }

  /** After `registerUser`, `findUser` finds a member of the requested type with no books when
      the ID was free, and the old member otherwise. */
  lemma FindAfterRegisterUser(s: LibraryState, name: string, userId: UserId, email: string, t: UserType)
    ensures var r := FindUser(AfterRegisterUser(s, name, userId, email, t), userId);
      && r.Some?
      && (userId !in s.users ==> VariantType(r.value) == t && r.value.borrowedBooks == [])
      && (userId in s.users ==> r == FindUser(s, userId))
  {
  }

  /** In a consistent state a catalogued book is unavailable exactly when one loan record and
      one member's list refer to it. */
  lemma UnavailableIffOneLoan(s: LibraryState, isbn: Isbn)
    requires Consistent(s) && isbn in s.books
    ensures !s.books[isbn].available <==> RecordCount(s.history, isbn) == 1 && UniqueHolder(s, isbn)
  {
  }

  /** A successful borrow never takes a member past the limit of their policy; in particular a
      student never holds more than 3 books. */
  lemma BorrowRespectsLimit(s: LibraryState, userId: UserId, isbn: Isbn, today: Day)
    requires userId in s.users && |s.users[userId].borrowedBooks| <= MaxBooks(s.users[userId])
    ensures var r := AfterBorrow(s, userId, isbn, today);
      && |r.users[userId].borrowedBooks| <= MaxBooks(r.users[userId])
      && (r.users[userId].Student? ==> |r.users[userId].borrowedBooks| <= 3)
  {
  }

  /** Borrowing a book and returning it at once restores the state exactly: the book is back on
      the shelf, off the member's list, and the history is as before. */
  lemma BorrowReturnRoundTrip(s: LibraryState, userId: UserId, isbn: Isbn, today: Day)
    requires Consistent(s) && BorrowAllowed(s, userId, isbn)
    ensures ReturnAllowed(AfterBorrow(s, userId, isbn, today), userId, isbn)
    ensures AfterReturn(AfterBorrow(s, userId, isbn, today), userId, isbn) == s
  {
    assert !Holder(s, isbn, userId);
    RecordCountZero(s.history, isbn);
    RoundTripOfFreeBook(s, userId, isbn, today);
  }

  /** The round trip for a book that no record and not this member's list refers to. */
  lemma RoundTripOfFreeBook(s: LibraryState, userId: UserId, isbn: Isbn, today: Day)
    requires BorrowAllowed(s, userId, isbn) && s.books[isbn].isbn == isbn
    requires isbn !in s.users[userId].borrowedBooks
    requires forall k :: 0 <= k < |s.history| ==> s.history[k].book.isbn != isbn
    ensures ReturnAllowed(AfterBorrow(s, userId, isbn, today), userId, isbn)
    ensures AfterReturn(AfterBorrow(s, userId, isbn, today), userId, isbn) == s
  {
    var u := s.users[userId];
    var book := s.books[isbn].(available := false);
    var user := u.(borrowedBooks := u.borrowedBooks + [isbn]);
    var b := LibraryState(s.books[isbn := book], s.users[userId := user], s.history + [BorrowingRecord(user, book, today)]);
    assert AfterBorrow(s, userId, isbn, today) == b;
    ReturnOfFreshLoan(s, b, userId, isbn, today);
  }

  lemma ReturnOfFreshLoan(s: LibraryState, b: LibraryState, userId: UserId, isbn: Isbn, today: Day)
    requires userId in s.users && isbn in s.books && s.books[isbn].available && s.books[isbn].isbn == isbn
    requires isbn !in s.users[userId].borrowedBooks
    requires forall k :: 0 <= k < |s.history| ==> s.history[k].book.isbn != isbn
    requires var u := s.users[userId];
      var book := s.books[isbn].(available := false);
      var user := u.(borrowedBooks := u.borrowedBooks + [isbn]);
      b == LibraryState(s.books[isbn := book], s.users[userId := user], s.history + [BorrowingRecord(user, book, today)])
    ensures ReturnAllowed(b, userId, isbn)
    ensures AfterReturn(b, userId, isbn) == s
  {
    var u := s.users[userId];
    RemoveFirstAppend(u.borrowedBooks, isbn);
    WithoutFreshRecord(s.history, b.history[|s.history|], isbn);
    assert b.history == s.history + [b.history[|s.history|]];
    var users := b.users[userId := b.users[userId].(borrowedBooks := RemoveFirst(b.users[userId].borrowedBooks, isbn))];
    var books := b.books[isbn := b.books[isbn].(available := true)];
    assert users == s.users;
    assert books == s.books;
  }

  /** Dropping the records of an ISBN from a history that only its last record refers to gives
      back the history before that record. */
  lemma WithoutFreshRecord(h: seq<BorrowingRecord>, rec: BorrowingRecord, isbn: Isbn)
    requires forall k :: 0 <= k < |h| ==> h[k].book.isbn != isbn
    requires rec.book.isbn == isbn
    ensures WithoutIsbn(h + [rec], isbn) == h
  {
    FilterAppend(h, [rec], NotOf(isbn));
    FilterKeepsAll(h, NotOf(isbn));
  }

  lemma {:induction false} RemoveFirstAppend<T>(s: seq<T>, x: T)
    requires x !in s
    ensures RemoveFirst(s + [x], x) == s
  {
    if s != [] {
      assert (s + [x])[1..] == s[1..] + [x];
      RemoveFirstAppend(s[1..], x);
    }
  }

  /** Although `returnBook` removes records by ISBN alone, in a consistent state it drops
      exactly one record, and that record names the member who returns the book. */
  lemma ReturnDropsOneRecord(s: LibraryState, userId: UserId, isbn: Isbn)
    requires Consistent(s) && ReturnAllowed(s, userId, isbn)
    ensures |AfterReturn(s, userId, isbn).history| == |s.history| - 1
    ensures exists k :: 0 <= k < |s.history| && s.history[k].book.isbn == isbn && s.history[k].user.userId == userId
  {
    RecordCountWithout(s.history, isbn, isbn);
    var k := RecordOf(s.history, isbn);
    assert Holder(s, isbn, s.history[k].user.userId);
    assert Holder(s, isbn, userId);
  }

  /** An index of a record of the ISBN, when the count says there is one. */
  lemma {:induction false} RecordOf(h: seq<BorrowingRecord>, isbn: Isbn) returns (k: nat)
    requires RecordCount(h, isbn) > 0
    ensures k < |h| && h[k].book.isbn == isbn
  {
    if h[0].book.isbn == isbn {
      k := 0;
    } else {
      k := RecordOf(h[1..], isbn);
      k := k + 1;
    }
  }

  /** Removing a book that is on the shelf keeps the registry consistent. */
  lemma RemoveAvailableBookPreservesConsistency(s: LibraryState, isbn: Isbn)
    requires Consistent(s) && (isbn in s.books ==> s.books[isbn].available)
    ensures Consistent(AfterRemoveBook(s, isbn))
  {
    var r := AfterRemoveBook(s, isbn);
    forall i | i in r.books
      ensures if r.books[i].available then RecordCount(r.history, i) == 0 && NoHolder(r, i)
              else RecordCount(r.history, i) == 1 && UniqueHolder(r, i)
    {
      SameHolders(s, r, i);
    }
    if isbn in s.books {
      RecordCountZero(s.history, isbn);
    }
    forall id, i | id in r.users && i in r.users[id].borrowedBooks
      ensures i in r.books
    {
      assert Holder(s, i, id);
    }
  }

  /** Removing a lent book leaves its loan record pointing at a book that is no longer
      catalogued, so the registry is no longer consistent. */
  lemma RemoveLentBookOrphansRecord(s: LibraryState, isbn: Isbn)
    requires Consistent(s) && isbn in s.books && !s.books[isbn].available
    ensures var r := AfterRemoveBook(s, isbn);
      && (exists k :: 0 <= k < |r.history| && r.history[k].book.isbn == isbn && isbn !in r.books)
      && !Consistent(r)
  {
    var k := RecordOf(s.history, isbn);
    assert AfterRemoveBook(s, isbn).history[k].book.isbn == isbn;
  }

  /** Remove a lent book, add it again under the same ISBN, and lend it again: the history now
      holds two records of that ISBN, which a consistent registry never does. */
  lemma RemoveReaddBorrowDuplicatesRecord(s: LibraryState, isbn: Isbn, userId: UserId,
                                           title: string, author: string, genre: string, today: Day)
    requires Consistent(s) && isbn in s.books && !s.books[isbn].available
    requires userId in s.users && CanBorrow(s.users[userId])
    ensures var s2 := AfterAddBook(AfterRemoveBook(s, isbn), title, author, isbn, genre);
      && BorrowAllowed(s2, userId, isbn)
      && RecordCount(AfterBorrow(s2, userId, isbn, today).history, isbn) == 2
      && !Consistent(AfterBorrow(s2, userId, isbn, today))
  {
    var s2 := AfterAddBook(AfterRemoveBook(s, isbn), title, author, isbn, genre);
    var s3 := AfterBorrow(s2, userId, isbn, today);
    RecordCountAppend(s2.history, s3.history[|s2.history|], isbn);
  }

  // ---------------------------------------------------------------------------------------
  // Queries

  /** `getOverdueBooks` keeps history order: the overdue records of a history made of two parts
      are those of the first part followed by those of the second. */
  lemma OverdueKeepsHistoryOrder(s: LibraryState, a: seq<BorrowingRecord>, b: seq<BorrowingRecord>, today: Day)
    requires s.history == a + b
    ensures OverdueRecords(s, today) == OverdueRecords(s.(history := a), today) + OverdueRecords(s.(history := b), today)
  {
    FilterAppend(a, b, OverdueOn(today));
  }

  /** A record made today by a member with a positive loan period is reported by
      `getOverdueBooks` today (the inverted comparison at work). */
  lemma NewLoanReportedOverdue(s: LibraryState, userId: UserId, isbn: Isbn, today: Day)
    requires BorrowAllowed(s, userId, isbn) && BorrowDays(s.users[userId]) > 0
    ensures var r := AfterBorrow(s, userId, isbn, today);
      r.history[|s.history|] in OverdueRecords(r, today)
  {
  }

  /** In a consistent registry `returnBook`'s three checks reduce to one: the book is on the
      member's list. */
  lemma ReturnAllowedIffHeld(s: LibraryState, userId: UserId, isbn: Isbn)
    requires Consistent(s)
    ensures ReturnAllowed(s, userId, isbn) <==> Holder(s, isbn, userId)
  {
    if Holder(s, isbn, userId) {
      HeldBooksAreLent(s, userId, isbn);
    }
  }

  /** With the intended comparison, a loan made today with a non-negative loan period is not
      reported today, and no record is ever reported by both queries. */
  lemma NewLoanNotLate(s: LibraryState, userId: UserId, isbn: Isbn, today: Day)
    requires BorrowAllowed(s, userId, isbn) && BorrowDays(s.users[userId]) >= 0
    ensures var r := AfterBorrow(s, userId, isbn, today);
      r.history[|s.history|] !in LateRecords(r, today)
  {
  }

  /** The as-written and the intended overdue queries select disjoint records. */
  lemma OverdueAndLateDisjoint(s: LibraryState, today: Day)
    ensures forall rec :: rec in OverdueRecords(s, today) ==> rec !in LateRecords(s, today)
  {
    forall rec | rec in OverdueRecords(s, today)
      ensures rec !in LateRecords(s, today)
    {
      OverdueIsNotLate(rec, today);
    }
  }

  /** The search is case-insensitive: lower-casing the query does not change the result. */
  lemma SearchIgnoresCase(s: LibraryState, q: string)
    ensures SearchBooks(s, Some(Lower(q))) == SearchBooks(s, Some(q))
  {
    LowerTrimCommute(q);
    LowerIdempotent(Trim(q));
    assert |Trim(Lower(q))| == |Trim(q)|;
  }

  /** Runs of blanks before and after the query do not change the result. */
  lemma SearchIgnoresSurroundingBlanks(s: LibraryState, pre: string, q: string, post: string)
    requires AllBlank(pre) && AllBlank(post)
    ensures SearchBooks(s, Some(pre + q + post)) == SearchBooks(s, Some(q))
  {
    TrimIgnoresSurroundingBlanks(pre, q, post);
  }

  /** "orwell" matches a book whose author is "George Orwell": the match ignores case. */
  lemma OrwellMatchesGeorgeOrwell()
    ensures Matches(Book("1984", "George Orwell", "111", "Dystopia", true), "orwell")
  {
    var author := Lower("George Orwell");
    assert author[7] == 'o';
    assert author[8..13] == "rwell";
    assert OccursAt(author, "orwell", 7);
  }

  /** A catalogue holding one book by George Orwell: the query "orwell" finds exactly it. */
  lemma SearchByAuthorExample()
    ensures var s := AfterAddBook(Empty(), "1984", "George Orwell", "111", "Dystopia");
      SearchBooks(s, Some("orwell")) == {Book("1984", "George Orwell", "111", "Dystopia", true)}
  {
    var s := AfterAddBook(Empty(), "1984", "George Orwell", "111", "Dystopia");
    var b := Book("1984", "George Orwell", "111", "Dystopia", true);
    assert s.books == map["111" := b];
    assert Lower(Trim("orwell")) == "orwell" by {
      assert Trim("orwell") == "orwell";
    }
    OrwellMatchesGeorgeOrwell();
    assert AllBooks(s) == {b};
  }

  /** Whatever is catalogued, an empty, a blank or a null query finds nothing. */
  lemma BlankQueriesFindNothing(s: LibraryState)
    ensures SearchBooks(s, Some("")) == {}
    ensures SearchBooks(s, Some("  ")) == {}
    ensures SearchBooks(s, None) == {}
  {
    assert forall k :: 0 <= k < |"  "| ==> IsBlankChar("  "[k]);
  }
}
