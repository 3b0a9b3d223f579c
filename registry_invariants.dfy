/** What the registry keeps true. Starting from an empty library, `addBook`, `registerUser`,
    `borrowBook` and `returnBook` keep every member within the limit and keep each book's
    availability in step with the loans: a book is out exactly when one record and one member's
    list refer to it. `removeBook` does not: removing a lent book orphans its record. */
module RegistryInvariants {
  import opened Seqs
  import opened Books
  import opened Users
  import opened Records
  import opened Registry

  /** How many loan records refer to the ISBN. */
  function RecordCount(h: seq<BorrowingRecord>, isbn: Isbn): nat
  {
    if h == [] then 0
    else (if h[0].book.isbn == isbn then 1 else 0) + RecordCount(h[1..], isbn)
  }

  /** The member registered under `id` has the ISBN on their list. */
  ghost predicate Holder(s: LibraryState, isbn: Isbn, id: UserId)
  {
    id in s.users && isbn in s.users[id].borrowedBooks
  }

  ghost predicate NoHolder(s: LibraryState, isbn: Isbn)
  {
    forall id :: !Holder(s, isbn, id)
  }

  ghost predicate UniqueHolder(s: LibraryState, isbn: Isbn)
  {
    exists id :: Holder(s, isbn, id) && forall id' :: Holder(s, isbn, id') ==> id' == id
  }

  /** Every book is stored under its own ISBN and every member under their own ID. */
  ghost predicate KeysMatch(s: LibraryState)
  {
    && (forall i :: i in s.books ==> s.books[i].isbn == i)
    && (forall id :: id in s.users ==> s.users[id].userId == id)
  }

  /** No member holds more books than the policy of their variant allows. */
  ghost predicate WithinLimits(s: LibraryState)
  {
    forall id :: id in s.users ==> |s.users[id].borrowedBooks| <= MaxBooks(s.users[id])
  }

  /** Every record and every borrowed list refers to a catalogued book, and every record to a
      registered member. */
  ghost predicate NoDanglingReferences(s: LibraryState)
  {
    && (forall k :: 0 <= k < |s.history| ==> s.history[k].book.isbn in s.books && s.history[k].user.userId in s.users)
    && (forall id, i :: id in s.users && i in s.users[id].borrowedBooks ==> i in s.books)
  }

  /** No member's list holds the same book twice. */
  ghost predicate NoDuplicateHoldings(s: LibraryState)
  {
    forall id :: id in s.users ==> NoDup(s.users[id].borrowedBooks)
  }

  /** An available book has no record and no holder; a lent book has exactly one of each. */
  ghost predicate LoansMatchAvailability(s: LibraryState)
  {
    forall i :: i in s.books ==>
      if s.books[i].available then RecordCount(s.history, i) == 0 && NoHolder(s, i)
      else RecordCount(s.history, i) == 1 && UniqueHolder(s, i)
  }

  /** Each record names the member who holds its book. */
  ghost predicate RecordsNameHolder(s: LibraryState)
  {
    forall k :: 0 <= k < |s.history| ==> Holder(s, s.history[k].book.isbn, s.history[k].user.userId)
  }

  ghost predicate Consistent(s: LibraryState)
  {
    && KeysMatch(s)
    && WithinLimits(s)
    && NoDanglingReferences(s)
    && NoDuplicateHoldings(s)
    && LoansMatchAvailability(s)
    && RecordsNameHolder(s)
  }

  // ---------------------------------------------------------------------------------------
  // Counting records

  lemma {:induction false} RecordCountAppend(h: seq<BorrowingRecord>, rec: BorrowingRecord, isbn: Isbn)
    ensures RecordCount(h + [rec], isbn) == RecordCount(h, isbn) + (if rec.book.isbn == isbn then 1 else 0)
  {
    if h != [] {
      assert (h + [rec])[1..] == h[1..] + [rec];
      RecordCountAppend(h[1..], rec, isbn);
    }
  }

  /** A history none of whose records refers to the ISBN counts no record of it. */
  lemma {:induction false} RecordCountAbsent(h: seq<BorrowingRecord>, isbn: Isbn)
    requires forall k :: 0 <= k < |h| ==> h[k].book.isbn != isbn
    ensures RecordCount(h, isbn) == 0
  {
    if h != [] {
      RecordCountAbsent(h[1..], isbn);
    }
  }

  /** Conversely, a count of zero means no record refers to the ISBN. */
  lemma {:induction false} RecordCountZero(h: seq<BorrowingRecord>, isbn: Isbn)
    requires RecordCount(h, isbn) == 0
    ensures forall k :: 0 <= k < |h| ==> h[k].book.isbn != isbn
  {
    if h != [] {
      RecordCountZero(h[1..], isbn);
      assert forall k :: 1 <= k < |h| ==> h[k] == h[1..][k - 1];
    }
  }

  /** `removeIf` by ISBN drops every record of that ISBN and keeps the count of every other. */
  lemma {:induction false} RecordCountWithout(h: seq<BorrowingRecord>, isbn: Isbn, j: Isbn)
    ensures RecordCount(WithoutIsbn(h, isbn), j) == if j == isbn then 0 else RecordCount(h, j)
    ensures |WithoutIsbn(h, isbn)| == |h| - RecordCount(h, isbn)
  {
    if h != [] {
      RecordCountWithout(h[1..], isbn, j);
      if h[0].book.isbn != isbn {
        assert WithoutIsbn(h, isbn) == [h[0]] + WithoutIsbn(h[1..], isbn);
        assert ([h[0]] + WithoutIsbn(h[1..], isbn))[1..] == WithoutIsbn(h[1..], isbn);
      } else {
        assert WithoutIsbn(h, isbn) == WithoutIsbn(h[1..], isbn);
      }
    }
  }

  // ---------------------------------------------------------------------------------------
  // Holders

  /** When the members holding `isbn` are the same in two states, so are "no holder" and
      "exactly one holder". */
  lemma SameHolders(s: LibraryState, s': LibraryState, isbn: Isbn)
    requires forall id :: Holder(s', isbn, id) <==> Holder(s, isbn, id)
    ensures NoHolder(s', isbn) <==> NoHolder(s, isbn)
    ensures UniqueHolder(s', isbn) <==> UniqueHolder(s, isbn)
  {
  }

  /** In a consistent state, the books a member holds are lent out. */
  lemma HeldBooksAreLent(s: LibraryState, id: UserId, isbn: Isbn)
    requires Consistent(s) && Holder(s, isbn, id)
    ensures isbn in s.books && !s.books[isbn].available
  {
  }

  // ---------------------------------------------------------------------------------------
  // The invariant is established and preserved

  lemma EmptyConsistent()
    ensures Consistent(Empty())
  {
  }

  lemma AddBookPreservesConsistency(s: LibraryState, title: string, author: string, isbn: Isbn, genre: string)
    requires Consistent(s)
    ensures Consistent(AfterAddBook(s, title, author, isbn, genre))
  {
    var r := AfterAddBook(s, title, author, isbn, genre);
    if isbn !in s.books {
      RecordCountAbsent(s.history, isbn);
      forall i | i in r.books
        ensures if r.books[i].available then RecordCount(r.history, i) == 0 && NoHolder(r, i)
                else RecordCount(r.history, i) == 1 && UniqueHolder(r, i)
      {
        SameHolders(s, r, i);
      }
    }
  }

  lemma RegisterUserPreservesConsistency(s: LibraryState, name: string, userId: UserId, email: string, t: UserType)
    requires Consistent(s)
    ensures Consistent(AfterRegisterUser(s, name, userId, email, t))
  {
    var r := AfterRegisterUser(s, name, userId, email, t);
    if userId !in s.users {
      forall i | i in r.books
        ensures if r.books[i].available then RecordCount(r.history, i) == 0 && NoHolder(r, i)
                else RecordCount(r.history, i) == 1 && UniqueHolder(r, i)
      {
        SameHolders(s, r, i);
      }
      forall k | 0 <= k < |r.history|
        ensures Holder(r, r.history[k].book.isbn, r.history[k].user.userId)
      {
        assert Holder(s, s.history[k].book.isbn, s.history[k].user.userId);
      }
    }
  }

  lemma BorrowPreservesConsistency(s: LibraryState, userId: UserId, isbn: Isbn, today: Day)
    requires Consistent(s)
    ensures Consistent(AfterBorrow(s, userId, isbn, today))
  {
    var r := AfterBorrow(s, userId, isbn, today);
    if BorrowAllowed(s, userId, isbn) {
      var held := s.users[userId].borrowedBooks;
      assert r.users[userId].borrowedBooks == held + [isbn];
      assert isbn !in held by {
        assert NoHolder(s, isbn);
        assert !Holder(s, isbn, userId);
      }
      assert NoDup(held + [isbn]);
      forall i | i in r.books
        ensures if r.books[i].available then RecordCount(r.history, i) == 0 && NoHolder(r, i)
                else RecordCount(r.history, i) == 1 && UniqueHolder(r, i)
      {
        RecordCountAppend(s.history, r.history[|s.history|], i);
        if i == isbn {
          assert Holder(r, isbn, userId);
          forall id' | id' != userId
            ensures !Holder(r, isbn, id')
          {
            assert !Holder(s, isbn, id');
          }
        } else {
          SameHolders(s, r, i);
        }
      }
      forall k | 0 <= k < |r.history|
        ensures Holder(r, r.history[k].book.isbn, r.history[k].user.userId)
      {
        if k < |s.history| {
          assert r.history[k] == s.history[k];
          assert Holder(s, s.history[k].book.isbn, s.history[k].user.userId);
        }
      }
    }
  }

  lemma ReturnPreservesConsistency(s: LibraryState, userId: UserId, isbn: Isbn)
    requires Consistent(s)
    ensures Consistent(AfterReturn(s, userId, isbn))
  {
    if ReturnAllowed(s, userId, isbn) {
      var r := AfterReturn(s, userId, isbn);
      RemoveFirstNoDup(s.users[userId].borrowedBooks, isbn);
      ReturnKeepsReferences(s, userId, isbn);
      ReturnKeepsLoans(s, userId, isbn);
      ReturnKeepsRecordsNameHolder(s, userId, isbn);
    }
  }

  /** After a return, nobody holds the book, and every other book has the same holders. */
  lemma ReturnHolders(s: LibraryState, userId: UserId, isbn: Isbn)
    requires Consistent(s) && ReturnAllowed(s, userId, isbn)
    ensures NoHolder(AfterReturn(s, userId, isbn), isbn)
    ensures forall i, id :: i != isbn ==> (Holder(AfterReturn(s, userId, isbn), i, id) <==> Holder(s, i, id))
  {
    var r := AfterReturn(s, userId, isbn);
    var held := s.users[userId].borrowedBooks;
    RemoveFirstNoDup(held, isbn);
    assert r.users[userId].borrowedBooks == RemoveFirst(held, isbn);
    forall id
      ensures !Holder(r, isbn, id)
    {
      if id in s.users && id != userId && Holder(s, isbn, id) {
        assert Holder(s, isbn, userId);
      }
    }
  }

  lemma ReturnKeepsReferences(s: LibraryState, userId: UserId, isbn: Isbn)
    requires Consistent(s) && ReturnAllowed(s, userId, isbn)
    ensures NoDanglingReferences(AfterReturn(s, userId, isbn))
  {
    var r := AfterReturn(s, userId, isbn);
    ReturnHolders(s, userId, isbn);
    forall k | 0 <= k < |r.history|
      ensures r.history[k].book.isbn in r.books && r.history[k].user.userId in r.users
    {
      assert r.history[k] in s.history;
    }
    forall id, i | id in r.users && i in r.users[id].borrowedBooks
      ensures i in r.books
    {
      assert Holder(r, i, id);
    }
  }

  lemma ReturnKeepsLoans(s: LibraryState, userId: UserId, isbn: Isbn)
    requires Consistent(s) && ReturnAllowed(s, userId, isbn)
    ensures LoansMatchAvailability(AfterReturn(s, userId, isbn))
  {
    var r := AfterReturn(s, userId, isbn);
    ReturnHolders(s, userId, isbn);
    forall i | i in r.books
      ensures if r.books[i].available then RecordCount(r.history, i) == 0 && NoHolder(r, i)
              else RecordCount(r.history, i) == 1 && UniqueHolder(r, i)
    {
      RecordCountWithout(s.history, isbn, i);
      if i != isbn {
        SameHolders(s, r, i);
      }
    }
  }

  lemma ReturnKeepsRecordsNameHolder(s: LibraryState, userId: UserId, isbn: Isbn)
    requires Consistent(s) && ReturnAllowed(s, userId, isbn)
    ensures RecordsNameHolder(AfterReturn(s, userId, isbn))
  {
    var r := AfterReturn(s, userId, isbn);
    ReturnHolders(s, userId, isbn);
    forall k | 0 <= k < |r.history|
      ensures Holder(r, r.history[k].book.isbn, r.history[k].user.userId)
    {
      var rec := r.history[k];
      assert rec in s.history && rec.book.isbn != isbn;
      var k' :| 0 <= k' < |s.history| && s.history[k'] == rec;
      assert Holder(s, rec.book.isbn, rec.user.userId);
    }
  }
}
