/** A loan: which member took which book on which day. Dates are day numbers; the wall clock
    the source reads is passed in as `today`. */
module Records {
  import opened Books
  import opened Users

  /** A calendar date as a day number. */
  type Day = int

  /** The record keeps the member and the book as they were when the loan was made; the only
      things read back from them are the member's loan period, which the variant fixes, and the
      book's ISBN, which is its key. */
  datatype BorrowingRecord = BorrowingRecord(user: User, book: Book, borrowDate: Day)

  /** The day the loan ends: the borrow date plus the member's loan period. */
  function DueDate(r: BorrowingRecord): Day
  {
    r.borrowDate + BorrowDays(r.user)
  }

  /** `isOverdue` AS WRITTEN in the source: it asks whether the due date is strictly AFTER
      today. The name promises the opposite comparison (today after the due date); the inverted
      one is kept here because it is what the registry's overdue query runs. */
  predicate IsOverdue(r: BorrowingRecord, today: Day)
  {
    DueDate(r) > today
  }

  /** As written, a loan counts as "overdue" exactly while it is still running. */
  lemma OverdueMeansNotYetDue(r: BorrowingRecord, today: Day)
    ensures IsOverdue(r, today) <==> today < r.borrowDate + BorrowDays(r.user)
  {
  }

  /** The comparison is strict: on the due date itself a loan is not reported. */
  lemma NotOverdueOnDueDate(r: BorrowingRecord, today: Day)
    requires today == DueDate(r)
    ensures !IsOverdue(r, today)
  {
  }

  /** As written the predicate is anti-monotone in the date: once it holds at day `t` it holds
      at every earlier day, the reverse of how lateness behaves. */
  lemma OverdueAntiMonotone(r: BorrowingRecord, t: Day, t': Day)
    requires t' <= t && IsOverdue(r, t)
    ensures IsOverdue(r, t')
  {
  }

  /** The inversion made concrete: a loan with a positive loan period is reported on the day it
      is made, and a loan past its due date is never reported. */
  lemma OverdueIsInverted(r: BorrowingRecord, today: Day)
    ensures BorrowDays(r.user) > 0 ==> IsOverdue(r, r.borrowDate)
    ensures today > DueDate(r) ==> !IsOverdue(r, today)
  {
  }

  /** The comparison `isOverdue`'s name promises: a loan is late once today is past its due
      date. */
  predicate IsLate(r: BorrowingRecord, today: Day)
  {
    today > DueDate(r)
  }

  /** Lateness is monotone in the date: once late, a loan stays late. */
  lemma LateIsMonotone(r: BorrowingRecord, t: Day, t': Day)
    requires t <= t' && IsLate(r, t)
    ensures IsLate(r, t')
  {
  }

  /** A loan is not late on the day it is made (for a non-negative loan period) nor on its due
      date, and is late on every day after the due date. */
  lemma LateAfterDueDate(r: BorrowingRecord, today: Day)
    ensures BorrowDays(r.user) >= 0 ==> !IsLate(r, r.borrowDate)
    ensures !IsLate(r, DueDate(r))
    ensures today > DueDate(r) <==> IsLate(r, today)
  {
  }

  /** The predicate as written and the intended one never hold together, and on every day except
      the due date exactly one of them holds. */
  lemma OverdueIsNotLate(r: BorrowingRecord, today: Day)
    ensures !(IsOverdue(r, today) && IsLate(r, today))
    ensures today != DueDate(r) ==> (IsOverdue(r, today) <==> !IsLate(r, today))
  {
  }

  /** A student's loan is due 14 days after it was made, a faculty member's after 30. */
  lemma DueDateByPolicy(r: BorrowingRecord)
    ensures r.user.Student? ==> DueDate(r) == r.borrowDate + 14
    ensures r.user.Faculty? ==> DueDate(r) == r.borrowDate + 30
  {
  }

  /** `setBook`: only the book changes. */
  function SetBook(r: BorrowingRecord, book: Book): (r': BorrowingRecord)
    ensures r'.book == book && r'.(book := r.book) == r
  {
    r.(book := book)
  }

  /** `setUser`: only the member changes. */
  function SetUser(r: BorrowingRecord, user: User): (r': BorrowingRecord)
    ensures r'.user == user && r'.(user := r.user) == r
  {
    r.(user := user)
  }

  /** `setBorrowDate`: only the date changes, and the due date moves with it. */
  function SetBorrowDate(r: BorrowingRecord, d: Day): (r': BorrowingRecord)
    ensures r'.borrowDate == d && r'.(borrowDate := r.borrowDate) == r
    ensures DueDate(r') == DueDate(r) + (d - r.borrowDate)
  {
    r.(borrowDate := d)
  }
}
