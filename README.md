# Library registry — a Dafny model

This project models the in-memory core of a small library catalogue manager written in Java:
the `Library` registry (books by ISBN, members by user ID, and the chronological list of loan
records), the member policy classes `User`, `Student`, `Faculty` (and the unseen `Guest`), and the
loan record `BorrowingRecord`.

- `Books`, `Users`, `Records` (`book.dfy`, `user.dfy`, `borrowing_record.dfy`) are the entities.
  A member is a datatype with one variant per Java subclass. The variant, not the `userType`
  field, fixes the policy, just as the overridden getters do in Java. The limit is 3 books for 14
  days for a student and 10 books for 30 days for faculty. The fine per day is kept in cents.
  The guest policy is left as uninterpreted constants.
- `Registry` (`registry.dfy`) is the registry's state as a value. Each mutating operation is a
  transition function `AfterX`, and each query is a function of the state.
- `Catalog.Library` (`library.dfy`) is the class with the three mutable fields. Each of its
  methods is specified by the matching `Registry` function and, where that holds, keeps the
  registry consistent.
- `RegistryInvariants` (`registry_invariants.dfy`) defines consistency. Keys match their
  entities. Nobody holds more than their limit. No record or list refers to a missing book.
  No list holds a book twice. A book is out exactly when one record and one member's list refer
  to it. Each record names the member who holds its book. Consistency holds initially and is
  kept by `addBook`, `registerUser`, `borrowBook` and `returnBook`.
- `RegistryProperties` (`registry_properties.dfy`) relates several calls. It proves the
  idempotence of the duplicate-suppressing inserts and an exact borrow/return round trip. It
  shows that the ISBN-keyed `removeIf` of `returnBook` drops one record. It proves the hazard of
  `removeBook`: removing a lent book orphans its record, and removing it, adding it again and
  lending it again leaves two records for one ISBN. It also covers search and overdue queries.
- `Text` and `Seqs` model the Java library calls the registry relies on: `String.trim`,
  `toLowerCase`, `contains`, stream `filter`/`removeIf` and `List.remove(Object)`.

In three places the code does not do what its names suggest; the model follows the code:

- `BorrowingRecord.isOverdue` returns true when `borrowDate + borrowDays` is strictly after
  today. That is the opposite of what its name says. `Records.IsOverdue` keeps this inverted
  comparison. `getOverdueBooks` therefore reports the loans that are still running. The lemmas
  `Records.OverdueIsInverted` and `RegistryProperties.NewLoanReportedOverdue` show the
  consequence. The comparison the name promises is `Records.IsLate`, and the query built on it is
  `Registry.LateRecords` (see "## Findings").
- A member's held books form a Java `List`, not a set. `returnBook` removes the
  first occurrence.
- `User.setUserType` exists, so the `userType` field can change. The policy cannot change.

## Model

| member | source | states |
|---|---|---|
| `Text.Trim` | src/main/java/org/example/models/Library.java:80-84 | the result is the original with a run of leading blanks and a run of trailing blanks cut off (blank: code at most U+0020) and nothing else removed; it is empty exactly when every character is a blank, and otherwise starts and ends with a non-blank |
| `Text.Lower` | src/main/java/org/example/models/Library.java:84-90 | `toLowerCase` keeps the length, turns each upper-case ASCII letter into the matching lower-case letter (so none is left) and leaves every other character in place; `LowerTrimCommute` and `SearchIgnoresCase` build on it |
| `Text.Contains` | src/main/java/org/example/models/Library.java:88-90 | `contains` holds exactly when the pattern occurs at some index of the string |
| `Text.LowerTrimCommute` | src/main/java/org/example/models/Library.java:84 | lower-casing and trimming commute |
| `Text.TrimIgnoresSurroundingBlanks` | src/main/java/org/example/models/Library.java:84 | any run of blanks (characters up to U+0020) added before the query and any run added after it, either possibly empty, do not change the trimmed query |
| `Seqs.Filter` | src/main/java/org/example/models/Library.java:178-180 | a stream filter keeps exactly the elements that satisfy the predicate and is no longer than its input |
| `Seqs.FilterAppend` | src/main/java/org/example/models/Library.java:178-180 | filtering distributes over concatenation, so kept elements stay in their original order |
| `Seqs.RemoveFirst` | src/main/java/org/example/models/Library.java:164 | `List.remove(Object)` removes one occurrence when present (length drops by one, multiset loses one copy) and leaves the list alone otherwise |
| `Seqs.RemoveFirstDropsFirst` | src/main/java/org/example/models/Library.java:164 | the element `List.remove(Object)` drops is the first occurrence (`indexOf`), and the elements before and after it stay in their order |
| `Seqs.RemoveFirstNoDup` | src/main/java/org/example/models/Library.java:164 | on a list without duplicates, removal leaves no copy of the element, keeps every other element and keeps the list duplicate-free |
| `Books.NewBook` | src/main/java/org/example/models/Library.java:48 | a new book has the given title, author, ISBN and genre and is available |
| `Users.NewUser` | src/main/java/org/example/models/User.java:13-19 | a constructed member has the given name, ID and e-mail, the given type both as field and as variant, and an empty borrowed list |
| `Users.SetName` | src/main/java/org/example/models/User.java:34-36 | only the name changes |
| `Users.SetUserId` | src/main/java/org/example/models/User.java:42-44 | only the ID changes |
| `Users.SetEmail` | src/main/java/org/example/models/User.java:50-52 | only the e-mail changes |
| `Users.SetBorrowedBooks` | src/main/java/org/example/models/User.java:58-60 | the whole list is replaced, nothing else changes, the policy is kept and `canBorrow` becomes "new list shorter than the limit" |
| `Users.SetUserType` | src/main/java/org/example/models/User.java:66-68 | only the type field changes; variant, limit, loan period, fine and `canBorrow` are unchanged |
| `Users.CanBorrow` | src/main/java/org/example/models/User.java:26-28 | definition: fewer books held than the variant's limit; properties in `StudentPolicy`, `FacultyPolicy`, `NewUserCanBorrow` and `BorrowRespectsLimit` |
| `Users.MaxBooks` | src/main/java/org/example/models/Student.java:11-12 | definition: 3 for a student, 10 for faculty (Faculty.java lines 12-15), the guest constant otherwise; properties in `StudentPolicy` and `FacultyPolicy` |
| `Users.BorrowDays` | src/main/java/org/example/models/Student.java:14-15 | definition: 14 days for a student, 30 for faculty (Faculty.java lines 17-20), the guest constant otherwise; properties in `StudentPolicy`, `FacultyPolicy` and `Records.DueDateByPolicy` |
| `Users.FinePerDayCents` | src/main/java/org/example/models/Student.java:17-18 | definition: 50 cents for a student, nothing for faculty (Faculty.java lines 22-25), the guest constant otherwise; properties in `StudentPolicy` and `FacultyPolicy` |
| `Users.NewUserCanBorrow` | src/main/java/org/example/models/User.java:26-28 | a freshly registered member can borrow exactly when the limit of their type is positive (always for students and faculty) |
| `Users.StudentPolicy` | src/main/java/org/example/models/Student.java:7-18 | a student is of type STUDENT, may hold 3 books for 14 days, pays 50 cents a day, and can borrow iff holding fewer than 3 |
| `Users.FacultyPolicy` | src/main/java/org/example/models/Faculty.java:8-25 | a faculty member is of type FACULTY, may hold 10 books for 30 days, pays nothing, and can borrow iff holding fewer than 10 |
| `Records.IsOverdue` | src/main/java/org/example/models/BorrowingRecord.java:44-47 | definition as written (due date strictly after today); properties in `OverdueMeansNotYetDue`, `NotOverdueOnDueDate`, `OverdueAntiMonotone`, `OverdueIsInverted` and `OverdueIsNotLate` |
| `Records.OverdueMeansNotYetDue` | src/main/java/org/example/models/BorrowingRecord.java:44-47 | as written, `isOverdue(today)` holds iff `today < borrowDate + borrowDays` |
| `Records.NotOverdueOnDueDate` | src/main/java/org/example/models/BorrowingRecord.java:46 | the comparison is strict: not reported on the due date itself |
| `Records.OverdueAntiMonotone` | src/main/java/org/example/models/BorrowingRecord.java:46 | if the predicate holds at a day it holds at every earlier day |
| `Records.OverdueIsInverted` | src/main/java/org/example/models/BorrowingRecord.java:44-47 | a loan with a positive period is reported on its first day, and a loan past its due date is never reported |
| `Records.IsLate` | src/main/java/org/example/models/BorrowingRecord.java:44-47 | definition of the comparison the name `isOverdue` promises (today strictly after the due date); properties in `LateIsMonotone`, `LateAfterDueDate` and `OverdueIsNotLate` |
| `Records.LateIsMonotone` | src/main/java/org/example/models/BorrowingRecord.java:44-47 | once a loan is late it stays late on every later day |
| `Records.LateAfterDueDate` | src/main/java/org/example/models/BorrowingRecord.java:44-47 | a loan is not late on its borrow day (for a non-negative period) nor on its due date, and is late exactly on the days after the due date |
| `Records.OverdueIsNotLate` | src/main/java/org/example/models/BorrowingRecord.java:46 | the as-written and the intended predicates never hold together, and on every day but the due date exactly one holds |
| `Records.DueDateByPolicy` | src/main/java/org/example/models/BorrowingRecord.java:45-46 | a student's loan is due after 14 days, a faculty member's after 30 |
| `Records.SetBook` | src/main/java/org/example/models/BorrowingRecord.java:24-26 | only the book changes |
| `Records.SetUser` | src/main/java/org/example/models/BorrowingRecord.java:32-34 | only the member changes |
| `Records.SetBorrowDate` | src/main/java/org/example/models/BorrowingRecord.java:40-42 | only the date changes, and the due date moves by the same amount |
| `Registry.Empty` | src/main/java/org/example/models/Library.java:22-26 | a new registry has no books, no members and no records |
| `Registry.AfterAddBook` | src/main/java/org/example/models/Library.java:44-51 | a new ISBN adds exactly one available book with the given fields and keeps everything else; a present ISBN leaves the state unchanged |
| `Registry.AfterRemoveBook` | src/main/java/org/example/models/Library.java:59-61 | the ISBN is gone, other books are kept, members and history are untouched even if the book was lent |
| `Registry.FindBook` | src/main/java/org/example/models/Library.java:69-71 | finds a book iff the ISBN is catalogued, and then the catalogued book |
| `Registry.AllBooks` | src/main/java/org/example/models/Library.java:28-30 | exactly the catalogued books |
| `Registry.AllUsers` | src/main/java/org/example/models/Library.java:32-34 | exactly the registered members |
| `Registry.Matches` | src/main/java/org/example/models/Library.java:87-91 | definition: the lower-cased title, author or genre contains the term; properties in `SearchBooks`, `OrwellMatchesGeorgeOrwell` and `SearchByAuthorExample` |
| `Registry.SearchBooks` | src/main/java/org/example/models/Library.java:79-93 | a null or blank query finds nothing; otherwise exactly the catalogued books whose lower-cased title, author or genre contains the trimmed, lower-cased query |
| `Registry.AfterRegisterUser` | src/main/java/org/example/models/Library.java:103-112 | a new ID adds exactly one member of the requested type with no books and keeps everything else; a present ID leaves the state unchanged |
| `Registry.FindUser` | src/main/java/org/example/models/Library.java:120-122 | finds a member iff the ID is registered, and then that member |
| `Registry.AfterBorrow` | src/main/java/org/example/models/Library.java:131-146 | if a check fails nothing changes; otherwise the book becomes unavailable, its ISBN is appended to the member's list, one record (member, book, given day) is appended to the history, and nothing else changes |
| `Registry.WithoutIsbn` | src/main/java/org/example/models/Library.java:166 | `removeIf` keeps exactly the records of other ISBNs |
| `Registry.AfterReturn` | src/main/java/org/example/models/Library.java:155-169 | if a check fails nothing changes; otherwise one copy of the ISBN leaves the member's list, the book is available, every record of the ISBN leaves the history, and nothing else changes |
| `Registry.OverdueRecords` | src/main/java/org/example/models/Library.java:177-181 | exactly the history records the as-written overdue predicate selects, no more of them than the history holds |
| `Registry.LateRecords` | src/main/java/org/example/models/Library.java:177-181 | the overdue query with the intended comparison: exactly the history records whose due date is before today, no more of them than the history holds |
| `RegistryInvariants.RecordCountWithout` | src/main/java/org/example/models/Library.java:166 | after `removeIf` no record of the ISBN is left, every other ISBN keeps its count, and the history shrinks by the number removed |
| `RegistryInvariants.EmptyConsistent` | src/main/java/org/example/models/Library.java:22-26 | the empty registry is consistent |
| `RegistryInvariants.AddBookPreservesConsistency` | src/main/java/org/example/models/Library.java:44-51 | `addBook` keeps the registry consistent |
| `RegistryInvariants.RegisterUserPreservesConsistency` | src/main/java/org/example/models/Library.java:103-112 | `registerUser` keeps the registry consistent |
| `RegistryInvariants.BorrowPreservesConsistency` | src/main/java/org/example/models/Library.java:131-146 | `borrowBook` keeps the registry consistent, limits included |
| `RegistryInvariants.ReturnPreservesConsistency` | src/main/java/org/example/models/Library.java:155-169 | `returnBook` keeps the registry consistent |
| `RegistryProperties.AddBookIdempotent` | src/main/java/org/example/models/Library.java:47-50 | a second `addBook` with the same ISBN changes nothing |
| `RegistryProperties.RegisterUserIdempotent` | src/main/java/org/example/models/Library.java:105-111 | a second `registerUser` with the same ID changes nothing |
| `RegistryProperties.FindAfterAddBook` | src/main/java/org/example/models/Library.java:44-71 | after `addBook` the ISBN is found, as the new available book when it was free |
| `RegistryProperties.FindAfterRemoveBook` | src/main/java/org/example/models/Library.java:59-71 | after `removeBook` the ISBN is not found and every other lookup is unchanged |
| `RegistryProperties.FindAfterRegisterUser` | src/main/java/org/example/models/Library.java:103-122 | after `registerUser` the ID is found: a new member of the requested type with no books, or the old member |
| `RegistryProperties.UnavailableIffOneLoan` | src/main/java/org/example/models/Library.java:136-143 | in a consistent registry a catalogued book is unavailable iff exactly one record and exactly one member's list refer to it |
| `RegistryProperties.BorrowRespectsLimit` | src/main/java/org/example/models/Library.java:138-142 | a borrow never takes a member past their limit; a student never holds more than 3 books |
| `RegistryProperties.BorrowReturnRoundTrip` | src/main/java/org/example/models/Library.java:131-169 | in a consistent registry, a successful borrow followed by the return of the same book succeeds and restores the exact previous state |
| `RegistryProperties.ReturnDropsOneRecord` | src/main/java/org/example/models/Library.java:166 | in a consistent registry a return removes exactly one record, the one naming the returning member, although removal is by ISBN only |
| `RegistryProperties.RemoveAvailableBookPreservesConsistency` | src/main/java/org/example/models/Library.java:59-61 | removing a book that is not lent keeps the registry consistent |
| `RegistryProperties.RemoveLentBookOrphansRecord` | src/main/java/org/example/models/Library.java:60 | removing a lent book leaves a record of an ISBN no longer catalogued, so the registry is inconsistent |
| `RegistryProperties.RemoveReaddBorrowDuplicatesRecord` | src/main/java/org/example/models/Library.java:60 | after removing a lent book, adding it again and lending it again, the history holds two records of that ISBN |
| `RegistryProperties.OverdueKeepsHistoryOrder` | src/main/java/org/example/models/Library.java:177-181 | the overdue query of a history split in two is the query of the first part followed by that of the second |
| `RegistryProperties.NewLoanReportedOverdue` | src/main/java/org/example/models/Library.java:177-181 | a loan made today with a positive period is reported by the overdue query today |
| `RegistryProperties.NewLoanNotLate` | src/main/java/org/example/models/Library.java:177-181 | with the intended comparison, a loan made today with a non-negative period is not reported today |
| `RegistryProperties.OverdueAndLateDisjoint` | src/main/java/org/example/models/Library.java:177-181 | no record is selected both by the as-written overdue query and by the intended one |
| `RegistryProperties.ReturnAllowedIffHeld` | src/main/java/org/example/models/Library.java:155-162 | in a consistent registry `returnBook`'s checks pass exactly when the book is on the member's list |
| `RegistryProperties.SearchIgnoresCase` | src/main/java/org/example/models/Library.java:84-90 | lower-casing the query does not change the search result |
| `RegistryProperties.SearchIgnoresSurroundingBlanks` | src/main/java/org/example/models/Library.java:80-84 | any runs of blanks (characters up to U+0020) before and after the query do not change the search result |
| `RegistryProperties.OrwellMatchesGeorgeOrwell` | src/main/java/org/example/models/Library.java:88-90 | the term "orwell" matches a book whose author is "George Orwell" |
| `RegistryProperties.SearchByAuthorExample` | src/main/java/org/example/models/Library.java:84-92 | with one book by George Orwell catalogued, "orwell" finds exactly that book |
| `RegistryProperties.BlankQueriesFindNothing` | src/main/java/org/example/models/Library.java:80-82 | whatever is catalogued, "", "  " and null find nothing |
| `Catalog.Library.constructor` | src/main/java/org/example/models/Library.java:22-26 | the new registry is empty and consistent |
| `Catalog.Library.AddBook` | src/main/java/org/example/models/Library.java:44-51 | the new state is `AfterAddBook` of the old; consistency is kept |
| `Catalog.Library.RemoveBook` | src/main/java/org/example/models/Library.java:59-61 | returns whether the ISBN was catalogued; the new state is `AfterRemoveBook` of the old |
| `Catalog.Library.RegisterUser` | src/main/java/org/example/models/Library.java:103-112 | the new state is `AfterRegisterUser` of the old; consistency is kept |
| `Catalog.Library.BorrowBook` | src/main/java/org/example/models/Library.java:131-146 | returns true iff member and book exist, the book is available and the member can borrow; the new state is `AfterBorrow` of the old; consistency is kept |
| `Catalog.Library.ReturnBook` | src/main/java/org/example/models/Library.java:155-169 | returns true iff member and book exist, the book is lent and on the member's list; the new state is `AfterReturn` of the old; consistency is kept |

## Left out

- The console driver (`LibraryConsole.java`) is not part of this model: menus, prompts, input retry loops, defaulting an invalid type choice to STUDENT, and sample data.
- `LibraryOperations.java` declares the operations only. The class and the `Registry` functions provide every operation it lists.
- The read-only operations (`findBook`, `findUser`, `searchBooks`, `showAllBooks`, `showAllUsers`, `getOverdueBooks`) are functions of the registry state (`Registry.FindBook(lib.State(), isbn)` and so on), not members of the class.
- `LocalDate.now()` is not modelled. `borrowBook` and the overdue query take the date as a day number.
- `Book.java`, `Guest.java` and `UserType.java` are not part of this model. Book fields are inferred from their uses. The guest limit, loan period and fine are uninterpreted constants, so every property holds for any guest policy whose limit is non-negative (`GuestMaxBooks` is a `nat`; a negative limit would make a newly registered guest exceed it). The model also assumes that `Guest` keeps the inherited `canBorrow` and passes GUEST to the `User` constructor, as `Student` and `Faculty` do with their types.
- `getFinePerDay` returns a `double` in the source. Here it is an integer number of cents. Nothing computes with it.
- Null strings: a null query is modelled (`None`). The null checks on a book's title, author and genre are not, because the model's books always carry strings.
- Other null arguments are not modelled: the model's types exclude them. In the source a null type makes `registerUser` throw a `NullPointerException` at its `switch` (Library.java line 106), and a null ISBN or user ID is a legal `HashMap` key (Library.java lines 47 and 105).
- `toLowerCase` and `trim` are modelled on ASCII letters and on characters up to U+0020 only. Unicode case mapping is not modelled.
- `HashMap` iteration order is not modelled. `showAllBooks`, `showAllUsers` and `searchBooks` return sets.
- Object identity is not modelled. Books are identified by ISBN in a member's list, in `List.contains` and in `List.remove`. `Book.equals` is not visible. A re-added book is the same book as the removed one here, whereas Java may compare by object identity.
- Aliasing is not modelled. A member's `borrowedBooks` list is updated by replacing the member's value in the registry's map. In Java the list returned by `getBorrowedBooks` is updated in place. Within the core the two are the same, because only the registry touches that list.
- Loan records hold value copies of the member and the book as they were when the loan was made. Within the core the record's later reads are the member's loan period and the book's ISBN. The console's overdue report also reads the title, author, member name and user ID. None of these fields changes after the loan is made: on stored entities the registry only sets a book's availability and changes a member's borrowed list.
- The `BorrowingRecord` constructor and the getters of all three entities are the datatype constructor and its field selectors. They have no contract of their own.
- Java `int` overflow is not modelled: list sizes and limits are small, and dates are unbounded day numbers.

## Findings

| source | as written | input that shows it | evidently intended | confidence | as-written member | corrected member |
|---|---|---|---|---|---|---|
| src/main/java/org/example/models/BorrowingRecord.java:46 | `isOverdue` holds when the due date (borrow date plus loan period) is after today, so `getOverdueBooks` lists the loans still running | a student's loan made today is listed today; the same loan on day 15 after borrowing is never listed | a loan is overdue when today is after its due date (`Records.IsLate`, queried by `Registry.LateRecords`) | high; not executed | `Records.OverdueIsInverted` | `Records.LateAfterDueDate` |
