/** Library members. The abstract Java class `User` and its subclasses `Student`, `Faculty` and
    `Guest` become one datatype with a variant per subclass; the variant, not the `userType`
    field, decides the borrowing policy, exactly as the overridden getters do in Java. */
module Users {
  import opened Books

  type UserId = string

  datatype UserType = STUDENT | FACULTY | GUEST

  /** All three variants carry the fields declared in `User`. `borrowedBooks` is the list the
      registry appends to and removes from; books are identified by their ISBN. */
  datatype User =
    | Student(name: string, userId: UserId, email: string, userType: UserType, borrowedBooks: seq<Isbn>)
    | Faculty(name: string, userId: UserId, email: string, userType: UserType, borrowedBooks: seq<Isbn>)
    | Guest(name: string, userId: UserId, email: string, userType: UserType, borrowedBooks: seq<Isbn>)

  /** `Guest.java` is not part of this model: the guest policy is left uninterpreted, so every
      fact proved below holds whatever values that class returns. */
  const GuestMaxBooks: nat
  const GuestBorrowDays: int
  const GuestFinePerDayCents: int

  /** The type a constructor of the variant passes to `super`. */
  function VariantType(u: User): UserType
  {
    match u
    case Student(_, _, _, _, _) => STUDENT
    case Faculty(_, _, _, _, _) => FACULTY
    case Guest(_, _, _, _, _) => GUEST
  }

  /** `getMaxBooks`, overridden per subclass. */
  function MaxBooks(u: User): nat
  {
    match u
    case Student(_, _, _, _, _) => 3
    case Faculty(_, _, _, _, _) => 10
    case Guest(_, _, _, _, _) => GuestMaxBooks
  }

  /** `getBorrowDays`, overridden per subclass: the loan period in days. */
  function BorrowDays(u: User): int
  {
    match u
    case Student(_, _, _, _, _) => 14
    case Faculty(_, _, _, _, _) => 30
    case Guest(_, _, _, _, _) => GuestBorrowDays
  }

  /** `getFinePerDay`, overridden per subclass, in cents (0.50 for a student, 0 for faculty). */
  function FinePerDayCents(u: User): int
  {
    match u
    case Student(_, _, _, _, _) => 50
    case Faculty(_, _, _, _, _) => 0
    case Guest(_, _, _, _, _) => GuestFinePerDayCents
  }

  /** `canBorrow`: the member holds fewer books than the policy allows. */
  predicate CanBorrow(u: User)
  {
    |u.borrowedBooks| < MaxBooks(u)
  }

  /** `new Student(...)`, `new Faculty(...)` or `new Guest(...)`, chosen by `t` as the registry's
      switch does: the given name, ID and e-mail, an empty list of borrowed books, and a variant
      whose type is `t`. */
  function NewUser(name: string, userId: UserId, email: string, t: UserType): (u: User)
    ensures u.name == name && u.userId == userId && u.email == email
    ensures u.userType == t && VariantType(u) == t
    ensures u.borrowedBooks == []
  {
    match t
    case STUDENT => Student(name, userId, email, STUDENT, [])
    case FACULTY => Faculty(name, userId, email, FACULTY, [])
    case GUEST => Guest(name, userId, email, GUEST, [])
  }

  /** `setName`: only the name changes. */
  function SetName(u: User, name: string): (r: User)
    ensures r.name == name && r.(name := u.name) == u
  {
    u.(name := name)
  }

  /** `setUserId`: only the ID changes. */
  function SetUserId(u: User, userId: UserId): (r: User)
    ensures r.userId == userId && r.(userId := u.userId) == u
  {
    u.(userId := userId)
  }

  /** `setEmail`: only the e-mail changes. */
  function SetEmail(u: User, email: string): (r: User)
    ensures r.email == email && r.(email := u.email) == u
  {
    u.(email := email)
  }

  /** `setBorrowedBooks`: the whole list is replaced; the policy stays that of the variant. */
  function SetBorrowedBooks(u: User, books: seq<Isbn>): (r: User)
    ensures r.borrowedBooks == books && r.(borrowedBooks := u.borrowedBooks) == u
    ensures MaxBooks(r) == MaxBooks(u) && BorrowDays(r) == BorrowDays(u)
    ensures CanBorrow(r) <==> |books| < MaxBooks(u)
  {
    u.(borrowedBooks := books)
  }

  /** `setUserType`: only the field changes. The policy comes from the variant, so the limits,
      the loan period, the fine and `canBorrow` are all what they were before. */
  function SetUserType(u: User, t: UserType): (r: User)
    ensures r.userType == t && r.(userType := u.userType) == u
    ensures VariantType(r) == VariantType(u)
    ensures MaxBooks(r) == MaxBooks(u) && BorrowDays(r) == BorrowDays(u)
    ensures FinePerDayCents(r) == FinePerDayCents(u)
    ensures CanBorrow(r) == CanBorrow(u)
  {
    u.(userType := t)
  }

  /** A student may hold 3 books for 14 days and pays 50 cents a day. */
  lemma StudentPolicy(u: User)
    requires u.Student?
    ensures VariantType(u) == STUDENT
    ensures MaxBooks(u) == 3 && BorrowDays(u) == 14 && FinePerDayCents(u) == 50
    ensures CanBorrow(u) <==> |u.borrowedBooks| < 3
  {
  }

  /** A faculty member may hold 10 books for 30 days and pays no fine. */
  lemma FacultyPolicy(u: User)
    requires u.Faculty?
    ensures VariantType(u) == FACULTY
    ensures MaxBooks(u) == 10 && BorrowDays(u) == 30 && FinePerDayCents(u) == 0
    ensures CanBorrow(u) <==> |u.borrowedBooks| < 10
  {
  }

  /** A member the registry has just created may borrow exactly when the policy allows at least
      one book; for students and faculty that is always. */
  lemma NewUserCanBorrow(name: string, userId: UserId, email: string, t: UserType)
    ensures CanBorrow(NewUser(name, userId, email, t)) <==> (t != GUEST || GuestMaxBooks > 0)
  {
  }
}
