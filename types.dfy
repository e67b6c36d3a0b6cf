/** The library's records: books, loans and users, with the string
    enumerations the stored data uses for loan status and user role. */
module Types {

  import opened Wrappers

  type BookId = string
  type LoanId = string
  type UserId = string

  /** A point in time, in milliseconds since the epoch. */
  type Millis = int

  /** A user's role: `'admin' | 'user'`. */
  datatype Role = Admin | Member

  function RoleName(r: Role): string
  {
    match r
    case Admin => "admin"
    case Member => "user"
  }

  /** The role a string names, if any: exactly the two names of `Role` name one. */
  function ParseRole(s: string): (r: Option<Role>)
    ensures r.Some? ==> RoleName(r.value) == s
    ensures r.None? ==> forall role: Role :: RoleName(role) != s
  {
    if s == "admin" then Some(Admin)
    else if s == "user" then Some(Member)
    else None
  }

  datatype User = User(id: UserId, email: string, name: string, role: Role)

  /** A loan's status: `'active' | 'returned' | 'overdue'`. */
  datatype LoanStatus = Active | Returned | Overdue

  function StatusName(s: LoanStatus): string
  {
    match s
    case Active => "active"
    case Returned => "returned"
    case Overdue => "overdue"
  }

  /** The status a string names, if any: exactly the three names of `LoanStatus` name one. */
  function ParseStatus(s: string): (r: Option<LoanStatus>)
    ensures r.Some? ==> StatusName(r.value) == s
    ensures r.None? ==> forall st: LoanStatus :: StatusName(st) != s
  {
    if s == "active" then Some(Active)
    else if s == "returned" then Some(Returned)
    else if s == "overdue" then Some(Overdue)
    else None
  }

  lemma StatusNamesRoundTrip(s: LoanStatus)
    ensures ParseStatus(StatusName(s)) == Some(s)
  {
  }

  lemma RoleNamesRoundTrip(r: Role)
    ensures ParseRole(RoleName(r)) == Some(r)
  {
  }

  /** The fields of a book other than its id (`Omit<Book, 'id'>`). */
  datatype BookData = BookData(
    title: string,
    author: string,
    quantity: int,
    available: int,
    coverUrl: string,
    isbn: string)

  datatype Book = Book(
    id: BookId,
    title: string,
    author: string,
    quantity: int,
    available: int,
    coverUrl: string,
    isbn: string)

  function Fields(b: Book): BookData
  {
    BookData(b.title, b.author, b.quantity, b.available, b.coverUrl, b.isbn)
  }

  /** `{ ...data, id }`: a book with the given id and every other field from `data`. */
  function WithId(data: BookData, id: BookId): (b: Book)
    ensures b.id == id && Fields(b) == data
    ensures forall other: Book :: other.id == id && Fields(other) == data ==> other == b
  {
    Book(id, data.title, data.author, data.quantity, data.available, data.coverUrl, data.isbn)
  }

  /** A loan refers to its book and its borrower by id only. `returnDate` and
      `fine` are optional fields of the stored record. */
  datatype Loan = Loan(
    id: LoanId,
    bookId: BookId,
    userId: UserId,
    dueDate: Millis,
    returnDate: Option<Millis>,
    status: LoanStatus,
    fine: Option<int>)

  /** Truthiness of an optional number: present and not zero. */
  predicate IsSet(amount: Option<int>)
  {
    amount.Some? && amount.value != 0
  }

  /** `fine || 0`: an absent fine and a zero fine both read as 0. */
  function FineOrZero(fine: Option<int>): (r: int)
    ensures fine.None? ==> r == 0
    ensures fine.Some? ==> r == fine.value
    ensures r != 0 <==> IsSet(fine)
  {
    if IsSet(fine) then fine.value else 0
  }
}
