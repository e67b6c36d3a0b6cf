/** The borrower's catalog: which books the signed-in user may borrow, the
    borrow button's state and label, and the request a click sends. */
module BookCatalog {

  import opened Wrappers
  import opened Types
  import opened Sequences
  import opened LibraryContext

  function ActiveLoanOf(user: Option<User>): Loan -> bool
  {
    (l: Loan) => user.Some? && l.userId == user.value.id && l.status == Active
  }

  /** `userActiveLoans`: the active loans of the signed-in user (none without a user). */
  function UserActiveLoans(loans: seq<Loan>, user: Option<User>): (r: seq<Loan>)
    ensures forall l :: l in r <==> l in loans && user.Some? && l.userId == user.value.id && l.status == Active
  {
    Filter(loans, ActiveLoanOf(user))
  }

  /** `canBorrow`: the user holds no active loan of this book. Overdue and
      returned loans of the same book do not count. */
  function CanBorrow(loans: seq<Loan>, user: Option<User>, bookId: BookId): (r: bool)
    ensures r <==> forall l :: l in loans && user.Some? && l.userId == user.value.id && l.status == Active ==>
                                l.bookId != bookId
  {
    !exists l :: l in UserActiveLoans(loans, user) && l.bookId == bookId
  }

  /** The borrow button is disabled when the user already holds an active loan
      of the book, or when exactly no copy is available. */
  function BorrowDisabled(loans: seq<Loan>, user: Option<User>, book: Book): (r: bool)
    ensures r <==> book.available == 0 ||
                   exists l :: l in loans && user.Some? && l.userId == user.value.id &&
                               l.status == Active && l.bookId == book.id
  {
    !CanBorrow(loans, user, book.id) || book.available == 0
  }

  function BorrowLabel(loans: seq<Loan>, user: Option<User>, book: Book): (r: string)
    ensures r == "Already Borrowed" <==> !CanBorrow(loans, user, book.id)
    ensures r == "Not Available" <==> CanBorrow(loans, user, book.id) && book.available == 0
    ensures r == "Borrow Book" <==> !BorrowDisabled(loans, user, book)
  {
    if !CanBorrow(loans, user, book.id) then "Already Borrowed"
    else if book.available == 0 then "Not Available"
    else "Borrow Book"
  }

  /** The arguments of an `issueBook` call. */
  datatype IssueRequest = IssueRequest(bookId: BookId, userId: UserId)

  /** `user && issueBook(book.id, user.id)` */
  function BorrowClick(user: Option<User>, book: Book): (r: Option<IssueRequest>)
    ensures r.Some? <==> user.Some?
    ensures r.Some? ==> r.value.bookId == book.id && r.value.userId == user.value.id
  {
    match user
    case None => None
    case Some(u) => Some(IssueRequest(book.id, u.id))
  }

  /** Only this gate keeps a borrower to one active loan per book: a loan
      issued through an enabled button keeps the property. */
  lemma EnabledBorrowKeepsSingleActive(loans: seq<Loan>, user: User, book: Book, loanId: LoanId, now: Millis)
    requires SingleActive(loans) && !BorrowDisabled(loans, Some(user), book)
    ensures SingleActive(loans + [NewLoan(loanId, book.id, user.id, now)])
  {
    var r := loans + [NewLoan(loanId, book.id, user.id, now)];
    forall i, j | 0 <= i < j < |r| && r[i].status == Active && r[j].status == Active
      ensures r[i].bookId != r[j].bookId || r[i].userId != r[j].userId
    {
      if j == |loans| {
        assert r[i] == loans[i] && loans[i] in loans;
      }
    }
  }
}
