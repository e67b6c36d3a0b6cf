/** A borrower's own loan list: which loans are shown, the fine shown for each,
    and the status label. */
module UserLoans {

  import opened Wrappers
  import opened Types
  import opened LibraryContext
  import LoanManagement
  import Time

  /** The display rate: 50 rupees per day. */
  const FINE_PER_DAY: int := 50

  /** `user ? loans.filter(loan => loan.userId === user.id) : []` */
  function VisibleLoans(loans: seq<Loan>, user: Option<User>): (r: seq<Loan>)
    ensures user.None? ==> r == []
    ensures forall l :: l in r <==> user.Some? && l in loans && l.userId == user.value.id
  {
    match user
    case None => []
    case Some(u) => LoansOfUser(loans, u.id)
  }

  /** The borrower's list is the ledger's `getUserLoans` for that borrower. */
  lemma VisibleLoansAreUserLoans(library: Library, u: User)
    ensures VisibleLoans(library.loans, Some(u)) == library.GetUserLoans(u.id)
  {
  }

  /** The book cell, `getBookById(loan.bookId)?.title`: the title of the first
      book with that id, empty when there is none. */
  function BookCell(books: seq<Book>, bookId: BookId): (r: Option<string>)
    ensures r.None? <==> forall b :: b in books ==> b.id != bookId
    ensures r.Some? ==> exists i :: 0 <= i < |books| && books[i].id == bookId && r.value == books[i].title &&
                                    forall j :: 0 <= j < i ==> books[j].id != bookId
  {
    match FindBook(books, bookId)
    case Some(b) => Some(b.title)
    case None => None
  }

  /** `calculateFine`: 50 per started day past the due date; 0 for an empty due
      date and up to the due instant. */
  function CalculateFine(dueDate: Option<Millis>, now: Millis): (r: nat)
    ensures dueDate.None? ==> r == 0
    ensures dueDate.Some? && now <= dueDate.value ==> r == 0
    ensures r % FINE_PER_DAY == 0
    ensures dueDate.Some? && now > dueDate.value ==>
              r >= FINE_PER_DAY &&
              Time.DAY_MS * (r / FINE_PER_DAY - 1) < now - dueDate.value <= Time.DAY_MS * (r / FINE_PER_DAY)
  {
    match dueDate
    case None => 0
    case Some(due) =>
      var diffDays := Time.CeilDiv(now - due, Time.DAY_MS);
      if diffDays > 0 then diffDays * FINE_PER_DAY else 0
  }

  /** The borrower's fine is the administrator's overdue-day count at the daily rate. */
  lemma FineIsRateTimesOverdueDays(due: Millis, now: Millis)
    ensures CalculateFine(Some(due), now) == FINE_PER_DAY * LoanManagement.OverdueDays(due, now)
  {
  }

  /** The computed fine never decreases as time passes. */
  lemma CalculateFineMonotone(due: Millis, now1: Millis, now2: Millis)
    requires now1 <= now2
    ensures CalculateFine(Some(due), now1) <= CalculateFine(Some(due), now2)
  {
    LoanManagement.OverdueDaysMonotone(due, now1, now2);
    FineIsRateTimesOverdueDays(due, now1);
    FineIsRateTimesOverdueDays(due, now2);
  }

  /** `loan.fine || (loan.status === 'active' ? calculateFine(loan.dueDate) : 0)` */
  function CurrentFine(loan: Loan, now: Millis): (r: int)
    ensures IsSet(loan.fine) ==> r == loan.fine.value
    ensures !IsSet(loan.fine) && loan.status == Active ==> r == CalculateFine(Some(loan.dueDate), now) >= 0
    ensures !IsSet(loan.fine) && loan.status != Active ==> r == 0
  {
    if IsSet(loan.fine) then loan.fine.value
    else if loan.status == Active then CalculateFine(Some(loan.dueDate), now)
    else 0
  }

  /** A stored fine, and any loan that is no longer active, show a fine that
      does not depend on the time of viewing. */
  lemma StoredFineIsAuthoritative(loan: Loan, now1: Millis, now2: Millis)
    requires IsSet(loan.fine) || loan.status != Active
    ensures CurrentFine(loan, now1) == CurrentFine(loan, now2)
  {
  }

  /** A fresh loan shows no fine during its fourteen days. */
  lemma NewLoanShowsNoFine(id: LoanId, bookId: BookId, userId: UserId, issued: Millis, now: Millis)
    requires now <= issued + Time.LOAN_PERIOD_MS
    ensures CurrentFine(NewLoan(id, bookId, userId, issued), now) == 0
  {
  }

  /** After `returnBook`, the borrower sees exactly the fine the ledger settled. */
  lemma ReturnedLoanShowsSettledFine(l: Loan, returned: Millis, supplied: Option<int>, now: Millis)
    ensures CurrentFine(Settled(l, returned, supplied), now) == SettledFine(supplied, l.fine)
  {
  }

  /** ASCII upper-casing of one character. */
  function UpperCase(c: char): (r: char)
    ensures 'a' <= c <= 'z' ==> 'A' <= r <= 'Z' && r as int - 'A' as int == c as int - 'a' as int
    ensures !('a' <= c <= 'z') ==> r == c
  {
    if 'a' <= c <= 'z' then (c as int - 'a' as int + 'A' as int) as char else c
  }

  /** `s.charAt(0).toUpperCase() + s.slice(1)` */
  function Capitalize(s: string): (r: string)
    ensures |r| == |s|
    ensures s != [] ==> r[0] == UpperCase(s[0]) && r[1..] == s[1..]
  {
    if s == [] then [] else [UpperCase(s[0])] + s[1..]
  }

  /** The status badge: the stored status name with its first letter capitalised. */
  function StatusLabel(status: LoanStatus): (r: string)
    ensures status == Active ==> r == "Active"
    ensures status == Overdue ==> r == "Overdue"
    ensures status == Returned ==> r == "Returned"
  {
    Capitalize(StatusName(status))
  }

  /** The fine cell: an amount, or a dash. */
  datatype FineCell = Amount(value: int) | Dash

  function ShowFine(amount: int): (r: FineCell)
    ensures r.Amount? <==> amount > 0
    ensures r.Amount? ==> r.value == amount
  {
    if amount > 0 then Amount(amount) else Dash
  }
}
